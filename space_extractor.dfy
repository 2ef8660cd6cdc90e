/** SpaceExtractor: the rule pass of getSpaces and the value extraction of extractValues,
    as the loops the extractor runs, each proved to compute what module SpaceRouting
    specifies. The condition and key functions are used as they are. */
module SpaceExtractor {
  import opened Wrappers
  import opened Strings
  import opened SpaceRuleEnums
  import opened SpaceRules
  import opened Configuration
  import opened SpaceRouting

  /** Appends the trimmed values of one address header. */
  method AppendAddresses(values: seq<string>, addresses: seq<Address>) returns (r: seq<string>)
    ensures r == values + AddressValues(addresses)
  {
    r := values;
    for i := 0 to |addresses|
      invariant r == values + AddressValues(addresses[..i])
    {
      AddressValuesSnoc(addresses, i);
      r := r + [AddressValue(addresses[i])];
    }
    assert addresses[..|addresses|] == addresses;
  }

  lemma AddressValuesSnoc(addresses: seq<Address>, i: nat)
    requires i < |addresses|
    ensures AddressValues(addresses[..i + 1]) == AddressValues(addresses[..i]) + [AddressValue(addresses[i])]
  {
    var front := AddressValues(addresses[..i]);
    var a, b := AddressValues(addresses[..i + 1]), front + [AddressValue(addresses[i])];
    assert |a| == |b| == i + 1;
    forall k | 0 <= k < i + 1 ensures a[k] == b[k] {
      assert addresses[..i + 1][k] == addresses[k];
      if k < i {
        assert addresses[..i][k] == addresses[k];
        assert b[k] == front[k];
      }
    }
  }

  /** The values one header block adds: nothing for a null header, a failure for a
      header that cannot be read. */
  method AppendHeader(values: seq<string>, header: Read<seq<Address>>) returns (r: Result<seq<string>, RuleError>)
    ensures HeaderValues(header).Err? ==> r == Err(HeaderValues(header).error)
    ensures HeaderValues(header).Ok? ==> r == Ok(values + HeaderValues(header).value)
  {
    match header
    case Throws =>
      r := Err(FieldUnreadable);
    case Null =>
      assert values + [] == values;
      r := Ok(values);
    case Value(addresses) =>
      var appended := AppendAddresses(values, addresses);
      r := Ok(appended);
  }

  /** SpaceExtractor.extractValues. */
  method ExtractValues(rule: SpaceRule, message: Message) returns (r: Result<seq<string>, RuleError>)
    ensures r == ExtractValuesSpec(rule.field, message)
  {
    ghost var from := Block(rule.field == FieldName(From), HeaderValues(message.from));
    ghost var to := Block(rule.field == FieldName(To) || rule.field == FieldName(ToCc), HeaderValues(message.to));
    ghost var cc := Block(rule.field == FieldName(Cc) || rule.field == FieldName(ToCc), HeaderValues(message.cc));
    ghost var subject := Block(rule.field == FieldName(Subject), SubjectValues(message.subject));
    var values: seq<string> := [];
    if rule.field == FieldName(From) {
      var next := AppendHeader(values, message.from);
      if next.Err? { return next; }
      values := next.value;
    }
    assert from.Ok? && values == from.value;
    if rule.field == FieldName(To) || rule.field == FieldName(ToCc) {
      var next := AppendHeader(values, message.to);
      if next.Err? { return next; }
      values := next.value;
    } else {
      assert values + [] == values;
    }
    assert to.Ok? && values == from.value + to.value;
    if rule.field == FieldName(Cc) || rule.field == FieldName(ToCc) {
      var next := AppendHeader(values, message.cc);
      if next.Err? { return next; }
      values := next.value;
    } else {
      assert values + [] == values;
    }
    assert cc.Ok? && values == from.value + to.value + cc.value;
    if rule.field == FieldName(Subject) {
      if !message.subject.Value? {
        return Err(FieldUnreadable);
      }
      values := values + [Trim(message.subject.v)];
    } else {
      assert values + [] == values;
    }
    assert subject.Ok? && values == from.value + to.value + cc.value + subject.value;
    r := Ok(values);
  }

  /** SpaceExtractor.getSpaces: the rules in order, each value of each rule in order; a
      matched Move rule returns at once; otherwise the default space closes the list. */
  method GetSpaces(cfg: Config, router: Router, message: Message) returns (result: seq<SpaceInfo>)
    ensures result == GetSpacesSpec(cfg, router, message)
  {
    var rules := cfg.spaceRules;
    var spaces: seq<SpaceInfo> := [];
    var seen: set<string> := {};
    for i := 0 to |rules|
      invariant RulesPass(router, message, rules, EmptyPass) == RulesPass(router, message, rules[i..], Pass(spaces, seen))
    {
      var rule := rules[i];
      assert rules[i..][0] == rule && rules[i..][1..] == rules[i + 1..];
      ghost var start := Pass(spaces, seen);
      var ruleMatched := false;
      var values := ExtractValues(rule, message);
      if values.Ok? {
        var vs := values.value;
        var j := 0;
        while j < |vs|
          invariant 0 <= j <= |vs|
          invariant ProcessValues(router, rule, vs, start, false) == ProcessValues(router, rule, vs[j..], Pass(spaces, seen), ruleMatched)
        {
          assert vs[j..][0] == vs[j] && vs[j..][1..] == vs[j + 1..];
          var condition := EvalCondition(router, rule, vs[j]);
          if condition.Err? {
            break;
          }
          if condition.value {
            ruleMatched := true;
            var key := ExtractSpaceKey(router, rule, vs[j]);
            if key.Err? {
              break;
            }
            var spaceKey := key.value;
            if spaceKey !in seen {
              seen := seen + {spaceKey};
              if !router.spaceExists(spaceKey) {
                j := j + 1;
                continue;
              }
              spaces := spaces + [SpaceInfo(spaceKey, rule.contentType)];
            }
          }
          j := j + 1;
        }
        assert ProcessRule(router, message, rule, start) == (Pass(spaces, seen), ruleMatched);
      }
      if ruleMatched && rule.action == ActionName(Move) {
        return spaces;
      }
    }
    if router.spaceExists(cfg.defaultSpace) {
      spaces := spaces + [SpaceInfo(cfg.defaultSpace, cfg.defaultContentType)];
    }
    result := spaces;
  }
}
