/** What SpaceExtractor.getSpaces computes: the ordered pass over the space rules, with
    the seen-set, the validator and the Move short-circuit, as functions of the message,
    and what is proved about them. */
module SpaceRouting {
  import opened Wrappers
  import opened Strings
  import opened SpaceRuleEnums
  import opened SpaceRuleSpaces
  import opened SpaceRules
  import opened Configuration

  // ---------------------------------------------------------------------------------------
  // The message, the oracles and the result

  /** A header address: an InternetAddress contributes its address, any other kind its
      text form. */
  datatype Address = InternetAddress(address: string) | OtherAddress(text: string)

  /** A javax.mail accessor: a value, null, or a MessagingException. */
  datatype Read<+T> = Value(v: T) | Null | Throws

  /** The header fields a rule can look at. */
  datatype Message = Message(
    from: Read<seq<Address>>,
    to: Read<seq<Address>>,
    cc: Read<seq<Address>>,
    subject: Read<string>)

  /** The first match of a pattern (compiled case-insensitively) in a value: the whole
      match and groups 1..groupCount; or no match; or a failure (the pattern does not
      compile, or the time limit ran out). */
  datatype MatchOutcome = Found(whole: string, captures: seq<string>) | NotFound | Failed

  /** The services the extractor calls: the space key validator (ISpaceKeyValidator) and
      the time-limited regexp search `find(pattern, value)`. */
  datatype Router = Router(spaceExists: string -> bool, find: (string, string) -> MatchOutcome)

  datatype SpaceInfo = SpaceInfo(spaceKey: string, contentType: string)

  /** The exceptions that abandon a rule. */
  datatype RuleError = FieldUnreadable | RegexpFailed | RegexpNoMatch | NoCapturingGroup

  // ---------------------------------------------------------------------------------------
  // extractValues

  function AddressValue(a: Address): string {
    match a
    case InternetAddress(address) => Trim(address)
    case OtherAddress(text) => Trim(text)
  }

  /** The trimmed values of one address header. */
  function AddressValues(addresses: seq<Address>): seq<string> {
    seq(|addresses|, i requires 0 <= i < |addresses| => AddressValue(addresses[i]))
  }

  /** A null header contributes nothing; a failing one abandons the rule. */
  function HeaderValues(header: Read<seq<Address>>): Result<seq<string>, RuleError> {
    match header
    case Value(addresses) => Ok(AddressValues(addresses))
    case Null => Ok([])
    case Throws => Err(FieldUnreadable)
  }

  function SubjectValues(subject: Read<string>): Result<seq<string>, RuleError> {
    match subject
    case Value(s) => Ok([Trim(s)])
    case _ => Err(FieldUnreadable)
  }

  /** One guarded block of extractValues: the header's values when the guard holds. */
  function Block(guard: bool, values: Result<seq<string>, RuleError>): Result<seq<string>, RuleError> {
    if guard then values else Ok([])
  }

  /** SpaceExtractor.extractValues: the four blocks run in order, each guarded by the
      rule's field; the first failing block abandons the rest. */
  function ExtractValuesSpec(field: string, message: Message): Result<seq<string>, RuleError> {
    var from := Block(field == FieldName(From), HeaderValues(message.from));
    var to := Block(field == FieldName(To) || field == FieldName(ToCc), HeaderValues(message.to));
    var cc := Block(field == FieldName(Cc) || field == FieldName(ToCc), HeaderValues(message.cc));
    var subject := Block(field == FieldName(Subject), SubjectValues(message.subject));
    if from.Err? then Err(from.error)
    else if to.Err? then Err(to.error)
    else if cc.Err? then Err(cc.error)
    else if subject.Err? then Err(subject.error)
    else Ok(from.value + to.value + cc.value + subject.value)
  }

  predicate IsTrimmed(s: string) {
    s != [] ==> !IsTrimmable(s[0]) && !IsTrimmable(s[|s| - 1])
  }

  /** A value is trimmed exactly when trimming it changes nothing. */
  lemma TrimmedIffOwnTrim(s: string)
    ensures IsTrimmed(s) <==> Trim(s) == s
  {
    if IsTrimmed(s) && s != [] {
      assert SkipLeading(s, 0) == 0;
      assert SkipTrailing(s, 0, |s|) == |s|;
    }
  }

  lemma FieldNamesDistinct()
    ensures forall f, g :: FieldName(f) == FieldName(g) ==> f == g
  {
    forall f, g | FieldName(f) == FieldName(g) ensures f == g {
      assert ParseField(FieldName(f)) == Some(f);
      assert ParseField(FieldName(g)) == Some(g);
    }
  }

  /** A single-header field reads that header alone; an unknown field has no values. */
  lemma ValuesOfOneHeader(field: string, message: Message)
    ensures ParseField(field).None? ==> ExtractValuesSpec(field, message) == Ok([])
    ensures field == FieldName(From) ==> ExtractValuesSpec(field, message) == HeaderValues(message.from)
    ensures field == FieldName(To) ==> ExtractValuesSpec(field, message) == HeaderValues(message.to)
    ensures field == FieldName(Cc) ==> ExtractValuesSpec(field, message) == HeaderValues(message.cc)
  {
    FieldNamesDistinct();
    var e: seq<string> := [];
    if ParseField(field).None? {
      assert field != FieldName(From) && field != FieldName(To) && field != FieldName(Cc);
      assert field != FieldName(ToCc) && field != FieldName(Subject);
      assert e + e + e + e == e;
    } else if field == FieldName(From) {
      var h := HeaderValues(message.from);
      if h.Ok? { assert h.value + e + e + e == h.value; }
    } else if field == FieldName(To) {
      var h := HeaderValues(message.to);
      if h.Ok? { assert e + h.value + e + e == h.value; }
    } else if field == FieldName(Cc) {
      var h := HeaderValues(message.cc);
      if h.Ok? { assert e + e + h.value + e == h.value; }
    }
  }

  /** To/Cc gives the To values followed by the Cc values, duplicates kept; either header
      failing abandons the rule. */
  lemma ValuesOfToCc(message: Message)
    ensures message.to.Value? && message.cc.Value? ==>
      ExtractValuesSpec(FieldName(ToCc), message) == Ok(AddressValues(message.to.v) + AddressValues(message.cc.v))
    ensures message.to.Throws? || message.cc.Throws? ==> ExtractValuesSpec(FieldName(ToCc), message) == Err(FieldUnreadable)
  {
    ToCcGuards();
    var e: seq<string> := [];
    var f := FieldName(ToCc);
    var from := Block(f == FieldName(From), HeaderValues(message.from));
    var to := Block(f == FieldName(To) || f == FieldName(ToCc), HeaderValues(message.to));
    var cc := Block(f == FieldName(Cc) || f == FieldName(ToCc), HeaderValues(message.cc));
    var subject := Block(f == FieldName(Subject), SubjectValues(message.subject));
    assert from == Ok(e) && subject == Ok(e);
    assert to == HeaderValues(message.to) && cc == HeaderValues(message.cc);
    assert ExtractValuesSpec(f, message) ==
      if to.Err? then Err(to.error) else if cc.Err? then Err(cc.error) else Ok(to.value + cc.value)
    by {
      if to.Ok? && cc.Ok? {
        assert e + to.value + cc.value + e == to.value + cc.value;
      }
    }
  }

  lemma ToCcGuards()
    ensures FieldName(ToCc) != FieldName(From) && FieldName(ToCc) != FieldName(Subject)
  {
    assert |FieldName(ToCc)| == 5 && |FieldName(From)| == 4 && |FieldName(Subject)| == 7;
  }

  /** The subject gives one trimmed value; an absent subject abandons the rule. */
  lemma ValuesOfSubject(message: Message)
    ensures ExtractValuesSpec(FieldName(Subject), message).Ok? <==> message.subject.Value?
    ensures message.subject.Value? ==> ExtractValuesSpec(FieldName(Subject), message) == Ok([Trim(message.subject.v)])
  {
    assert |FieldName(Subject)| == 7;
    var e: seq<string> := [];
    if message.subject.Value? {
      var v := [Trim(message.subject.v)];
      assert e + e + e + v == v;
    }
  }

  predicate AllTrimmed(values: seq<string>) {
    forall i :: 0 <= i < |values| ==> IsTrimmed(values[i])
  }

  lemma BlockTrimmed(guard: bool, values: Result<seq<string>, RuleError>)
    requires values.Ok? ==> AllTrimmed(values.value)
    ensures Block(guard, values).Ok? ==> AllTrimmed(Block(guard, values).value)
  {
  }

  lemma AllTrimmedAppend(a: seq<string>, b: seq<string>)
    requires AllTrimmed(a) && AllTrimmed(b)
    ensures AllTrimmed(a + b)
  {
    forall i | 0 <= i < |a + b| ensures IsTrimmed((a + b)[i]) {
      if i >= |a| { assert (a + b)[i] == b[i - |a|]; }
    }
  }

  lemma HeaderValuesTrimmed(header: Read<seq<Address>>)
    ensures HeaderValues(header).Ok? ==> AllTrimmed(HeaderValues(header).value)
  {
    if header.Value? {
      var vs := AddressValues(header.v);
      forall i | 0 <= i < |vs| ensures IsTrimmed(vs[i]) {
        assert vs[i] == AddressValue(header.v[i]);
      }
    }
  }

  /** Every extracted value is trimmed. */
  lemma ValuesAreTrimmed(field: string, message: Message)
    ensures var r := ExtractValuesSpec(field, message);
      r.Ok? ==> AllTrimmed(r.value)
  {
    HeaderValuesTrimmed(message.from);
    HeaderValuesTrimmed(message.to);
    HeaderValuesTrimmed(message.cc);
    var from := Block(field == FieldName(From), HeaderValues(message.from));
    var to := Block(field == FieldName(To) || field == FieldName(ToCc), HeaderValues(message.to));
    var cc := Block(field == FieldName(Cc) || field == FieldName(ToCc), HeaderValues(message.cc));
    var subject := Block(field == FieldName(Subject), SubjectValues(message.subject));
    BlockTrimmed(field == FieldName(From), HeaderValues(message.from));
    BlockTrimmed(field == FieldName(To) || field == FieldName(ToCc), HeaderValues(message.to));
    BlockTrimmed(field == FieldName(Cc) || field == FieldName(ToCc), HeaderValues(message.cc));
    BlockTrimmed(field == FieldName(Subject), SubjectValues(message.subject));
    if from.Ok? && to.Ok? && cc.Ok? && subject.Ok? {
      AllTrimmedAppend(from.value, to.value);
      AllTrimmedAppend(from.value + to.value, cc.value);
      AllTrimmedAppend(from.value + to.value + cc.value, subject.value);
    }
  }

  // ---------------------------------------------------------------------------------------
  // evalCondition and extractSpaceKey

  /** SpaceExtractor.evalCondition: whether `value` fulfils the rule's condition. */
  function EvalCondition(router: Router, rule: SpaceRule, value: string): (r: Result<bool, RuleError>)
    ensures ParseOperator(rule.operator).None? ==> r == Ok(false)
    ensures r.Err? <==> rule.operator == OperatorName(Regexp) && router.find(rule.value, value).Failed?
  {
    if rule.operator == OperatorName(Is) then Ok(EqualsIgnoreCase(value, rule.value))
    else if rule.operator == OperatorName(Contains) then Ok(ContainsIgnoreCase(value, rule.value))
    else if rule.operator == OperatorName(StartsWith) then Ok(StartsWithIgnoreCase(value, rule.value))
    else if rule.operator == OperatorName(EndsWith) then Ok(EndsWithIgnoreCase(value, rule.value))
    else if rule.operator == OperatorName(Regexp) then
      match router.find(rule.value, value)
      case Found(_, _) => Ok(true)
      case NotFound => Ok(false)
      case Failed => Err(RegexpFailed)
    else Ok(false)
  }

  /** The four string operators ignore case on both sides: lower-casing the value and the
      rule's value changes nothing. */
  lemma ConditionIgnoresCase(router: Router, rule: SpaceRule, value: string)
    requires rule.operator != OperatorName(Regexp)
    ensures EvalCondition(router, rule, value) == EvalCondition(router, rule.(value := ToLower(rule.value)), ToLower(value))
  {
    ToLowerIdempotent(value);
    ToLowerIdempotent(rule.value);
  }

  /** SpaceExtractor.extractSpaceKey: the rule's space, unless it is a sentinel on a
      regexp rule; then the whole first match or its first group. */
  function ExtractSpaceKey(router: Router, rule: SpaceRule, value: string): (r: Result<string, RuleError>)
    ensures !(rule.operator == OperatorName(Regexp) && IsSentinel(rule.space)) ==> r == Ok(rule.space)
  {
    if rule.operator == OperatorName(Regexp) && (rule.space == CapturingGroup0 || rule.space == CapturingGroup1) then
      match router.find(rule.value, value)
      case Failed => Err(RegexpFailed)
      case NotFound => Err(RegexpNoMatch)
      case Found(whole, captures) =>
        if rule.space == CapturingGroup0 then Ok(whole)
        else if |captures| < 1 then Err(NoCapturingGroup)
        else Ok(captures[0])
    else Ok(rule.space)
  }

  /** On a regexp rule whose condition held, the key is read from the same match: group 0
      always succeeds, group 1 fails exactly when the pattern has no group. */
  lemma KeyFromMatchedRegexp(router: Router, rule: SpaceRule, value: string)
    requires rule.operator == OperatorName(Regexp) && IsSentinel(rule.space)
    requires EvalCondition(router, rule, value) == Ok(true)
    ensures var m := router.find(rule.value, value);
      && m.Found?
      && (rule.space == CapturingGroup0 ==> ExtractSpaceKey(router, rule, value) == Ok(m.whole))
      && (rule.space == CapturingGroup1 && m.captures != [] ==> ExtractSpaceKey(router, rule, value) == Ok(m.captures[0]))
      && (rule.space == CapturingGroup1 && m.captures == [] ==> ExtractSpaceKey(router, rule, value) == Err(NoCapturingGroup))
  {
    SentinelsDistinct();
  }

  // ---------------------------------------------------------------------------------------
  // getSpaces

  /** The state of the pass: the spaces found so far and the keys already seen. */
  datatype Pass = Pass(spaces: seq<SpaceInfo>, seen: set<string>)

  function Keys(spaces: seq<SpaceInfo>): seq<string> {
    seq(|spaces|, i requires 0 <= i < |spaces| => spaces[i].spaceKey)
  }

  /** One computed key: a key seen before is skipped; otherwise it is marked seen and,
      if the validator knows it, appended. */
  function AddKey(router: Router, st: Pass, key: string, contentType: string): Pass {
    if key in st.seen then st
    else if !router.spaceExists(key) then Pass(st.spaces, st.seen + {key})
    else Pass(st.spaces + [SpaceInfo(key, contentType)], st.seen + {key})
  }

  /** The loop over one rule's values, from state `st` with the rule's matched flag so far.
      An exception abandons the remaining values; the flag is set before the key is
      extracted, so it survives a failing extraction. */
  function ProcessValues(router: Router, rule: SpaceRule, values: seq<string>, st: Pass, matched: bool): (Pass, bool) {
    if values == [] then (st, matched)
    else
      match EvalCondition(router, rule, values[0])
      case Err(_) => (st, matched)
      case Ok(false) => ProcessValues(router, rule, values[1..], st, matched)
      case Ok(true) =>
        match ExtractSpaceKey(router, rule, values[0])
        case Err(_) => (st, true)
        case Ok(key) => ProcessValues(router, rule, values[1..], AddKey(router, st, key, rule.contentType), true)
  }

  /** One rule: its values, then the loop over them; whether the rule matched. */
  function ProcessRule(router: Router, message: Message, rule: SpaceRule, st: Pass): (Pass, bool) {
    match ExtractValuesSpec(rule.field, message)
    case Err(_) => (st, false)
    case Ok(values) => ProcessValues(router, rule, values, st, false)
  }

  predicate StopsPass(rule: SpaceRule, matched: bool) {
    matched && rule.action == ActionName(Move)
  }

  /** The loop over the rules from state `st`; the flag tells whether a Move rule stopped it. */
  function RulesPass(router: Router, message: Message, rules: seq<SpaceRule>, st: Pass): (Pass, bool) {
    if rules == [] then (st, false)
    else
      var (next, matched) := ProcessRule(router, message, rules[0], st);
      if StopsPass(rules[0], matched) then (next, true)
      else RulesPass(router, message, rules[1..], next)
  }

  const EmptyPass := Pass([], {})

  /** SpaceExtractor.getSpaces. */
  function GetSpacesSpec(cfg: Config, router: Router, message: Message): seq<SpaceInfo> {
    var (st, stopped) := RulesPass(router, message, cfg.spaceRules, EmptyPass);
    if stopped then st.spaces
    else if router.spaceExists(cfg.defaultSpace) then st.spaces + [SpaceInfo(cfg.defaultSpace, cfg.defaultContentType)]
    else st.spaces
  }

  // ---------------------------------------------------------------------------------------
  // Properties of the pass

  /** What holds of the pass at every step: rule keys are distinct, seen and known to the
      validator. */
  predicate PassInv(router: Router, st: Pass) {
    && (forall i, j :: 0 <= i < j < |st.spaces| ==> st.spaces[i].spaceKey != st.spaces[j].spaceKey)
    && (forall i :: 0 <= i < |st.spaces| ==> st.spaces[i].spaceKey in st.seen && router.spaceExists(st.spaces[i].spaceKey))
  }

  /** How a later state relates to an earlier one: spaces are only appended, seen keys stay
      seen, and whether a seen key is among the spaces never changes. */
  predicate Extends(st: Pass, st': Pass) {
    && IsPrefix(st.spaces, st'.spaces)
    && st.seen <= st'.seen
    && (forall k :: k in st.seen ==> (k in Keys(st'.spaces) <==> k in Keys(st.spaces)))
  }

  lemma ExtendsTransitive(a: Pass, b: Pass, c: Pass)
    requires Extends(a, b) && Extends(b, c)
    ensures Extends(a, c)
  {
    assert c.spaces[..|b.spaces|][..|a.spaces|] == c.spaces[..|a.spaces|];
  }

  lemma {:induction false} KeysAppend(spaces: seq<SpaceInfo>, s: SpaceInfo)
    ensures Keys(spaces + [s]) == Keys(spaces) + [s.spaceKey]
  {
  }

  /** A key is marked seen whatever the validator says, and appended only when the
      validator knows it and it was not seen before. */
  lemma AddKeyStep(router: Router, st: Pass, key: string, contentType: string)
    requires PassInv(router, st)
    ensures var st' := AddKey(router, st, key, contentType);
      && PassInv(router, st') && Extends(st, st')
      && key in st'.seen
      && (key in Keys(st'.spaces) <==> key in Keys(st.spaces) || (key !in st.seen && router.spaceExists(key)))
  {
    var st' := AddKey(router, st, key, contentType);
    if key !in st.seen && router.spaceExists(key) {
      KeysAppend(st.spaces, SpaceInfo(key, contentType));
      assert st'.spaces[..|st.spaces|] == st.spaces;
      forall i | 0 <= i < |st.spaces| ensures st.spaces[i].spaceKey != key {
        assert st.spaces[i].spaceKey in st.seen;
      }
      forall k | k in st.seen ensures k in Keys(st'.spaces) <==> k in Keys(st.spaces) {
        assert k != key;
      }
    } else {
      assert st'.spaces[..|st.spaces|] == st.spaces;
    }
  }

  lemma {:induction false} ProcessValuesStep(router: Router, rule: SpaceRule, values: seq<string>, st: Pass, matched: bool)
    requires PassInv(router, st)
    ensures var (st', matched') := ProcessValues(router, rule, values, st, matched);
      PassInv(router, st') && Extends(st, st') && (matched ==> matched')
    decreases |values|
  {
    if values == [] {
      assert st.spaces[..|st.spaces|] == st.spaces;
    } else {
      match EvalCondition(router, rule, values[0])
      case Err(_) =>
        assert st.spaces[..|st.spaces|] == st.spaces;
      case Ok(false) =>
        ProcessValuesStep(router, rule, values[1..], st, matched);
      case Ok(true) =>
        match ExtractSpaceKey(router, rule, values[0])
        case Err(_) =>
          assert st.spaces[..|st.spaces|] == st.spaces;
        case Ok(key) =>
          var mid := AddKey(router, st, key, rule.contentType);
          AddKeyStep(router, st, key, rule.contentType);
          ProcessValuesStep(router, rule, values[1..], mid, true);
          ExtendsTransitive(st, mid, ProcessValues(router, rule, values[1..], mid, true).0);
    }
  }

  lemma ProcessRuleStep(router: Router, message: Message, rule: SpaceRule, st: Pass)
    requires PassInv(router, st)
    ensures var (st', _) := ProcessRule(router, message, rule, st);
      PassInv(router, st') && Extends(st, st')
  {
    match ExtractValuesSpec(rule.field, message)
    case Err(_) =>
      assert st.spaces[..|st.spaces|] == st.spaces;
    case Ok(values) =>
      ProcessValuesStep(router, rule, values, st, false);
  }

  /** The whole rule pass keeps the invariant and only extends its start state. */
  lemma {:induction false} RulesPassStep(router: Router, message: Message, rules: seq<SpaceRule>, st: Pass)
    requires PassInv(router, st)
    ensures var (st', _) := RulesPass(router, message, rules, st);
      PassInv(router, st') && Extends(st, st')
    decreases |rules|
  {
    if rules == [] {
      assert st.spaces[..|st.spaces|] == st.spaces;
    } else {
      var (next, matched) := ProcessRule(router, message, rules[0], st);
      ProcessRuleStep(router, message, rules[0], st);
      if !StopsPass(rules[0], matched) {
        RulesPassStep(router, message, rules[1..], next);
        ExtendsTransitive(st, next, RulesPass(router, message, rules[1..], next).0);
      }
    }
  }

  /** A key the validator rejected is seen, so no later rule adds it. */
  lemma {:induction false} RejectedKeyNeverAdded(router: Router, message: Message, rules: seq<SpaceRule>, st: Pass, key: string)
    requires PassInv(router, st)
    requires key in st.seen && key !in Keys(st.spaces)
    ensures key !in Keys(RulesPass(router, message, rules, st).0.spaces)
  {
    RulesPassStep(router, message, rules, st);
  }

  /** Once a Move rule has stopped the pass, rules after it change nothing. */
  lemma {:induction false} StoppedPassIgnoresLaterRules(router: Router, message: Message, rules: seq<SpaceRule>,
                                                        later: seq<SpaceRule>, st: Pass)
    requires RulesPass(router, message, rules, st).1
    ensures RulesPass(router, message, rules + later, st) == RulesPass(router, message, rules, st)
    decreases |rules|
  {
    assert rules != [];
    assert (rules + later)[0] == rules[0];
    assert (rules + later)[1..] == rules[1..] + later;
    var (next, matched) := ProcessRule(router, message, rules[0], st);
    if !StopsPass(rules[0], matched) {
      StoppedPassIgnoresLaterRules(router, message, rules[1..], later, next);
    }
  }

  /** Some value satisfies the rule's condition, and every value before it evaluated to
      false: the loop over the values reaches a match before an evaluation fails. */
  predicate MatchesBeforeFailure(router: Router, rule: SpaceRule, values: seq<string>) {
    exists j :: 0 <= j < |values| && EvalCondition(router, rule, values[j]) == Ok(true) &&
      forall k :: 0 <= k < j ==> EvalCondition(router, rule, values[k]) == Ok(false)
  }

  lemma MatchesShift(router: Router, rule: SpaceRule, values: seq<string>)
    requires values != [] && EvalCondition(router, rule, values[0]) == Ok(false)
    ensures MatchesBeforeFailure(router, rule, values) <==> MatchesBeforeFailure(router, rule, values[1..])
  {
    var tail := values[1..];
    if MatchesBeforeFailure(router, rule, values) {
      var j :| 0 <= j < |values| && EvalCondition(router, rule, values[j]) == Ok(true) &&
        forall k :: 0 <= k < j ==> EvalCondition(router, rule, values[k]) == Ok(false);
      assert j != 0;
      assert tail[j - 1] == values[j];
      assert forall k :: 0 <= k < j - 1 ==> tail[k] == values[k + 1];
    }
    if MatchesBeforeFailure(router, rule, tail) {
      var j :| 0 <= j < |tail| && EvalCondition(router, rule, tail[j]) == Ok(true) &&
        forall k :: 0 <= k < j ==> EvalCondition(router, rule, tail[k]) == Ok(false);
      assert values[j + 1] == tail[j];
      forall k | 0 <= k < j + 1 ensures EvalCondition(router, rule, values[k]) == Ok(false) {
        if k > 0 {
          assert values[k] == tail[k - 1];
        }
      }
    }
  }

  /** The rule's matched flag after the loop over its values: set exactly when it was set
      before or some value matches before an evaluation fails. A failing key extraction
      does not clear it. */
  lemma {:induction false} ProcessValuesMatched(router: Router, rule: SpaceRule, values: seq<string>, st: Pass, matched: bool)
    ensures ProcessValues(router, rule, values, st, matched).1 <==> matched || MatchesBeforeFailure(router, rule, values)
    decreases |values|
  {
    if values != [] {
      match EvalCondition(router, rule, values[0])
      case Err(_) =>
        forall j | 0 <= j < |values| && EvalCondition(router, rule, values[j]) == Ok(true)
          ensures !(forall k :: 0 <= k < j ==> EvalCondition(router, rule, values[k]) == Ok(false))
        {
          assert j != 0;
          assert EvalCondition(router, rule, values[0]) != Ok(false);
        }
      case Ok(false) =>
        MatchesShift(router, rule, values);
        ProcessValuesMatched(router, rule, values[1..], st, matched);
      case Ok(true) =>
        assert EvalCondition(router, rule, values[0]) == Ok(true);
        match ExtractSpaceKey(router, rule, values[0])
        case Err(_) =>
        case Ok(key) =>
          ProcessValuesMatched(router, rule, values[1..], AddKey(router, st, key, rule.contentType), true);
    }
  }

  /** Rules after a prefix that did not stop the pass run from the state the prefix left. */
  lemma {:induction false} RulesPassAppend(router: Router, message: Message, prefix: seq<SpaceRule>, rest: seq<SpaceRule>, st: Pass)
    requires !RulesPass(router, message, prefix, st).1
    ensures RulesPass(router, message, prefix + rest, st) == RulesPass(router, message, rest, RulesPass(router, message, prefix, st).0)
    decreases |prefix|
  {
    if prefix == [] {
      assert prefix + rest == rest;
    } else {
      assert (prefix + rest)[0] == prefix[0];
      assert (prefix + rest)[1..] == prefix[1..] + rest;
      var (next, matched) := ProcessRule(router, message, prefix[0], st);
      RulesPassAppend(router, message, prefix[1..], rest, next);
    }
  }

  /** The Move short-cut: a Move rule reached by the pass, one of whose values matches
      before an evaluation fails, ends the pass with that rule, whatever its key
      extraction gives and wherever it stands among the rules. */
  lemma MoveRuleStopsPass(router: Router, message: Message, rules: seq<SpaceRule>, i: nat, st: Pass, values: seq<string>)
    requires i < |rules| && rules[i].action == ActionName(Move)
    requires ExtractValuesSpec(rules[i].field, message) == Ok(values)
    requires MatchesBeforeFailure(router, rules[i], values)
    requires !RulesPass(router, message, rules[..i], st).1
    ensures RulesPass(router, message, rules, st) ==
      (ProcessRule(router, message, rules[i], RulesPass(router, message, rules[..i], st).0).0, true)
  {
    var mid := RulesPass(router, message, rules[..i], st).0;
    assert rules == rules[..i] + rules[i..];
    RulesPassAppend(router, message, rules[..i], rules[i..], st);
    ProcessValuesMatched(router, rules[i], values, mid, false);
    assert rules[i..][0] == rules[i];
  }

  /** getSpaces with such a Move rule returns what the pass found up to and including it,
      without the default space. */
  lemma MoveRuleEndsGetSpaces(cfg: Config, router: Router, message: Message, i: nat, values: seq<string>)
    requires i < |cfg.spaceRules| && cfg.spaceRules[i].action == ActionName(Move)
    requires ExtractValuesSpec(cfg.spaceRules[i].field, message) == Ok(values)
    requires MatchesBeforeFailure(router, cfg.spaceRules[i], values)
    requires !RulesPass(router, message, cfg.spaceRules[..i], EmptyPass).1
    ensures GetSpacesSpec(cfg, router, message) ==
      ProcessRule(router, message, cfg.spaceRules[i], RulesPass(router, message, cfg.spaceRules[..i], EmptyPass).0).0.spaces
  {
    MoveRuleStopsPass(router, message, cfg.spaceRules, i, EmptyPass, values);
  }

  /** A Move rule whose condition holds on its first value stops the pass even when the
      key cannot be extracted: the other values, the later rules and the default are
      skipped. */
  lemma MoveRuleStopsEvenWhenKeyFails(cfg: Config, router: Router, message: Message, values: seq<string>)
    requires cfg.spaceRules != [] && cfg.spaceRules[0].action == ActionName(Move)
    requires ExtractValuesSpec(cfg.spaceRules[0].field, message) == Ok(values) && values != []
    requires EvalCondition(router, cfg.spaceRules[0], values[0]) == Ok(true)
    requires ExtractSpaceKey(router, cfg.spaceRules[0], values[0]).Err?
    ensures GetSpacesSpec(cfg, router, message) == []
  {
  }

  /** getSpaces: the rule spaces come first, in first-match order, with distinct keys the
      validator knows; the default space is appended last exactly when no Move rule
      stopped the pass and the validator knows it. */
  lemma GetSpacesShape(cfg: Config, router: Router, message: Message)
    ensures var (st, stopped) := RulesPass(router, message, cfg.spaceRules, EmptyPass);
      var r := GetSpacesSpec(cfg, router, message);
      && IsPrefix(st.spaces, r)
      && (forall i, j :: 0 <= i < j < |st.spaces| ==> r[i].spaceKey != r[j].spaceKey)
      && (forall i :: 0 <= i < |r| ==> router.spaceExists(r[i].spaceKey))
      && (r == st.spaces + [SpaceInfo(cfg.defaultSpace, cfg.defaultContentType)] <==>
            !stopped && router.spaceExists(cfg.defaultSpace))
      && (r != st.spaces + [SpaceInfo(cfg.defaultSpace, cfg.defaultContentType)] ==> r == st.spaces)
  {
    RulesPassStep(router, message, cfg.spaceRules, EmptyPass);
    var (st, stopped) := RulesPass(router, message, cfg.spaceRules, EmptyPass);
    var r := GetSpacesSpec(cfg, router, message);
    assert r[..|st.spaces|] == st.spaces;
    if r == st.spaces + [SpaceInfo(cfg.defaultSpace, cfg.defaultContentType)] {
      assert |r| != |st.spaces|;
    }
  }

  /** With no rules, the result is the default space alone, when the validator knows it. */
  lemma NoRulesGivesDefault(cfg: Config, router: Router, message: Message)
    requires cfg.spaceRules == []
    ensures router.spaceExists(cfg.defaultSpace) ==>
      GetSpacesSpec(cfg, router, message) == [SpaceInfo(cfg.defaultSpace, cfg.defaultContentType)]
    ensures !router.spaceExists(cfg.defaultSpace) ==> GetSpacesSpec(cfg, router, message) == []
  {
  }

  /** A rule with a literal space whose condition holds on its only value contributes that
      space, when the validator knows it and it was not seen before. */
  lemma LiteralRuleAdds(router: Router, message: Message, rule: SpaceRule, value: string, st: Pass)
    requires ExtractValuesSpec(rule.field, message) == Ok([value])
    requires EvalCondition(router, rule, value) == Ok(true)
    requires !IsSentinel(rule.space) && router.spaceExists(rule.space) && rule.space !in st.seen
    ensures ProcessRule(router, message, rule, st) ==
      (Pass(st.spaces + [SpaceInfo(rule.space, rule.contentType)], st.seen + {rule.space}), true)
  {
    assert [value][1..] == [];
    assert ExtractSpaceKey(router, rule, value) == Ok(rule.space);
    var st' := AddKey(router, st, rule.space, rule.contentType);
    assert st' == Pass(st.spaces + [SpaceInfo(rule.space, rule.contentType)], st.seen + {rule.space});
    assert ProcessValues(router, rule, [], st', true) == (st', true);
    assert ProcessValues(router, rule, [value], st, false) == ProcessValues(router, rule, [], st', true);
  }

  /** Two rules that both match, the second a Move rule: the pass ends after the second. */
  lemma {:induction false} SecondRuleStops(router: Router, message: Message, rules: seq<SpaceRule>, st1: Pass, st2: Pass)
    requires |rules| >= 2
    requires ProcessRule(router, message, rules[0], EmptyPass) == (st1, true) && !StopsPass(rules[0], true)
    requires ProcessRule(router, message, rules[1], st1) == (st2, true) && StopsPass(rules[1], true)
    ensures RulesPass(router, message, rules, EmptyPass) == (st2, true)
  {
    assert rules[1..][0] == rules[1];
  }

  /** Copy, then Move: both spaces are listed, and nothing after the Move rule (later rules,
      the default space) is looked at. */
  lemma MoveShortCircuitExample(cfg: Config, router: Router, message: Message, v1: string, v2: string)
    requires |cfg.spaceRules| >= 2
    requires var r1, r2 := cfg.spaceRules[0], cfg.spaceRules[1];
      && r1.action == ActionName(Copy) && r2.action == ActionName(Move)
      && ExtractValuesSpec(r1.field, message) == Ok([v1]) && ExtractValuesSpec(r2.field, message) == Ok([v2])
      && EvalCondition(router, r1, v1) == Ok(true) && EvalCondition(router, r2, v2) == Ok(true)
      && !IsSentinel(r1.space) && !IsSentinel(r2.space) && r1.space != r2.space
      && router.spaceExists(r1.space) && router.spaceExists(r2.space)
    ensures GetSpacesSpec(cfg, router, message) ==
      [SpaceInfo(cfg.spaceRules[0].space, cfg.spaceRules[0].contentType),
       SpaceInfo(cfg.spaceRules[1].space, cfg.spaceRules[1].contentType)]
  {
    var rules := cfg.spaceRules;
    var r1, r2 := rules[0], rules[1];
    assert ActionName(Copy)[0] != ActionName(Move)[0];
    LiteralRuleAdds(router, message, r1, v1, EmptyPass);
    var st1 := Pass(EmptyPass.spaces + [SpaceInfo(r1.space, r1.contentType)], EmptyPass.seen + {r1.space});
    LiteralRuleAdds(router, message, r2, v2, st1);
    var st2 := Pass(st1.spaces + [SpaceInfo(r2.space, r2.contentType)], st1.seen + {r2.space});
    assert !StopsPass(r1, true) && StopsPass(r2, true);
    SecondRuleStops(router, message, rules, st1, st2);
    assert st1.spaces == [SpaceInfo(r1.space, r1.contentType)];
  }

  /** The default space is not checked against the seen keys: when a rule already listed
      it, it is listed twice. */
  lemma DefaultNotDeduplicated(cfg: Config, router: Router, message: Message, value: string)
    requires |cfg.spaceRules| == 1
    requires var r := cfg.spaceRules[0];
      && r.action == ActionName(Copy) && r.space == cfg.defaultSpace
      && ExtractValuesSpec(r.field, message) == Ok([value]) && EvalCondition(router, r, value) == Ok(true)
      && !IsSentinel(r.space) && router.spaceExists(r.space)
    ensures GetSpacesSpec(cfg, router, message) ==
      [SpaceInfo(cfg.defaultSpace, cfg.spaceRules[0].contentType), SpaceInfo(cfg.defaultSpace, cfg.defaultContentType)]
  {
    var r := cfg.spaceRules[0];
    LiteralRuleAdds(router, message, r, value, EmptyPass);
    var st1 := Pass(EmptyPass.spaces + [SpaceInfo(r.space, r.contentType)], EmptyPass.seen + {r.space});
    assert ActionName(Copy)[0] != ActionName(Move)[0];
    assert !StopsPass(r, true);
    OnlyRuleContinues(router, message, cfg.spaceRules, st1);
    assert st1.spaces == [SpaceInfo(r.space, r.contentType)];
  }

  lemma {:induction false} OnlyRuleContinues(router: Router, message: Message, rules: seq<SpaceRule>, st1: Pass)
    requires |rules| == 1
    requires ProcessRule(router, message, rules[0], EmptyPass) == (st1, true) && !StopsPass(rules[0], true)
    ensures RulesPass(router, message, rules, EmptyPass) == (st1, false)
  {
    assert rules[1..] == [];
  }
}
