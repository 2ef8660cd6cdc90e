/** SpaceRule: one routing rule, stored as the strings the configuration holds,
    and its validation (a chain of guard checks, first failure wins). */
module SpaceRules {
  import opened Wrappers
  import opened SpaceRuleEnums
  import opened SpaceRuleSpaces

  datatype SpaceRule = SpaceRule(
    field: string,        // a Field name
    operator: string,     // an Operator name
    value: string,        // the value (or regexp) to match against
    action: string,       // an Action name
    space: string,        // a space key or a capture-group sentinel
    contentType: string)  // a ContentType name

  /** SpaceRuleValidationException, by the field that caused it. */
  datatype ValidationError =
    | InvalidField | InvalidOperator | InvalidAction | InvalidSpace | InvalidContentType | InvalidRegexp

  datatype Validation = Valid | Invalid(error: ValidationError)

  /** One guard of the chain: whether it holds, and the error it raises otherwise. */
  datatype Check = Check(holds: bool, error: ValidationError)

  /** The guards of SpaceRule.validate in the order they run. `compiles` stands for
      Pattern.compile not throwing PatternSyntaxException. */
  function Checks(rule: SpaceRule, spaceExists: string -> bool, compiles: string -> bool): (cs: seq<Check>)
    ensures |cs| == 6
  {
    [ Check(ParseField(rule.field).Some?, InvalidField),
      Check(ParseOperator(rule.operator).Some?, InvalidOperator),
      Check(ParseAction(rule.action).Some?, InvalidAction),
      Check(ValidSpace(rule.operator, spaceExists, rule.space), InvalidSpace),
      Check(ParseContentType(rule.contentType).Some?, InvalidContentType),
      Check(rule.operator != OperatorName(Regexp) || compiles(rule.value), InvalidRegexp) ]
  }

  /** The outcome of running guards in order: the error of the first one that fails. */
  function FirstFailure(cs: seq<Check>): (r: Validation)
    ensures r.Valid? <==> forall i :: 0 <= i < |cs| ==> cs[i].holds
    ensures r.Invalid? ==> exists i :: 0 <= i < |cs| && !cs[i].holds && cs[i].error == r.error &&
                                       forall j :: 0 <= j < i ==> cs[j].holds
  {
    if cs == [] then Valid
    else if !cs[0].holds then Invalid(cs[0].error)
    else
      var r := FirstFailure(cs[1..]);
      assert forall i :: 1 <= i < |cs| ==> cs[i] == cs[1..][i - 1];
      r
  }

  /** SpaceRule.validate: field, operator, action, space, content type, then (for
      regexp rules only) that the pattern compiles. */
  function Validate(rule: SpaceRule, spaceExists: string -> bool, compiles: string -> bool): (r: Validation)
  {
    if ParseField(rule.field).None? then Invalid(InvalidField)
    else if ParseOperator(rule.operator).None? then Invalid(InvalidOperator)
    else if ParseAction(rule.action).None? then Invalid(InvalidAction)
    else if !ValidSpace(rule.operator, spaceExists, rule.space) then Invalid(InvalidSpace)
    else if ParseContentType(rule.contentType).None? then Invalid(InvalidContentType)
    else if rule.operator == OperatorName(Regexp) && !compiles(rule.value) then Invalid(InvalidRegexp)
    else Valid
  }

  /** Validate is the ordered guard chain: its outcome is the first failing check of Checks. */
  lemma {:induction false} ValidateRunsChecksInOrder(rule: SpaceRule, spaceExists: string -> bool, compiles: string -> bool)
    ensures Validate(rule, spaceExists, compiles) == FirstFailure(Checks(rule, spaceExists, compiles))
  {
    var cs := Checks(rule, spaceExists, compiles);
    assert cs[5..][1..] == [];
    assert cs[4..][1..] == cs[5..];
    assert cs[3..][1..] == cs[4..];
    assert cs[2..][1..] == cs[3..];
    assert cs[1..][1..] == cs[2..];
    assert FirstFailure(cs[4..]) == (if !cs[4].holds then Invalid(cs[4].error) else FirstFailure(cs[5..]));
    assert FirstFailure(cs[3..]) == (if !cs[3].holds then Invalid(cs[3].error) else FirstFailure(cs[4..]));
    assert FirstFailure(cs[2..]) == (if !cs[2].holds then Invalid(cs[2].error) else FirstFailure(cs[3..]));
    assert FirstFailure(cs[1..]) == (if !cs[1].holds then Invalid(cs[1].error) else FirstFailure(cs[2..]));
  }

  /** A rule that passes validation, stated as one conjunction rather than a chain. */
  predicate WellFormed(rule: SpaceRule, spaceExists: string -> bool, compiles: string -> bool) {
    && ParseField(rule.field).Some?
    && ParseOperator(rule.operator).Some?
    && ParseAction(rule.action).Some?
    && ParseContentType(rule.contentType).Some?
    && ((IsSentinel(rule.space) && rule.operator == OperatorName(Regexp)) || spaceExists(rule.space))
    && (rule.operator == OperatorName(Regexp) ==> compiles(rule.value))
  }

  /** The chain accepts exactly the well-formed rules, and a rejected rule is rejected
      for the first guard, in source order, that it fails. */
  lemma ValidateAcceptsExactlyWellFormed(rule: SpaceRule, spaceExists: string -> bool, compiles: string -> bool)
    ensures Validate(rule, spaceExists, compiles).Valid? <==> WellFormed(rule, spaceExists, compiles)
    ensures Validate(rule, spaceExists, compiles).Invalid? ==>
      var cs := Checks(rule, spaceExists, compiles);
      exists i :: 0 <= i < 6 && !cs[i].holds && cs[i].error == Validate(rule, spaceExists, compiles).error &&
                  forall j :: 0 <= j < i ==> cs[j].holds
  {
    var cs := Checks(rule, spaceExists, compiles);
    ValidateRunsChecksInOrder(rule, spaceExists, compiles);
    assert cs[3].holds == ValidSpace(rule.operator, spaceExists, rule.space);
    assert cs[5].holds == (rule.operator != OperatorName(Regexp) || compiles(rule.value));
    if WellFormed(rule, spaceExists, compiles) {
      assert forall i :: 0 <= i < 6 ==> cs[i].holds;
    }
  }

  /** The rule invariant: a capture-group sentinel that the validator does not know as
      a space passes validation only on a regexp rule. */
  lemma SentinelOnlyOnRegexp(rule: SpaceRule, spaceExists: string -> bool, compiles: string -> bool)
    requires Validate(rule, spaceExists, compiles).Valid?
    requires IsSentinel(rule.space) && !spaceExists(rule.space)
    ensures ParseOperator(rule.operator) == Some(Regexp)
  {
  }

  /** The cases of SpaceRuleTest.testValidateSpaceRules, with a validator that knows only
      "space42" and a pattern oracle under which only "^(unclosed group" fails to compile. */
  lemma ValidationExamples(compiles: string -> bool)
    requires compiles("^echo") && compiles("echo$") && compiles("echo ([0-9]*)")
    requires !compiles("^(unclosed group")
    ensures var known := (s: string) => s == "space42";
      && Validate(SpaceRule("from", "is", "alpha", "copy", "space42", "blog"), known, compiles).Valid?
      && Validate(SpaceRule("to", "contains", "bravo", "move", "space42", "blog"), known, compiles).Valid?
      && Validate(SpaceRule("cc", "start", "charlie", "copy", "space42", "blog"), known, compiles).Valid?
      && Validate(SpaceRule("subject", "end", "delta", "copy", "space42", "blog"), known, compiles).Valid?
      && Validate(SpaceRule("from", "regexp", "^echo", "copy", "space42", "blog"), known, compiles).Valid?
      && Validate(SpaceRule("from", "regexp", "echo$", "copy", CapturingGroup0, "page"), known, compiles).Valid?
      && Validate(SpaceRule("from", "regexp", "echo ([0-9]*)", "copy", CapturingGroup1, "page"), known, compiles).Valid?
      && Validate(SpaceRule("bogus", "is", "alpha", "copy", "space42", "blog"), known, compiles) == Invalid(InvalidField)
      && Validate(SpaceRule("from", "nonsense", "alpha", "copy", "space42", "blog"), known, compiles) == Invalid(InvalidOperator)
      && Validate(SpaceRule("from", "is", "alpha", "notworking", "space42", "blog"), known, compiles) == Invalid(InvalidAction)
      && Validate(SpaceRule("from", "is", "alpha", "copy", "nirvana", "blog"), known, compiles) == Invalid(InvalidSpace)
      && Validate(SpaceRule("from", "is", "alpha", "copy", CapturingGroup0, "blog"), known, compiles) == Invalid(InvalidSpace)
      && Validate(SpaceRule("cc", "start", "charlie", "move", CapturingGroup1, "blog"), known, compiles) == Invalid(InvalidSpace)
      && Validate(SpaceRule("from", "regexp", "^(unclosed group", "copy", "space42", "blog"), known, compiles) == Invalid(InvalidRegexp)
      && Validate(SpaceRule("from", "is", "alpha", "copy", "space42", "bogus"), known, compiles) == Invalid(InvalidContentType)
  {
  }
}
