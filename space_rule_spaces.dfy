/** SpaceRuleSpaces: the two capture-group sentinels and the check of a rule's space. */
module SpaceRuleSpaces {
  import opened SpaceRuleEnums

  /** Use the whole regexp match as the space key. */
  const CapturingGroup0: string := "_group_0"
  /** Use the first capturing group of the regexp match as the space key. */
  const CapturingGroup1: string := "_group_1"

  predicate IsSentinel(space: string) {
    space == CapturingGroup0 || space == CapturingGroup1
  }

  /** SpaceRuleSpaces.validate: a sentinel is accepted outright for a regexp rule;
      everything else is accepted exactly when the space key validator knows it. */
  function ValidSpace(operator: string, spaceExists: string -> bool, check: string): (r: bool)
    ensures operator == OperatorName(Regexp) && IsSentinel(check) ==> r
    ensures !(operator == OperatorName(Regexp) && IsSentinel(check)) ==> r == spaceExists(check)
  {
    if operator == OperatorName(Regexp) && (check == CapturingGroup0 || check == CapturingGroup1) then true
    else spaceExists(check)
  }

  lemma SentinelsDistinct()
    ensures CapturingGroup0 != CapturingGroup1
  {
    assert CapturingGroup0[7] != CapturingGroup1[7];
  }

  /** A sentinel on a rule whose operator is not regexp passes only if the validator
      happens to know a space of that literal name. */
  lemma SentinelOutsideRegexp(operator: string, spaceExists: string -> bool, check: string)
    requires IsSentinel(check) && operator != OperatorName(Regexp)
    ensures ValidSpace(operator, spaceExists, check) <==> spaceExists(check)
  {
  }
}
