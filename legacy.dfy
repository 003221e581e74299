/**
 * `ValidatorManager`, the hard-coded validator the rule-based service
 * replaces: a cap of 24 credit hours and the one prerequisite CS101 for
 * CS201.
 */
module Legacy {
  import opened Registration
  import opened Rules
  import opened Service
  import SksLimit
  import Prerequisite

  /** The rule list the hard-coded checks correspond to. */
  function LegacyRules(): seq<Rule>
  {
    [SksLimitRule(SksLimit.DefaultMaxSks), PrerequisiteRule(map["CS201" := ["CS101"]])]
  }

  /**
   * `ValidatorManager.validate(reg)`: accepts exactly the requests the
   * registration service accepts with a 24-credit-hour cap followed by the
   * prerequisite table {CS201: [CS101]}.
   */
  method Validate(reg: StudentRegistration) returns (ok: bool)
    ensures ok == RunRules(LegacyRules(), reg).Registered?
  {
    var prereqMap := map["CS201" := ["CS101"]];
    assert forall c :: Prerequisite.Required(prereqMap, c) == if c == "CS201" then ["CS101"] else [];
    if reg.currentSks + reg.requestedSks > 24 {
      return false;
    }
    for i := 0 to |reg.requestedCourses|
      invariant forall k :: 0 <= k < i ==> Prerequisite.Satisfied(prereqMap, reg.requestedCourses[k], reg.completedCourses)
    {
      if reg.requestedCourses[i] == "CS201" && "CS101" !in reg.completedCourses {
        assert !Prerequisite.Satisfied(prereqMap, reg.requestedCourses[i], reg.completedCourses);
        return false;
      }
    }
    return true;
  }
}
