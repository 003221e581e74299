/**
 * `RegistrationService`: runs an injected, ordered list of rules and stops
 * at the first one that fails.
 */
module Service {
  import opened Registration
  import opened Rules

  /** What `register` returns for the rule list `rules`. */
  function RunRules(rules: seq<Rule>, reg: StudentRegistration): RegisterResult
    decreases |rules|
  {
    if rules == [] then Registered(SuccessMessage)
    else
      match Evaluate(rules[0], reg)
      case Fail(reason) => Rejected(reason)
      case Pass => RunRules(rules[1..], reg)
  }

  /** Every rule of the list passes the request. */
  ghost predicate AllPass(rules: seq<Rule>, reg: StudentRegistration)
  {
    forall i :: 0 <= i < |rules| ==> Evaluate(rules[i], reg).Pass?
  }

  /** Rule `i` fails the request and every rule before it passes. */
  ghost predicate FirstFailureAt(rules: seq<Rule>, reg: StudentRegistration, i: int)
  {
    && 0 <= i < |rules|
    && Evaluate(rules[i], reg).Fail?
    && forall k :: 0 <= k < i ==> Evaluate(rules[k], reg).Pass?
  }

  class RegistrationService {
    /** The rules, in the order they run. */
    const rules: seq<Rule>

    constructor (rules: seq<Rule>)
      ensures this.rules == rules
    {
      this.rules := rules;
    }

    /**
     * `register(reg)`. `evaluated` counts the calls to a rule's `validate`:
     * on a rejection the last rule called is the first failing one and its
     * reason is returned unchanged, so no rule after it is called; on
     * success every rule was called and passed.
     */
    method Register(reg: StudentRegistration) returns (result: RegisterResult, ghost evaluated: nat)
      ensures result == RunRules(rules, reg)
      ensures evaluated <= |rules|
      ensures result.Registered? ==> evaluated == |rules| && AllPass(rules, reg)
      ensures result.Rejected? ==> FirstFailureAt(rules, reg, evaluated - 1)
                                   && result.reason == Evaluate(rules[evaluated - 1], reg).reason
    {
      evaluated := 0;
      var i := 0;
      while i < |rules|
        invariant 0 <= i <= |rules| && evaluated == i
        invariant forall k :: 0 <= k < i ==> Evaluate(rules[k], reg).Pass?
        invariant RunRules(rules[i..], reg) == RunRules(rules, reg)
      {
        assert rules[i..][1..] == rules[i + 1..];
        var v := Validate(rules[i], reg);
        evaluated := evaluated + 1;
        if v.Fail? {
          result := Rejected(v.reason);
          return;
        }
        i := i + 1;
      }
      result := Registered(SuccessMessage);
    }
  }

  /**
   * Registration succeeds, always with the fixed success message, exactly
   * when every rule passes; in particular with no rules at all.
   */
  lemma {:induction false} RegisteredIffAllPass(rules: seq<Rule>, reg: StudentRegistration)
    ensures RunRules(rules, reg).Registered? <==> AllPass(rules, reg)
    ensures RunRules(rules, reg).Registered? ==> RunRules(rules, reg).message == SuccessMessage
    decreases |rules|
  {
    if rules != [] {
      RegisteredIffAllPass(rules[1..], reg);
      if Evaluate(rules[0], reg).Pass? {
        forall i | 0 <= i < |rules| && AllPass(rules[1..], reg) ensures Evaluate(rules[i], reg).Pass? {
          if i > 0 { assert rules[i] == rules[1..][i - 1]; }
        }
      }
    }
  }

  /** The first failing rule decides: its reason is what is returned. */
  lemma {:induction false} FirstFailureDecides(rules: seq<Rule>, reg: StudentRegistration, i: int)
    requires FirstFailureAt(rules, reg, i)
    ensures RunRules(rules, reg) == Rejected(Evaluate(rules[i], reg).reason)
    decreases i
  {
    if i > 0 {
      assert Evaluate(rules[0], reg).Pass?;
      assert FirstFailureAt(rules[1..], reg, i - 1);
      FirstFailureDecides(rules[1..], reg, i - 1);
    }
  }

  /**
   * Running `rules + more` is running `rules` and, only if all of them
   * passed, then `more`.
   */
  lemma {:induction false} RunAppended(rules: seq<Rule>, more: seq<Rule>, reg: StudentRegistration)
    ensures RunRules(rules + more, reg)
            == if RunRules(rules, reg).Rejected? then RunRules(rules, reg) else RunRules(more, reg)
    decreases |rules|
  {
    if rules == [] {
      assert rules + more == more;
    } else {
      assert (rules + more)[0] == rules[0];
      assert (rules + more)[1..] == rules[1..] + more;
      RunAppended(rules[1..], more, reg);
    }
  }

  /** Rules placed after a failing prefix are never consulted. */
  lemma LaterRulesIgnored(rules: seq<Rule>, more: seq<Rule>, reg: StudentRegistration)
    requires RunRules(rules, reg).Rejected?
    ensures RunRules(rules + more, reg) == RunRules(rules, reg)
  {
    RunAppended(rules, more, reg);
  }

  /**
   * Extending the rule list with rules that pass the request (a new rule
   * added without touching the service or the other rules) leaves the
   * outcome unchanged.
   */
  lemma AddingPassingRules(rules: seq<Rule>, more: seq<Rule>, reg: StudentRegistration)
    requires AllPass(more, reg)
    ensures RunRules(rules + more, reg) == RunRules(rules, reg)
  {
    RunAppended(rules, more, reg);
    RegisteredIffAllPass(more, reg);
    RegisteredIffAllPass(rules, reg);
  }
}
