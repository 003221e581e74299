/** `SksLimitRule`: the cap on the total credit hours (SKS) of a term. */
module SksLimit {
  import opened Registration

  /** The cap a `SksLimitRule` gets when none is given. */
  const DefaultMaxSks: int := 24

  /**
   * `SksLimitRule(maxSks).validate(reg)`: the rule fails exactly when the
   * current plus the requested credit hours exceed the cap (strictly), and
   * the failure names the cap.
   */
  function SksLimitVerdict(maxSks: int, reg: StudentRegistration): (v: Verdict)
    ensures v.Fail? <==> reg.currentSks + reg.requestedSks > maxSks
    ensures v.Fail? ==> v.reason == SksExceeded(maxSks)
  {
    if reg.currentSks + reg.requestedSks > maxSks then Fail(SksExceeded(maxSks)) else Pass
  }

  /**
   * The boundary of the cap: a request whose total equals the cap passes,
   * and one more credit hour makes it fail.
   */
  lemma SksLimitBoundary(maxSks: int, reg: StudentRegistration)
    requires reg.currentSks + reg.requestedSks == maxSks
    ensures SksLimitVerdict(maxSks, reg) == Pass
    ensures SksLimitVerdict(maxSks, reg.(requestedSks := reg.requestedSks + 1)) == Fail(SksExceeded(maxSks))
  {
  }

  /**
   * A request that passes keeps passing when it asks for fewer credit
   * hours or when the cap is raised.
   */
  lemma SksLimitMonotone(maxSks: int, maxSks': int, reg: StudentRegistration, requested': int)
    requires SksLimitVerdict(maxSks, reg).Pass?
    requires maxSks <= maxSks' && requested' <= reg.requestedSks
    ensures SksLimitVerdict(maxSks', reg.(requestedSks := requested')).Pass?
  {
  }
}
