/**
 * The requests of the demonstration driver, with the outcome each rule
 * list gives them.
 */
module Demo {
  import opened Registration
  import opened Rules
  import opened Service
  import Legacy

  /** Ani: 20 + 6 credit hours, CS201 requested with CS101 completed. */
  const Ani := StudentRegistration(20, 6, ["CS101"], ["CS201"], ["Tue-11"])

  /** Budi: 18 + 6 credit hours (exactly the cap), CS201 and MA101 requested. */
  const Budi := StudentRegistration(18, 6, ["CS101"], ["CS201", "MA101"], ["Wed-10"])

  /** Ani exceeds the cap of 24, so the hard-coded validator rejects the request. */
  lemma AniExceedsCap()
    ensures RunRules(Legacy.LegacyRules(), Ani) == Rejected(SksExceeded(24))
  {
  }

  /**
   * Budi sits exactly at the cap and has CS101, so the request is
   * registered. The demonstration's rules, a cap of 24 and the
   * prerequisite table {CS201: [CS101]}, are the hard-coded validator's.
   */
  lemma BudiRegistered()
    ensures RunRules(Legacy.LegacyRules(), Budi) == Registered(SuccessMessage)
  {
    assert Prerequisite.Satisfied(map["CS201" := ["CS101"]], "CS201", Budi.completedCourses);
  }

  /**
   * Adding the schedule-conflict rule with existing schedule Mon-09 and
   * the default slot table rejects Budi on CS201 at Mon-09, before MA101
   * (which collides with the request's own Wed-10) is looked at.
   */
  lemma BudiConflictsOnCS201()
    ensures RunRules(Legacy.LegacyRules() + [NewJadwalBentrokRule(Some(["Mon-09"]), None)], Budi)
            == Rejected(ScheduleConflict("CS201", "Mon-09"))
  {
    BudiRegistered();
    RunAppended(Legacy.LegacyRules(), [NewJadwalBentrokRule(Some(["Mon-09"]), None)], Budi);
    var seed := JadwalBentrok.Seed(["Mon-09"], Budi.schedule);
    assert "Mon-09" in seed;
  }
}
