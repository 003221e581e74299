/**
 * The validation rules as one closed datatype: the three rules of the
 * system, each with the configuration its constructor stores, and
 * `OtherRule` for any further implementation of the rule interface, so
 * that the registration service can be stated for every rule list.
 */
module Rules {
  import opened Registration
  import opened SksLimit
  import opened Prerequisite
  import opened JadwalBentrok

  datatype Rule =
    | SksLimitRule(maxSks: int)
    | PrerequisiteRule(prereqMap: map<string, seq<string>>)
    | JadwalBentrokRule(existingSchedule: seq<string>, courseSlotMap: map<string, string>)
    | OtherRule(check: StudentRegistration -> Verdict)

  /**
   * `JadwalBentrokRule(existing_schedule, course_slot_map)`, where None is
   * an omitted (or `None`) argument. A missing existing schedule becomes
   * the empty one; a missing or EMPTY slot table becomes the built-in
   * default table, so the stored table is never empty.
   */
  function NewJadwalBentrokRule(existingSchedule: Option<seq<string>>, courseSlotMap: Option<map<string, string>>): (r: Rule)
    ensures r.JadwalBentrokRule?
    ensures r.existingSchedule == if existingSchedule.Some? then existingSchedule.value else []
    ensures r.courseSlotMap != map[]
    ensures courseSlotMap.Some? && courseSlotMap.value != map[] ==> r.courseSlotMap == courseSlotMap.value
    ensures courseSlotMap.None? || courseSlotMap.value == map[] ==> r.courseSlotMap == DefaultCourseSlots
  {
    var existing := if existingSchedule.Some? then existingSchedule.value else [];
    var slots := if courseSlotMap.Some? && courseSlotMap.value != map[] then courseSlotMap.value else DefaultCourseSlots;
    assert "CS101" in DefaultCourseSlots;
    JadwalBentrokRule(existing, slots)
  }

  /** Injecting an empty slot table is the same as injecting none. */
  lemma EmptySlotTableIsDefault(existingSchedule: Option<seq<string>>, reg: StudentRegistration)
    ensures Evaluate(NewJadwalBentrokRule(existingSchedule, Some(map[])), reg)
            == Evaluate(NewJadwalBentrokRule(existingSchedule, None), reg)
  {
  }

  /** The default table puts CS101 and CS201 in the same slot, Mon-09. */
  lemma DefaultTableShape()
    ensures DefaultCourseSlots.Keys == {"CS101", "CS102", "CS201", "MA101"}
    ensures DefaultCourseSlots["CS101"] == DefaultCourseSlots["CS201"] == "Mon-09"
    ensures DefaultCourseSlots["CS102"] == "Tue-11" && DefaultCourseSlots["MA101"] == "Wed-10"
  {
  }

  /** What `rule.validate(reg)` returns. */
  function Evaluate(rule: Rule, reg: StudentRegistration): Verdict
  {
    match rule
    case SksLimitRule(maxSks) => SksLimitVerdict(maxSks, reg)
    case PrerequisiteRule(prereqMap) => PrerequisiteVerdict(prereqMap, reg.requestedCourses, reg.completedCourses)
    case JadwalBentrokRule(existing, slots) => ScheduleVerdict(existing, slots, reg)
    case OtherRule(check) => check(reg)
  }

  /** `rule.validate(reg)`, dispatched on the kind of rule. */
  method Validate(rule: Rule, reg: StudentRegistration) returns (v: Verdict)
    ensures v == Evaluate(rule, reg)
  {
    match rule
    case SksLimitRule(maxSks) =>
      v := SksLimitVerdict(maxSks, reg);
    case PrerequisiteRule(prereqMap) =>
      v := PrerequisiteVerdict(prereqMap, reg.requestedCourses, reg.completedCourses);
    case JadwalBentrokRule(existing, slots) =>
      v := ValidateSchedule(existing, slots, reg);
    case OtherRule(check) =>
      v := check(reg);
  }
}
