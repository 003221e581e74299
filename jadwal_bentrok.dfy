/**
 * `JadwalBentrokRule` (schedule conflict): a requested course may not take
 * a slot that is already occupied, either by the injected existing
 * schedule, by the request's own schedule, or by an earlier requested
 * course.
 */
module JadwalBentrok {
  import opened Registration

  /** The course-to-slot table a rule gets when none (or an empty one) is given. */
  const DefaultCourseSlots: map<string, string> :=
    map["CS101" := "Mon-09", "CS102" := "Tue-11", "CS201" := "Mon-09", "MA101" := "Wed-10"]

  /** The slots occupied before any requested course is looked at. */
  function Seed(existingSchedule: seq<string>, schedule: seq<string>): (occupied: set<string>)
    ensures forall s :: s in occupied <==> s in existingSchedule || s in schedule
  {
    set s | s in existingSchedule + schedule
  }

  /**
   * The walk over the requested courses, from the slots `occupied` so far:
   * an unmapped course is skipped, a mapped course whose slot is occupied
   * fails, any other mapped course occupies its slot.
   */
  function ScanSlots(occupied: set<string>, courses: seq<string>, courseSlots: map<string, string>): (v: Verdict)
    ensures v.Fail? ==> v.reason.ScheduleConflict? && v.reason.course in courses
                        && v.reason.course in courseSlots
                        && courseSlots[v.reason.course] == v.reason.slot
    decreases |courses|
  {
    if courses == [] then Pass
    else if courses[0] !in courseSlots then ScanSlots(occupied, courses[1..], courseSlots)
    else if courseSlots[courses[0]] in occupied then Fail(ScheduleConflict(courses[0], courseSlots[courses[0]]))
    else ScanSlots(occupied + {courseSlots[courses[0]]}, courses[1..], courseSlots)
  }

  /** What `JadwalBentrokRule(existingSchedule, courseSlots).validate(reg)` returns. */
  function ScheduleVerdict(existingSchedule: seq<string>, courseSlots: map<string, string>, reg: StudentRegistration): Verdict
  {
    ScanSlots(Seed(existingSchedule, reg.schedule), reg.requestedCourses, courseSlots)
  }

  /**
   * `JadwalBentrokRule.validate`: the occupied set starts from the existing
   * and the request's schedule and grows by the slot of each requested
   * course that passes; the first requested course whose slot is occupied
   * fails.
   */
  method ValidateSchedule(existingSchedule: seq<string>, courseSlots: map<string, string>, reg: StudentRegistration)
    returns (v: Verdict)
    ensures v == ScheduleVerdict(existingSchedule, courseSlots, reg)
  {
    var courses := reg.requestedCourses;
    var occupied := set s | s in existingSchedule + reg.schedule;
    var i := 0;
    while i < |courses|
      invariant 0 <= i <= |courses|
      invariant occupied == Seed(existingSchedule, reg.schedule) + SlotsOf(courses[..i], courseSlots)
      invariant ScanSlots(occupied, courses[i..], courseSlots) == ScheduleVerdict(existingSchedule, courseSlots, reg)
    {
      SlotsOfSnoc(courses[..i], courses[i], courseSlots);
      assert courses[..i + 1] == courses[..i] + [courses[i]];
      var course := courses[i];
      if course !in courseSlots {
        i := i + 1;
        continue;
      }
      var slot := courseSlots[course];
      if slot in occupied {
        return Fail(ScheduleConflict(course, slot));
      }
      occupied := occupied + {slot};
      i := i + 1;
    }
    return Pass;
  }

  /** The slot of `course` as a set: empty when the course has no entry. */
  function SlotOf(course: string, courseSlots: map<string, string>): set<string>
  {
    if course in courseSlots then {courseSlots[course]} else {}
  }

  /** The slots of the mapped courses among `courses`. */
  function SlotsOf(courses: seq<string>, courseSlots: map<string, string>): set<string>
    decreases |courses|
  {
    if courses == [] then {} else SlotOf(courses[0], courseSlots) + SlotsOf(courses[1..], courseSlots)
  }

  /** Appending a course adds its slot, if it has one, and nothing else. */
  lemma {:induction false} SlotsOfSnoc(courses: seq<string>, course: string, courseSlots: map<string, string>)
    ensures SlotsOf(courses + [course], courseSlots) == SlotsOf(courses, courseSlots) + SlotOf(course, courseSlots)
    decreases |courses|
  {
    if courses == [] {
      assert [course][1..] == [];
    } else {
      assert (courses + [course])[1..] == courses[1..] + [course];
      SlotsOfSnoc(courses[1..], course, courseSlots);
    }
  }

  /** Every mapped course contributes its slot. */
  lemma {:induction false} SlotsOfContains(courses: seq<string>, courseSlots: map<string, string>, i: int)
    requires 0 <= i < |courses| && courses[i] in courseSlots
    ensures courseSlots[courses[i]] in SlotsOf(courses, courseSlots)
    decreases |courses|
  {
    if i > 0 {
      SlotsOfContains(courses[1..], courseSlots, i - 1);
    }
  }

  /**
   * Requested course `i` conflicts: it has a slot, and the slot is in the
   * seed or is the slot of a mapped requested course before it.
   */
  ghost predicate ConflictAt(seed: set<string>, courses: seq<string>, courseSlots: map<string, string>, i: int)
    requires 0 <= i < |courses|
  {
    courses[i] in courseSlots && courseSlots[courses[i]] in seed + SlotsOf(courses[..i], courseSlots)
  }

  /** Requested course `i` is the first one that conflicts. */
  ghost predicate FirstConflictAt(seed: set<string>, courses: seq<string>, courseSlots: map<string, string>, i: int)
  {
    && 0 <= i < |courses|
    && ConflictAt(seed, courses, courseSlots, i)
    && forall k :: 0 <= k < i ==> !ConflictAt(seed, courses, courseSlots, k)
  }

  /** Moving the first course's slot into the seed shifts conflicts by one. */
  lemma ConflictShift(seed: set<string>, courses: seq<string>, courseSlots: map<string, string>, i: int)
    requires 0 < i < |courses|
    ensures ConflictAt(seed, courses, courseSlots, i)
            <==> ConflictAt(seed + SlotOf(courses[0], courseSlots), courses[1..], courseSlots, i - 1)
  {
    var prefix := courses[..i];
    assert prefix[0] == courses[0];
    assert prefix[1..] == courses[1..][..i - 1];
    assert SlotsOf(prefix, courseSlots) == SlotOf(courses[0], courseSlots) + SlotsOf(courses[1..][..i - 1], courseSlots);
  }

  /**
   * The walk passes exactly when no requested course conflicts, and a
   * failure names the first conflicting course and its slot.
   */
  lemma {:induction false} ScanSlotsFindsFirstConflict(seed: set<string>, courses: seq<string>, courseSlots: map<string, string>)
    ensures ScanSlots(seed, courses, courseSlots).Pass?
            <==> forall i :: 0 <= i < |courses| ==> !ConflictAt(seed, courses, courseSlots, i)
    ensures ScanSlots(seed, courses, courseSlots).Fail?
            ==> exists i :: FirstConflictAt(seed, courses, courseSlots, i)
                            && ScanSlots(seed, courses, courseSlots)
                               == Fail(ScheduleConflict(courses[i], courseSlots[courses[i]]))
    decreases |courses|
  {
    if courses != [] {
      assert courses[..0] == [];
      var seed' := seed + SlotOf(courses[0], courseSlots);
      if courses[0] in courseSlots && courseSlots[courses[0]] in seed {
        assert FirstConflictAt(seed, courses, courseSlots, 0);
      } else {
        assert !ConflictAt(seed, courses, courseSlots, 0);
        assert courses[0] !in courseSlots ==> seed' == seed;
        assert ScanSlots(seed, courses, courseSlots) == ScanSlots(seed', courses[1..], courseSlots);
        ScanSlotsFindsFirstConflict(seed', courses[1..], courseSlots);
        forall i | 0 < i < |courses|
          ensures ConflictAt(seed, courses, courseSlots, i) <==> ConflictAt(seed', courses[1..], courseSlots, i - 1)
        {
          ConflictShift(seed, courses, courseSlots, i);
        }
        if ScanSlots(seed, courses, courseSlots).Fail? {
          var j :| FirstConflictAt(seed', courses[1..], courseSlots, j)
                   && ScanSlots(seed', courses[1..], courseSlots)
                      == Fail(ScheduleConflict(courses[1..][j], courseSlots[courses[1..][j]]));
          assert FirstConflictAt(seed, courses, courseSlots, j + 1);
        } else {
          forall i | 0 <= i < |courses| ensures !ConflictAt(seed, courses, courseSlots, i) {
            if i > 0 {
              assert !ConflictAt(seed', courses[1..], courseSlots, i - 1);
            }
          }
        }
      }
    }
  }

  /**
   * When requested course `i` conflicts, the rule fails, on `i` or on a
   * course before it.
   */
  lemma FailsNoLaterThan(seed: set<string>, courses: seq<string>, courseSlots: map<string, string>, i: int)
    requires 0 <= i < |courses| && ConflictAt(seed, courses, courseSlots, i)
    ensures exists k :: 0 <= k <= i && courses[k] in courseSlots
                        && ScanSlots(seed, courses, courseSlots) == Fail(ScheduleConflict(courses[k], courseSlots[courses[k]]))
  {
    ScanSlotsFindsFirstConflict(seed, courses, courseSlots);
    var k :| FirstConflictAt(seed, courses, courseSlots, k)
             && ScanSlots(seed, courses, courseSlots) == Fail(ScheduleConflict(courses[k], courseSlots[courses[k]]));
  }

  /**
   * A requested course whose slot is in the existing schedule or in the
   * request's own schedule makes the rule fail, on that course or earlier.
   */
  lemma OccupiedSlotConflicts(existingSchedule: seq<string>, courseSlots: map<string, string>, reg: StudentRegistration, i: int)
    requires 0 <= i < |reg.requestedCourses| && reg.requestedCourses[i] in courseSlots
    requires courseSlots[reg.requestedCourses[i]] in existingSchedule || courseSlots[reg.requestedCourses[i]] in reg.schedule
    ensures exists k :: 0 <= k <= i && reg.requestedCourses[k] in courseSlots
                        && ScheduleVerdict(existingSchedule, courseSlots, reg)
                           == Fail(ScheduleConflict(reg.requestedCourses[k], courseSlots[reg.requestedCourses[k]]))
  {
    var seed := Seed(existingSchedule, reg.schedule);
    assert ConflictAt(seed, reg.requestedCourses, courseSlots, i);
    FailsNoLaterThan(seed, reg.requestedCourses, courseSlots, i);
  }

  /**
   * Two requested courses `i < j` with the same slot conflict with each
   * other: the rule fails no later than the second of them.
   */
  lemma SameSlotConflicts(existingSchedule: seq<string>, courseSlots: map<string, string>, reg: StudentRegistration, i: int, j: int)
    requires 0 <= i < j < |reg.requestedCourses|
    requires reg.requestedCourses[i] in courseSlots && reg.requestedCourses[j] in courseSlots
    requires courseSlots[reg.requestedCourses[i]] == courseSlots[reg.requestedCourses[j]]
    ensures exists k :: 0 <= k <= j && reg.requestedCourses[k] in courseSlots
                        && ScheduleVerdict(existingSchedule, courseSlots, reg)
                           == Fail(ScheduleConflict(reg.requestedCourses[k], courseSlots[reg.requestedCourses[k]]))
  {
    var courses := reg.requestedCourses;
    var seed := Seed(existingSchedule, reg.schedule);
    assert courses[..j][i] == courses[i];
    SlotsOfContains(courses[..j], courseSlots, i);
    assert ConflictAt(seed, courses, courseSlots, j);
    FailsNoLaterThan(seed, courses, courseSlots, j);
  }

  /** The requested courses that have an entry in the slot table, in order. */
  function MappedOnly(courses: seq<string>, courseSlots: map<string, string>): (r: seq<string>)
    ensures forall c :: c in r <==> c in courses && c in courseSlots
    decreases |courses|
  {
    if courses == [] then []
    else if courses[0] in courseSlots then [courses[0]] + MappedOnly(courses[1..], courseSlots)
    else MappedOnly(courses[1..], courseSlots)
  }

  /**
   * Courses without a slot never matter: dropping them from the request
   * leaves the verdict unchanged, so they neither fail nor occupy a slot.
   */
  lemma {:induction false} UnmappedCoursesIgnored(occupied: set<string>, courses: seq<string>, courseSlots: map<string, string>)
    ensures ScanSlots(occupied, courses, courseSlots) == ScanSlots(occupied, MappedOnly(courses, courseSlots), courseSlots)
    decreases |courses|
  {
    if courses != [] {
      var rest := MappedOnly(courses[1..], courseSlots);
      if courses[0] in courseSlots {
        assert ([courses[0]] + rest)[1..] == rest;
        UnmappedCoursesIgnored(occupied + {courseSlots[courses[0]]}, courses[1..], courseSlots);
      }
      UnmappedCoursesIgnored(occupied, courses[1..], courseSlots);
    }
  }
}
