/**
 * `PrerequisiteRule`: every requested course needs its prerequisites among
 * the completed courses. The outer walk is over the requested courses in
 * order, the inner one over that course's prerequisite list in order, and
 * the first prerequisite found missing is reported.
 */
module Prerequisite {
  import opened Registration

  /** `prereq_map.get(course, [])`: a course without an entry needs nothing. */
  function Required(prereqMap: map<string, seq<string>>, course: string): seq<string>
  {
    if course in prereqMap then prereqMap[course] else []
  }

  /** Every prerequisite of `course` is among the completed courses. */
  ghost predicate Satisfied(prereqMap: map<string, seq<string>>, course: string, completed: seq<string>)
  {
    forall p :: p in Required(prereqMap, course) ==> p in completed
  }

  /**
   * The inner loop: the first entry of `required` that is not among the
   * completed courses, or None when there is none.
   */
  function FirstMissing(required: seq<string>, completed: seq<string>): (r: Option<string>)
    ensures r.None? <==> forall p :: p in required ==> p in completed
    ensures r.Some? ==> r.value in required && r.value !in completed
    decreases |required|
  {
    if required == [] then None
    else if required[0] !in completed then Some(required[0])
    else FirstMissing(required[1..], completed)
  }

  /**
   * `PrerequisiteRule(prereqMap).validate` on the requested courses
   * `courses` and the completed courses `completed`: it passes exactly when
   * every prerequisite of every requested course has been completed, and a
   * failure names a missing prerequisite of a requested course.
   */
  function PrerequisiteVerdict(prereqMap: map<string, seq<string>>, courses: seq<string>, completed: seq<string>): (v: Verdict)
    ensures v.Pass? <==> forall c :: c in courses ==> Satisfied(prereqMap, c, completed)
    ensures v.Fail? ==> v.reason.MissingPrerequisite? && v.reason.course in courses
                        && v.reason.req in Required(prereqMap, v.reason.course)
                        && v.reason.req !in completed
    decreases |courses|
  {
    if courses == [] then Pass
    else
      match FirstMissing(Required(prereqMap, courses[0]), completed)
      case Some(req) =>
        assert courses[0] in courses && !Satisfied(prereqMap, courses[0], completed);
        Fail(MissingPrerequisite(req, courses[0]))
      case None => PrerequisiteVerdict(prereqMap, courses[1..], completed)
  }

  /**
   * Position `j` of the prerequisite list of requested course `i` is the
   * first missing prerequisite in the walk's order: it is missing, the
   * entries before it in that list are not, and every requested course
   * before `i` is satisfied.
   */
  ghost predicate FirstMissingAt(prereqMap: map<string, seq<string>>, courses: seq<string>, completed: seq<string>, i: int, j: int)
  {
    && 0 <= i < |courses|
    && 0 <= j < |Required(prereqMap, courses[i])|
    && Required(prereqMap, courses[i])[j] !in completed
    && (forall k :: 0 <= k < j ==> Required(prereqMap, courses[i])[k] in completed)
    && (forall k :: 0 <= k < i ==> Satisfied(prereqMap, courses[k], completed))
  }

  /** The inner loop reports the first missing entry of the list. */
  lemma {:induction false} FirstMissingIsFirst(required: seq<string>, completed: seq<string>)
    requires FirstMissing(required, completed).Some?
    ensures exists j :: 0 <= j < |required| && required[j] == FirstMissing(required, completed).value
                        && forall k :: 0 <= k < j ==> required[k] in completed
    decreases |required|
  {
    if required[0] in completed {
      FirstMissingIsFirst(required[1..], completed);
      var j :| 0 <= j < |required[1..]| && required[1..][j] == FirstMissing(required[1..], completed).value
               && forall k :: 0 <= k < j ==> required[1..][k] in completed;
      assert required[j + 1] == FirstMissing(required, completed).value;
      assert forall k :: 0 <= k < j + 1 ==> required[k] in completed by {
        forall k | 0 <= k < j + 1 ensures required[k] in completed {
          if k > 0 { assert required[k] == required[1..][k - 1]; }
        }
      }
    } else {
      assert required[0] == FirstMissing(required, completed).value;
    }
  }

  /**
   * A failing prerequisite check reports the first missing pair in the
   * walk's order: outer order over the requested courses, inner order over
   * each course's prerequisite list.
   */
  lemma {:induction false} PrerequisiteFailureIsFirst(prereqMap: map<string, seq<string>>, courses: seq<string>, completed: seq<string>)
    requires PrerequisiteVerdict(prereqMap, courses, completed).Fail?
    ensures exists i, j :: FirstMissingAt(prereqMap, courses, completed, i, j)
                           && PrerequisiteVerdict(prereqMap, courses, completed)
                              == Fail(MissingPrerequisite(Required(prereqMap, courses[i])[j], courses[i]))
    decreases |courses|
  {
    var required := Required(prereqMap, courses[0]);
    var v := PrerequisiteVerdict(prereqMap, courses, completed);
    if FirstMissing(required, completed).Some? {
      FirstMissingIsFirst(required, completed);
      var j :| 0 <= j < |required| && required[j] == FirstMissing(required, completed).value
               && forall k :: 0 <= k < j ==> required[k] in completed;
      assert FirstMissingAt(prereqMap, courses, completed, 0, j);
      assert v == Fail(MissingPrerequisite(required[j], courses[0]));
    } else {
      var rest := courses[1..];
      PrerequisiteFailureIsFirst(prereqMap, rest, completed);
      var i, j :| FirstMissingAt(prereqMap, rest, completed, i, j)
                  && PrerequisiteVerdict(prereqMap, rest, completed)
                     == Fail(MissingPrerequisite(Required(prereqMap, rest[i])[j], rest[i]));
      assert Satisfied(prereqMap, courses[0], completed);
      assert forall k :: 0 <= k < i + 1 ==> Satisfied(prereqMap, courses[k], completed) by {
        forall k | 0 <= k < i + 1 ensures Satisfied(prereqMap, courses[k], completed) {
          if k > 0 { assert courses[k] == rest[k - 1]; }
        }
      }
      assert FirstMissingAt(prereqMap, courses, completed, i + 1, j);
    }
  }

  /**
   * A missing prerequisite of any requested course makes the check fail,
   * whatever else is missing.
   */
  lemma MissingPrerequisiteFails(prereqMap: map<string, seq<string>>, courses: seq<string>, completed: seq<string>, course: string, req: string)
    requires course in courses && req in Required(prereqMap, course) && req !in completed
    ensures PrerequisiteVerdict(prereqMap, courses, completed).Fail?
  {
    assert !Satisfied(prereqMap, course, completed);
  }
}
