# Course-registration validator, modelled in Dafny

This project models the rule-based validator of `registration_refactor.py`.
A student's registration request (`StudentRegistration`) is checked against an
ordered list of rules by `RegistrationService.register`. The first rule that
fails decides the outcome, and its message is returned unchanged. If no rule
fails, the result is the success message `"Registrasi berhasil."`.

There are three rules:

- `SksLimitRule`: the current plus the requested credit hours (SKS) must not
  exceed a cap. The default cap is 24.
- `PrerequisiteRule`: every prerequisite of every requested course must be
  among the completed courses. The rule walks the requested courses in order,
  and each course's prerequisite list in order.
- `JadwalBentrokRule` (schedule conflict): each requested course that has a
  slot must find that slot free. The slot may be taken by the injected
  existing schedule, by the request's own schedule, or by an earlier
  requested course.

The hard-coded `ValidatorManager.validate` that the rules replace is modelled
too. It is proved equivalent to the service running a cap of 24 followed by
the prerequisite table `{CS201: [CS101]}`.

Layout, one module per file:

- `registration.dfy` (`Registration`): the request, the structured failure
  reasons, a rule's verdict and the service's result.
- `sks_limit.dfy`, `prerequisite.dfy`, `jadwal_bentrok.dfy`: one module per
  rule. The first two are functions, as in the source. The schedule rule's
  `validate` is a method whose loop grows an `occupied` set. It is proved
  against the recursive function `ScanSlots`.
- `rules.dfy` (`Rules`): the closed `Rule` datatype, the schedule rule's
  constructor defaults, and dispatch. `OtherRule(check)` stands for any further
  implementation of the rule interface; such a rule fails with
  `OtherReason(message)`, any message of its own.
- `service.dfy` (`Service`): the class `RegistrationService` with its rule
  list. `Register` is a loop with early exit. It is proved against the
  function `RunRules`, with a ghost count of the rules it called.
- `legacy.dfy` (`Legacy`): `ValidatorManager.validate`.
- `demo.dfy` (`Demo`): the demonstration requests and their outcomes.

`course_slot_map or {...}` replaces an injected empty slot table with the
built-in default table (registration_refactor.py:93-98), and the model keeps
that behaviour.

## Model

| member | source | states |
|---|---|---|
| `SksLimit.SksLimitVerdict` | registration_refactor.py:63-66 | fails exactly when current + requested credit hours exceed the cap (strict `>`); a failure carries the configured cap |
| `SksLimit.SksLimitBoundary` | registration_refactor.py:64-66 | a total equal to the cap passes; one credit hour more fails with `SksExceeded(cap)` |
| `SksLimit.SksLimitMonotone` | registration_refactor.py:63-66 | a passing request still passes with fewer requested credit hours or a higher cap |
| `Prerequisite.FirstMissing` | registration_refactor.py:81-83 | inner loop: finds nothing exactly when every listed prerequisite is completed; what it finds is listed and not completed |
| `Prerequisite.FirstMissingIsFirst` | registration_refactor.py:81-83 | the prerequisite the inner loop reports is the first missing one in list order |
| `Prerequisite.PrerequisiteVerdict` | registration_refactor.py:78-84 | passes iff every prerequisite of every requested course is completed (courses without an entry need none); a failure names a requested course and one of its missing prerequisites |
| `Prerequisite.PrerequisiteFailureIsFirst` | registration_refactor.py:79-83 | a failure reports the first missing (prerequisite, course) pair: outer order over requested courses, inner order over that course's list |
| `Prerequisite.MissingPrerequisiteFails` | registration_refactor.py:79-84 | any missing prerequisite of any requested course makes the rule fail |
| `JadwalBentrok.Seed` | registration_refactor.py:102 | the initial occupied set holds exactly the slots of the existing schedule and of the request's schedule |
| `JadwalBentrok.ScanSlots` | registration_refactor.py:105-115 | a failure names a requested course that has a slot, together with that slot |
| `JadwalBentrok.ValidateSchedule` | registration_refactor.py:100-115 | the loop, with its growing occupied set, returns the verdict of the recursive walk; its invariant keeps the occupied set equal to the seed plus the slots of the mapped courses walked so far |
| `JadwalBentrok.ScanSlotsFindsFirstConflict` | registration_refactor.py:102-115 | passes iff no requested course has its slot in the seed or in the slot of a mapped earlier course; a failure names the first such course and its slot |
| `JadwalBentrok.FailsNoLaterThan` | registration_refactor.py:105-113 | if requested course `i` conflicts, the rule fails on `i` or on an earlier course |
| `JadwalBentrok.OccupiedSlotConflicts` | registration_refactor.py:102-111 | a requested course whose slot is in the existing schedule or the request's schedule makes the rule fail, on it or earlier |
| `JadwalBentrok.SameSlotConflicts` | registration_refactor.py:105-113 | two requested courses with the same slot make the rule fail no later than the second of them |
| `JadwalBentrok.UnmappedCoursesIgnored` | registration_refactor.py:106-109 | dropping the courses without a slot leaves the verdict unchanged: they neither fail nor occupy a slot |
| `Rules.NewJadwalBentrokRule` | registration_refactor.py:89-98 | a missing existing schedule becomes `[]`; a missing or empty slot table becomes the four-entry default table, any other table is kept; the stored table is never empty |
| `Rules.EmptySlotTableIsDefault` | registration_refactor.py:93-98 | a rule built with an empty slot table judges every request like one built without a table |
| `Rules.DefaultTableShape` | registration_refactor.py:93-98 | the default table maps CS101 and CS201 to Mon-09, CS102 to Tue-11, MA101 to Wed-10, and nothing else |
| `Rules.Validate` | registration_refactor.py:48-55 | dispatching `validate` on a rule gives that rule's verdict |
| `Service.RegistrationService.constructor` | registration_refactor.py:120-121 | the service keeps the injected rule list as given |
| `Service.RegistrationService.Register` | registration_refactor.py:123-130 | returns the service's result; on a rejection the last rule called is the first failing one, its reason is returned unchanged and no later rule is called; on success every rule was called and passed |
| `Service.RegisteredIffAllPass` | registration_refactor.py:124-130 | registration succeeds iff every rule passes, also for an empty list, and success always carries "Registrasi berhasil." |
| `Service.FirstFailureDecides` | registration_refactor.py:124-129 | when rule `i` is the first to fail, its reason is the result |
| `Service.RunAppended` | registration_refactor.py:123-130 | running `rules + more` gives the result of `rules` if that was a rejection, and otherwise the result of `more` |
| `Service.LaterRulesIgnored` | registration_refactor.py:128-129 | rules after a failing prefix never change the result |
| `Service.AddingPassingRules` | registration_refactor.py:172-176 | adding rules that pass a request, without changing the service or the other rules, leaves that request's result unchanged |
| `Legacy.Validate` | registration_refactor.py:21-41 | the hard-coded validator accepts exactly the requests the service accepts with `[SksLimitRule(24), PrerequisiteRule({CS201: [CS101]})]` |
| `Demo.AniExceedsCap` | registration_refactor.py:138-148 | the first demonstration request (20 + 6 credit hours) is rejected for exceeding 24 |
| `Demo.BudiRegistered` | registration_refactor.py:155-170 | the second request (18 + 6, exactly the cap, CS101 completed) is registered by the cap and prerequisite rules (the same list as the hard-coded validator's) |
| `Demo.BudiConflictsOnCS201` | registration_refactor.py:172-180 | with the schedule rule added (existing Mon-09, default table) the same request is rejected on CS201 at Mon-09 |

## Left out

- Console output: the per-rule status line in `register` (registration_refactor.py:127) and the banners of `ValidatorManager`. They do not affect control flow.
- `rule.__class__.__name__` (registration_refactor.py:126): runtime reflection used only for that status line.
- The formatted failure messages: a failure of the three built-in rules carries the values its message names (`SksExceeded`, `MissingPrerequisite`, `ScheduleConflict`); a further rule's message is kept as text in `OtherReason`. Only the success text is kept literally.
- The `student_id` and `name` fields of the request: no rule reads them.
- The no-op loop over `reg.schedule` in `ValidatorManager.validate` (registration_refactor.py:36-38): it changes nothing, so the model omits it.
- The default cap of `SksLimitRule` is the constant `SksLimit.DefaultMaxSks`. Calling the constructor with an explicit `None` cap would raise a type error at the comparison, and that is not modelled.
- `Service.RegistrationService.constructor` and `Rules.NewJadwalBentrokRule`: configuration is captured by value. The source stores the caller's own list or dict (`self.rules = rules`, `existing_schedule or []`, `course_slot_map or {...}`, registration_refactor.py:91-93, 121), so a later change the caller makes to that list or dict would change the verdicts of the service or rule; an empty argument is the exception, since `or` swaps in a fresh object. The model does not capture that aliasing.
- The abstract `IValidationRule` base class and its `NotImplementedError`: rules form a closed datatype. `OtherRule(check)` stands for further rules, as a total pure function of the request. A rule that raises an exception or has side effects is not modelled.
- The demonstration driver and `__main__` (registration_refactor.py:136-194) are not modelled as code. Their requests appear as the lemmas of `Demo`.
- Python's dynamic typing: fields hold values of the declared types only. Integers are unbounded, as in Python.
