# University course registration, modelled in Dafny

This project models the in-memory core of a single-user course-registration tool: courses with a capacity and a roster, students who register for and drop courses, administrators who create and delete courses, and the registration system that holds the three lists, logs principals in and routes requests.

One Dafny module per Python file:

- `Users` (`users.dfy`, from `user.py`): the credential record. It is a datatype, because nothing changes it after construction.
- `Courses` (`courses.dfy`, from `course.py`): class `Course`. The descriptive fields are `const`. The roster `enrolled: seq<object>` is changed in place by `AddStudent` and `RemoveStudent`.
- `Students` (`students.dfy`, from `student.py`): class `Student`. It has a `const user` and a `registered: seq<Course>` list that `RegisterCourse` and `DropCourse` change, together with the course's roster.
- `Admins` (`admins.dfy`, from `admin.py`): class `Admin`, with course creation and deletion-if-empty.
- `Registry` (`registry.dfy`, from `registration_system.py`): class `RegistrationSystem` over the `courses`, `students` and `admins` lists, plus the pure helpers for case-insensitive ids and generated student ids.
- `Collections` (`collections.dfy`): `Option`, a no-repeats predicate, and `RemoveFirst`, which models the guarded removal `if x in xs: xs.remove(x)` used at every removal site.
- `Scenarios` (`scenarios.dfy`): client methods that replay short sessions from the contracts alone. Examples: capacity one, a schedule clash, an admin and a student with the same credentials, the deletion guard, the seeded system driven through a registration, a drop and a course deletion, and a student id handed out twice.

Python's `in` and `remove` compare these objects by identity, because no class defines `__eq__`. In the model they are Dafny reference equality.

The central invariant is `RegistrationSystem.Valid()`. It says:
- a course is in a student's list exactly when the student is on that course's roster;
- every roster stays within capacity and has no repeats;
- no student holds two courses with the same schedule string.

It holds after construction, and every operation of the system preserves it:
- sign-up;
- student deletion;
- course creation and deletion;
- a student's register and drop requests.

The main fact proved about the code is that a course always clashes with itself. So the schedule check fires before the duplicate check, and the "already registered" answer can never be given. The model keeps that branch as written and proves it unreachable (`Students.DuplicateBranchUnreachable`, `RegistrationSystem.RegisterStudentForCourse`).

The model follows the code in these points:
- A roster is a list, not a set.
- Login yields "no principal" rather than an error value.
- Course deletion answers only true or false. The contract says which case produced false.
- A course of negative capacity (a negative number typed at the prompt) is full from the start. Its roster stays empty, which is why `WithinCapacity` accepts an empty roster under any capacity.
- `AddStudent` itself checks nothing; capacity is kept only because `RegisterCourse` checks first.
- Deleting a student leaves every roster as it was. A deleted student who held courses keeps those seats, and the contract of `DeleteStudent` states this.

## Model

| member | source | states |
|---|---|---|
| `Users.User.Login` | user.py:11-15 | exact string equality on both the username and the password (no contract: the predicate is the definition; its partner is `RegistrationSystem.CredentialsHeldOnce`) |
| `Users.User.GetUserId` | user.py:20-21 | returns the id given at construction; `User` is a value, so nothing changes it later (no contract: a field read) |
| `Users.User.GetUsername` | user.py:23-24 | returns the username given at construction (no contract: a field read) |
| `Courses.Course.constructor` | course.py:18-24 | the new course carries exactly the given id, name, instructor, schedule and capacity, and its roster is empty |
| `Courses.Course.GetCourseId` | course.py:26-27 | the id given at construction, a `const` field (no contract: a field read) |
| `Courses.Course.GetCourseName` | course.py:29-30 | the name given at construction (no contract: a field read) |
| `Courses.Course.GetInstructor` | course.py:32-33 | the instructor given at construction (no contract: a field read) |
| `Courses.Course.GetSchedule` | course.py:35-36 | the schedule string given at construction (no contract: a field read) |
| `Courses.Course.GetMaxStudents` | course.py:38-39 | the capacity given at construction (no contract: a field read) |
| `Courses.Course.GetEnrolledStudents` | course.py:41-42 | the current roster (no contract: a field read) |
| `Courses.Course.IsFull` | course.py:44-45 | full means no seat left (`|enrolled| >= maxStudents`); a capacity of zero or less is full at once; a non-full course has room for one more |
| `Courses.Course.AddStudent` | course.py:47-48 | appends exactly one entry at the end, with no requirement: it appends even to a full course or a duplicate; other fields are `const` |
| `Courses.Course.RemoveStudent` | course.py:50-52 | the roster becomes `RemoveFirst` of the old one: unchanged when the student is absent, one entry shorter when present |
| `Collections.RemoveFirst` | course.py:51-52 | the guarded removal `if x in xs: xs.remove(x)` used at every removal site: a present element loses exactly its first occurrence, the rest keeping its order; an absent one leaves the list unchanged |
| `Collections.IndexOf` | course.py:52 | the position of the first occurrence of an element that is in the list |
| `Collections.RemoveFirstContents` | course.py:52 | removing a present element shortens the list by one, and the multiset loses exactly one copy of that element |
| `Collections.RemoveFirstMembers` | student.py:28 | every element other than the removed one stays in the list, and no new element appears |
| `Collections.RemoveFirstNoDuplicates` | student.py:27-29 | in a list without repeats, removing an element leaves no copy of it and no repeats |
| `Collections.AppendNoDuplicates` | student.py:22-23 | appending an element that is absent keeps the list free of repeats |
| `Students.Student.constructor` | student.py:5-7 | a new student has exactly the given credentials and no registered courses |
| `Students.Student.Login` | user.py:11-15 | the inherited credential check, delegated to the student's `User` (no contract) |
| `Students.Student.GetRegisteredCourses` | student.py:59-60 | the registered courses in registration order (no contract: a field read) |
| `Students.RegisterDecision` | student.py:9-20 | the outcome of the checks in the order full, clash, duplicate; its properties are stated by `RegisteredIff` and `DuplicateBranchUnreachable` (no contract of its own) |
| `Students.Student.HasTimeConflict` | student.py:53-57 | true exactly when some registered course has the same schedule string as the candidate |
| `Students.Student.RegisterCourse` | student.py:9-24 | the outcome is the first failing check in the order full, clash, duplicate; on success the course is appended to the list and the student to the roster together; on any failure neither changes |
| `Students.Student.DropCourse` | student.py:26-32 | dropped exactly when the course was registered; then the course leaves the list and the student leaves the roster (first occurrences); otherwise nothing changes |
| `Students.SelfConflict` | student.py:53-57 | a course that is already registered clashes with itself |
| `Students.DuplicateBranchUnreachable` | student.py:14-20 | the decision is never "already registered"; a registered course gets "full" or "time conflict" |
| `Students.RegisteredIff` | student.py:9-23 | registration succeeds if and only if the course is not full and nothing registered shares its schedule; the course is then not yet in the list |
| `Students.DistinctSchedulesNoDuplicates` | student.py:14-20 | a list whose courses have pairwise different schedules holds no course twice |
| `Students.AppendKeepsDistinctSchedules` | student.py:14-23 | appending a course without a clash keeps the schedules pairwise different |
| `Students.RemoveKeepsDistinctSchedules` | student.py:26-29 | dropping a course keeps the schedules pairwise different |
| `Admins.Admin.constructor` | admin.py:11-12 | the administrator carries exactly the given credentials |
| `Admins.Admin.Login` | user.py:11-15 | the inherited credential check, delegated to the administrator's `User` (no contract) |
| `Admins.Admin.CreateCourse` | admin.py:14-15 | returns a new course with exactly the given fields and an empty roster, added to no list |
| `Admins.Admin.DeleteCourse` | admin.py:17-28 | the first course whose id matches exactly (case-sensitive) decides: it is removed, with true and the others in order, only if its roster is empty; a non-empty roster or no match returns false and the list unchanged |
| `Registry.LowerChar` | registration_system.py:309 | ASCII capitals map to their small letters; every other character is unchanged; no capital remains |
| `Registry.Lower` | registration_system.py:309 | the fold keeps the length and folds each character |
| `Registry.LowerIdempotent` | registration_system.py:309 | folding twice equals folding once: a folded id is its own fold |
| `Registry.CaseVariantsMatch` | registration_system.py:307-311 | a worked example rather than a general property: "cs101" and "CS101" match in the course lookup, although they are different strings (so exact deletion tells them apart) |
| `Registry.DigitChar` | registration_system.py:272 | each digit value maps to its decimal character |
| `Registry.DecimalString` | registration_system.py:272 | the decimal form of a count is a non-empty string of digits with no leading zero (only 0 itself starts with '0') |
| `Registry.ZeroPad` | registration_system.py:272 | a string at least as long as the width is returned unchanged; a shorter one is preceded by zeros up to the width, and ends with the original string |
| `Registry.StudentIdFor` | registration_system.py:272 | a generated id is "S" followed by at least three digits, and padding stops at three: an id longer than four characters has no leading zero after the "S" |
| `Registry.DecimalRoundTrip` | registration_system.py:272 | reading the decimal form of a count gives the count back |
| `Registry.LeadingZerosValue` | registration_system.py:272 | zero-padding does not change the denoted number |
| `Registry.StudentIdRoundTrip` | registration_system.py:272 | the digits of the generated id read back as the student count plus one |
| `Registry.StudentIdInjective` | registration_system.py:272 | equal ids exactly when the student counts are equal, so an id is reissued when the count returns to an earlier value |
| `Registry.IdReissuedAfterDeletion` | registration_system.py:272 | when the last student's id came from the count, deleting any earlier student makes the next generated id equal to that last student's id, and that student is still in the list |
| `Scenarios.IdRepeatsAfterDeletion` | registration_system.py:271-304 | on the seeded system, deleting S001 and then signing up a new student returns id S002, while emma, a different student, still holds S002 |
| `Registry.RegistrationSystem.constructor` | registration_system.py:28-33 | starting with nothing loaded, the system holds exactly the seeded admin, the two seeded students with no courses and the three seeded courses with empty rosters, all newly created objects; usernames are unique and the invariant holds |
| `Registry.RegistrationSystem.CredentialsHeldOnce` | user.py:11-15 | with unique usernames, no two administrators, no two students, and no administrator and student accept the same credential pair |
| `Registry.RegistrationSystem.InitializeSampleData` | registration_system.py:90-99 | each list is seeded with its fixed sample entries independently, only when that list is empty; non-empty lists are unchanged; the invariant is kept |
| `Registry.RegistrationSystem.SeedAdmins` | registration_system.py:91-92 | appends the one sample administrator |
| `Registry.RegistrationSystem.SeedStudents` | registration_system.py:93-95 | the two sample students, with no courses, become the student list |
| `Registry.RegistrationSystem.SeedCourses` | registration_system.py:96-99 | the three sample courses, with empty rosters, become the course list |
| `Registry.RegistrationSystem.Login` | registration_system.py:120-140 | an admin is returned exactly when some admin's credentials match, and it is the first such admin; a student is returned only when no admin matches, and it is the first matching student; otherwise nobody; with unique usernames the principal returned is the only one that accepts |
| `Registry.RegistrationSystem.FindCourseById` | registration_system.py:307-311 | returns the first course whose id matches ignoring ASCII case, and nothing exactly when no course matches |
| `Registry.RegistrationSystem.IsUsernameTaken` | registration_system.py:314-318 | true exactly when some student or admin has exactly that username |
| `Registry.RegistrationSystem.RegisterNewStudent` | registration_system.py:271-291 | empty username, a username in use, or a password under six characters is refused in that order with nothing changed; otherwise a student with the id from the current count and no courses is appended at the end; username uniqueness and the invariant are kept |
| `Registry.RegistrationSystem.DeleteStudent` | registration_system.py:294-304 | removes only the first student with that exact id, unchanged list if none; course rosters and the other lists are untouched; the invariant and username uniqueness are kept |
| `Registry.RegistrationSystem.CreateNewCourse` | registration_system.py:235-247 | appends exactly one new course at the end with the given fields, capacity 30 when none could be read, and an empty roster |
| `Registry.RegistrationSystem.DeleteExistingCourse` | registration_system.py:250-254 | the first exact-id match decides: it is removed, with true and the others in order, exactly when its roster is empty; otherwise the list is unchanged; students and admins are untouched and the invariant is kept |
| `Registry.RegistrationSystem.RegisterStudentForCourse` | registration_system.py:213-220 | no outcome, and nothing changed, exactly when no course matches ignoring case; otherwise some course is the first match and the outcome is the registration decision for the first matching course, never "already registered"; on success that course is appended to the student's list and the student to its roster, otherwise neither changes; every other roster is unchanged; the invariant is kept |
| `Registry.RegistrationSystem.DropStudentCourse` | registration_system.py:223-232 | "nothing registered" exactly when the student has no courses; otherwise "not found" exactly when no course matches; in both cases nothing changes; else the first match is dropped exactly when it was registered, removing it from the student's list and the student from its roster, and every other roster is unchanged; the invariant is kept |
| `Registry.RegistrationSystem.RegisterInSystem` | student.py:22-23 | the outcome is the registration decision and never "already registered"; on success the course is appended to the student's list and the student to its roster, otherwise neither changes; the invariant is kept |
| `Registry.RegistrationSystem.DropInSystem` | student.py:27-29 | dropped exactly when registered; then the first occurrences leave both lists and no trace of either remains; otherwise neither changes; the invariant is kept |

## Left out

- Loading and saving the JSON data file (registration_system.py:36-87) is file I/O and is not modelled. The constructor models the "no data file" path. Rosters are not persisted, so there is nothing to round-trip.
- The interactive loop, menus, prompts, `.strip()` of console input, all printing and table output, the `view_*` methods and `logout`. Console input becomes method parameters, and printed messages become result values.
- Re-prompting in `register_new_student`: one call models one attempt. A refusal is returned where the source would ask again.
- `int()` parsing of the capacity: the parameter is `Option<int>`, and `None` stands for input that is not a number (default 30).
- Unicode `str.lower`: the case fold is ASCII-only.
- `main.py` only starts the system. It is not part of this model.
- Admins.Admin.DeleteCourse: the source removes from the caller's list in place. The model returns the remaining list, and the system assigns it back to `courses`. Other aliases of that list are not modelled.
- Registry.RegistrationSystem.RegisterStudentForCourse and DropStudentCourse require that the student is one of the system's students. The source only ever passes the logged-in student.
- `isinstance` dispatch after login is modelled by the `Session` datatype. Inheritance from `User` is modelled by composition (`const user: User`).
