/** The registration system: the authoritative lists of courses, students
    and administrators, login by scanning them, and the operations that
    route a request to the student, course and administrator models.
    Console prompts become parameters; persistence is not modelled. */
module Registry {

  import opened Collections
  import opened Users
  import opened Courses
  import opened Students
  import opened Admins

  // ---------------------------------------------------------------------
  // Case-insensitive course ids

  /** ASCII case fold of one character. */
  function LowerChar(ch: char): (r: char)
    ensures 'A' <= ch <= 'Z' ==> r as int == ch as int + 32
    ensures !('A' <= ch <= 'Z') ==> r == ch
    ensures !('A' <= r <= 'Z')
  {
    if 'A' <= ch <= 'Z' then (ch as int + 32) as char else ch
  }

  /** The string with every ASCII capital replaced by its small letter. */
  function Lower(s: string): (r: string)
    ensures |r| == |s|
    ensures forall i :: 0 <= i < |s| ==> r[i] == LowerChar(s[i])
  {
    if s == [] then [] else [LowerChar(s[0])] + Lower(s[1..])
  }

  predicate SameIgnoringCase(a: string, b: string)
  {
    Lower(a) == Lower(b)
  }

  /** Folding twice is folding once: a folded id is its own fold. */
  lemma {:induction false} LowerIdempotent(s: string)
    ensures Lower(Lower(s)) == Lower(s)
  {
    var l := Lower(s);
    assert forall i :: 0 <= i < |l| ==> Lower(l)[i] == l[i];
  }

  /** `i` is the position of the first course whose id matches `courseId`
      ignoring case. */
  predicate FirstIgnoringCase(courses: seq<Course>, i: int, courseId: string)
  {
    0 <= i < |courses| && SameIgnoringCase(courses[i].courseId, courseId) &&
    forall k :: 0 <= k < i ==> !SameIgnoringCase(courses[k].courseId, courseId)
  }

  lemma CaseVariantsMatch()
    ensures SameIgnoringCase("cs101", "CS101")
    ensures "cs101" != "CS101"
  {
    assert Lower("cs101") == "cs101";
    assert Lower("CS101") == "cs101";
    assert "cs101"[0] != "CS101"[0];
  }

  // ---------------------------------------------------------------------
  // Generated student ids: "S" and the next count, zero-padded to three digits

  predicate IsDigit(ch: char)
  {
    '0' <= ch <= '9'
  }

  predicate AllDigits(s: string)
  {
    forall i :: 0 <= i < |s| ==> IsDigit(s[i])
  }

  function DigitChar(d: nat): (ch: char)
    requires d < 10
    ensures IsDigit(ch) && ch as int - '0' as int == d
  {
    ('0' as int + d) as char
  }

  /** Decimal notation of `n` without leading zeros. */
  function DecimalString(n: nat): (s: string)
    ensures |s| >= 1 && AllDigits(s)
    ensures s[0] == '0' ==> n == 0
  {
    if n < 10 then [DigitChar(n)] else DecimalString(n / 10) + [DigitChar(n % 10)]
  }

  /** Left-pads `s` with '0' up to `width` characters; longer strings are kept. */
  function ZeroPad(s: string, width: nat): (r: string)
    ensures |s| >= width ==> r == s
    ensures |s| < width ==> |r| == width && r[width - |s|..] == s
    ensures forall i :: 0 <= i < |r| - |s| ==> r[i] == '0'
    ensures AllDigits(s) ==> AllDigits(r)
  {
    if |s| >= width then s else seq(width - |s|, _ => '0') + s
  }

  /** The value a string of decimal digits denotes. */
  function DecimalValue(s: string): nat
    requires AllDigits(s)
  {
    if s == [] then 0 else 10 * DecimalValue(s[..|s| - 1]) + (s[|s| - 1] as int - '0' as int)
  }

  /** The id given to the next student, computed from the number of
      students alone. */
  function StudentIdFor(studentCount: nat): (id: string)
    ensures |id| >= 4 && id[0] == 'S' && AllDigits(id[1..])
    ensures |id| > 4 ==> id[1] != '0'
  {
    "S" + ZeroPad(DecimalString(studentCount + 1), 3)
  }

  lemma {:induction false} DecimalRoundTrip(n: nat)
    ensures DecimalValue(DecimalString(n)) == n
  {
    if n >= 10 {
      DecimalRoundTrip(n / 10);
      var s := DecimalString(n);
      assert s[..|s| - 1] == DecimalString(n / 10);
    }
  }

  lemma {:induction false} ZerosValue(k: nat)
    ensures DecimalValue(seq(k, _ => '0')) == 0
  {
    if k > 0 {
      ZerosValue(k - 1);
      assert seq(k, _ => '0')[..k - 1] == seq(k - 1, _ => '0');
    }
  }

  lemma {:induction false} LeadingZerosValue(k: nat, s: string)
    requires AllDigits(s)
    ensures AllDigits(seq(k, _ => '0') + s)
    ensures DecimalValue(seq(k, _ => '0') + s) == DecimalValue(s)
  {
    var z := seq(k, _ => '0');
    if s == [] {
      assert z + s == z;
      ZerosValue(k);
    } else {
      var t := z + s;
      assert t[..|t| - 1] == z + s[..|s| - 1];
      LeadingZerosValue(k, s[..|s| - 1]);
    }
  }

  /** The digits of a generated id read back as the student count plus one. */
  lemma StudentIdRoundTrip(studentCount: nat)
    ensures DecimalValue(StudentIdFor(studentCount)[1..]) == studentCount + 1
  {
    var d := DecimalString(studentCount + 1);
    DecimalRoundTrip(studentCount + 1);
    assert StudentIdFor(studentCount)[1..] == ZeroPad(d, 3);
    if |d| < 3 {
      LeadingZerosValue(3 - |d|, d);
    }
  }

  /** Different student counts give different ids, and equal counts give
      equal ones: an id is reissued whenever the count returns to an
      earlier value. */
  lemma StudentIdInjective(a: nat, b: nat)
    ensures StudentIdFor(a) == StudentIdFor(b) <==> a == b
  {
    if StudentIdFor(a) == StudentIdFor(b) {
      StudentIdRoundTrip(a);
      StudentIdRoundTrip(b);
    }
  }

  /** Ids come from the count alone, so after deleting any student but the
      last, the next generated id is the id of the last student, who is
      still in the list. */
  lemma IdReissuedAfterDeletion(students: seq<Student>, i: nat)
    requires i < |students| - 1
    requires students[|students| - 1].user.userId == StudentIdFor(|students| - 1)
    ensures var rest := students[..i] + students[i + 1..];
            |rest| == |students| - 1 && rest[|rest| - 1] == students[|students| - 1] &&
            rest[|rest| - 1].user.userId == StudentIdFor(|rest|)
  {
    var rest := students[..i] + students[i + 1..];
    assert rest[|rest| - 1] == students[i + 1..][|students| - i - 2];
  }

  // ---------------------------------------------------------------------
  // The system

  const MinPasswordLength: nat := 6

  /** Who logged in: an administrator, a student, or nobody. */
  datatype Session = AdminSession(admin: Admin) | StudentSession(student: Student) | NoSession

  /** Why a sign-up attempt is refused, or the id of the new student. */
  datatype SignUp = Created(studentId: string) | EmptyUsername | UsernameTaken | WeakPassword

  /** What a drop request from the student menu led to. */
  datatype DropRequest = NothingRegistered | DropCourseNotFound | DropAttempted(dropped: bool)

  /** `c` carries exactly these fields and an empty roster. */
  ghost predicate HasFields(c: Course, courseId: string, courseName: string, instructor: string,
                            schedule: string, maxStudents: int)
    reads c
  {
    c.courseId == courseId && c.courseName == courseName && c.instructor == instructor &&
    c.schedule == schedule && c.maxStudents == maxStudents && c.enrolled == []
  }

  /** `i` is the position of the first student whose id is exactly `studentId`. */
  predicate FirstWithUserId(students: seq<Student>, i: int, studentId: string)
  {
    0 <= i < |students| && students[i].user.userId == studentId &&
    forall k :: 0 <= k < i ==> students[k].user.userId != studentId
  }

  class RegistrationSystem {
    var courses: seq<Course>
    var students: seq<Student>
    var admins: seq<Admin>

    /** The invariant the enrolment operations keep: a course is in a
        student's list exactly when the student is on the course's roster,
        rosters stay within capacity and without repeats, and no student has
        two courses with the same schedule. */
    ghost predicate Valid()
      reads this, courses, students
    {
      Mirrored() && RostersWithinCapacity() && SchedulesDistinct()
    }

    /** A course is in a student's list exactly when the student is on the
        course's roster. */
    ghost predicate Mirrored()
      reads this, courses, students
    {
      forall s, c :: s in students && c in courses ==> (c in s.registered <==> s in c.enrolled)
    }

    ghost predicate RostersWithinCapacity()
      reads this, courses
    {
      forall c :: c in courses ==> c.WithinCapacity() && NoDuplicates(c.enrolled)
    }

    ghost predicate SchedulesDistinct()
      reads this, students
    {
      forall s :: s in students ==> DistinctSchedules(s.registered)
    }

    /** No two principals, students and administrators together, share a username. */
    ghost predicate UsernamesUnique()
      reads this
    {
      (forall i, j :: 0 <= i < j < |students| ==> students[i].user.username != students[j].user.username) &&
      (forall i, j :: 0 <= i < j < |admins| ==> admins[i].user.username != admins[j].user.username) &&
      (forall i, j :: 0 <= i < |students| && 0 <= j < |admins| ==>
         students[i].user.username != admins[j].user.username)
    }

    /** Some student or administrator has exactly this username. */
    ghost predicate UsernameInUse(username: string)
      reads this
    {
      (exists i :: 0 <= i < |students| && students[i].user.username == username) ||
      (exists j :: 0 <= j < |admins| && admins[j].user.username == username)
    }

    /** A fresh system with nothing loaded: the seeding fills every list. */
    constructor ()
      ensures Valid() && UsernamesUnique()
      ensures |admins| == 1 && admins[0].user == User("admin", "admin123", "A001")
      ensures |students| == 2
      ensures fresh(admins[0]) && fresh(students[0]) && fresh(students[1])
      ensures students[0].user == User("john", "password1", "S001") && students[0].registered == []
      ensures students[1].user == User("emma", "password2", "S002") && students[1].registered == []
      ensures |courses| == 3 && fresh(courses[0]) && fresh(courses[1]) && fresh(courses[2])
      ensures HasFields(courses[0], "CS101", "Introduction to Programming", "Dr. Smith", "MWF 10-11", 30)
      ensures HasFields(courses[1], "MATH201", "Calculus I", "Prof. Johnson", "TTH 1-2:30", 25)
      ensures HasFields(courses[2], "ENG101", "English Composition", "Dr. Williams", "MWF 2-3", 20)
    {
      courses, students, admins := [], [], [];
      new;
      InitializeSampleData();
    }

    /** Seeds each list with its sample entries, independently and only
        when that list is empty; a non-empty list is left alone. */
    method InitializeSampleData()
      requires Valid()
      modifies this
      ensures Valid()
      ensures old(admins) != [] ==> admins == old(admins)
      ensures old(admins) == [] ==>
                |admins| == 1 && fresh(admins[0]) && admins[0].user == User("admin", "admin123", "A001")
      ensures old(students) != [] ==> students == old(students)
      ensures old(students) == [] ==>
                |students| == 2 && fresh(students[0]) && fresh(students[1]) &&
                students[0].user == User("john", "password1", "S001") && students[0].registered == [] &&
                students[1].user == User("emma", "password2", "S002") && students[1].registered == []
      ensures old(courses) != [] ==> courses == old(courses)
      ensures old(courses) == [] ==>
                |courses| == 3 && fresh(courses[0]) && fresh(courses[1]) && fresh(courses[2]) &&
                HasFields(courses[0], "CS101", "Introduction to Programming", "Dr. Smith", "MWF 10-11", 30) &&
                HasFields(courses[1], "MATH201", "Calculus I", "Prof. Johnson", "TTH 1-2:30", 25) &&
                HasFields(courses[2], "ENG101", "English Composition", "Dr. Williams", "MWF 2-3", 20)
    {
      if admins == [] {
        SeedAdmins();
      }
      if students == [] {
        SeedStudents();
      }
      if courses == [] {
        SeedCourses();
      }
    }

    method SeedAdmins()
      requires Valid()
      modifies this
      ensures Valid()
      ensures students == old(students) && courses == old(courses)
      ensures |admins| == |old(admins)| + 1 && admins[..|old(admins)|] == old(admins)
      ensures fresh(admins[|old(admins)|]) && admins[|old(admins)|].user == User("admin", "admin123", "A001")
    {
      var a := new Admin("admin", "admin123", "A001");
      admins := admins + [a];
    }

    method SeedStudents()
      requires Valid() && students == []
      modifies this
      ensures Valid()
      ensures admins == old(admins) && courses == old(courses)
      ensures |students| == 2 && fresh(students[0]) && fresh(students[1])
      ensures students[0].user == User("john", "password1", "S001") && students[0].registered == []
      ensures students[1].user == User("emma", "password2", "S002") && students[1].registered == []
    {
      var john := new Student("john", "password1", "S001");
      var emma := new Student("emma", "password2", "S002");
      students := [john, emma];
      forall s, c | s in students && c in courses ensures c !in s.registered && s !in c.enrolled {
        assert old(allocated(c.enrolled));
      }
    }

    method SeedCourses()
      requires Valid() && courses == []
      modifies this
      ensures Valid()
      ensures admins == old(admins) && students == old(students)
      ensures |courses| == 3 && fresh(courses[0]) && fresh(courses[1]) && fresh(courses[2])
      ensures HasFields(courses[0], "CS101", "Introduction to Programming", "Dr. Smith", "MWF 10-11", 30)
      ensures HasFields(courses[1], "MATH201", "Calculus I", "Prof. Johnson", "TTH 1-2:30", 25)
      ensures HasFields(courses[2], "ENG101", "English Composition", "Dr. Williams", "MWF 2-3", 20)
    {
      var cs := new Course("CS101", "Introduction to Programming", "Dr. Smith", "MWF 10-11", 30);
      var math := new Course("MATH201", "Calculus I", "Prof. Johnson", "TTH 1-2:30", 25);
      var eng := new Course("ENG101", "English Composition", "Dr. Williams", "MWF 2-3", 20);
      courses := [cs, math, eng];
      forall s, c | s in students && c in courses ensures c !in s.registered && s !in c.enrolled {
        assert old(allocated(s.registered));
      }
    }

    /** With unique usernames, at most one principal, administrators and
        students together, accepts a credential pair. */
    lemma CredentialsHeldOnce(username: string, password: string)
      requires UsernamesUnique()
      ensures forall i, j ::
                0 <= i < |admins| && 0 <= j < |admins| &&
                admins[i].Login(username, password) && admins[j].Login(username, password)
                ==> i == j
      ensures forall i, j ::
                0 <= i < |students| && 0 <= j < |students| &&
                students[i].Login(username, password) && students[j].Login(username, password)
                ==> i == j
      ensures forall i, j :: 0 <= i < |admins| && 0 <= j < |students| ==>
                !(admins[i].Login(username, password) && students[j].Login(username, password))
    {
    }

    /** Tries the administrators first and then the students, each in list
        order, and returns the first principal whose credentials match: an
        administrator wins over a student with the same credentials. With
        unique usernames the principal returned is the only one that accepts. */
    method Login(username: string, password: string) returns (session: Session)
      ensures session.AdminSession? <==> exists i :: 0 <= i < |admins| && admins[i].Login(username, password)
      ensures session.AdminSession? ==>
                exists i :: 0 <= i < |admins| && admins[i] == session.admin && admins[i].Login(username, password) &&
                  forall k :: 0 <= k < i ==> !admins[k].Login(username, password)
      ensures session.StudentSession? <==>
                (forall i :: 0 <= i < |admins| ==> !admins[i].Login(username, password)) &&
                exists i :: 0 <= i < |students| && students[i].Login(username, password)
      ensures session.StudentSession? ==>
                exists i :: 0 <= i < |students| && students[i] == session.student &&
                  students[i].Login(username, password) &&
                  forall k :: 0 <= k < i ==> !students[k].Login(username, password)
      ensures UsernamesUnique() && session.AdminSession? ==>
                (forall k :: 0 <= k < |admins| && admins[k].Login(username, password) ==> admins[k] == session.admin) &&
                (forall k :: 0 <= k < |students| ==> !students[k].Login(username, password))
      ensures UsernamesUnique() && session.StudentSession? ==>
                forall k :: 0 <= k < |students| && students[k].Login(username, password) ==> students[k] == session.student
    {
      if UsernamesUnique() {
        CredentialsHeldOnce(username, password);
      }
      var i := 0;
      while i < |admins|
        invariant 0 <= i <= |admins|
        invariant forall k :: 0 <= k < i ==> !admins[k].Login(username, password)
      {
        if admins[i].Login(username, password) {
          return AdminSession(admins[i]);
        }
        i := i + 1;
      }
      var j := 0;
      while j < |students|
        invariant 0 <= j <= |students|
        invariant forall k :: 0 <= k < j ==> !students[k].Login(username, password)
      {
        if students[j].Login(username, password) {
          return StudentSession(students[j]);
        }
        j := j + 1;
      }
      return NoSession;
    }

    /** The first course whose id matches `courseId` ignoring letter case. */
    method FindCourseById(courseId: string) returns (found: Option<Course>)
      ensures found.None? <==> forall i :: 0 <= i < |courses| ==> !SameIgnoringCase(courses[i].courseId, courseId)
      ensures found.Some? ==> exists i :: FirstIgnoringCase(courses, i, courseId) && courses[i] == found.value
    {
      var i := 0;
      while i < |courses|
        invariant 0 <= i <= |courses|
        invariant forall k :: 0 <= k < i ==> !SameIgnoringCase(courses[k].courseId, courseId)
      {
        if Lower(courses[i].GetCourseId()) == Lower(courseId) {
          return Some(courses[i]);
        }
        i := i + 1;
      }
      return None;
    }

    /** Whether some student or administrator has exactly this username. */
    method IsUsernameTaken(username: string) returns (taken: bool)
      ensures taken <==> UsernameInUse(username)
    {
      var i := 0;
      while i < |students|
        invariant 0 <= i <= |students|
        invariant forall k :: 0 <= k < i ==> students[k].user.GetUsername() != username
      {
        if students[i].user.GetUsername() == username {
          return true;
        }
        i := i + 1;
      }
      var j := 0;
      while j < |admins|
        invariant 0 <= j <= |admins|
        invariant forall k :: 0 <= k < j ==> admins[k].user.GetUsername() != username
      {
        if admins[j].user.GetUsername() == username {
          return true;
        }
        j := j + 1;
      }
      return false;
    }

    /** One sign-up attempt. The id comes from the current number of
        students; the username must be non-empty and not in use, the
        password at least six characters long. An accepted student is
        appended with no courses. */
    method RegisterNewStudent(username: string, password: string) returns (outcome: SignUp)
      requires Valid()
      modifies this
      ensures Valid()
      ensures courses == old(courses) && admins == old(admins)
      ensures username == [] ==> outcome == EmptyUsername
      ensures username != [] && old(UsernameInUse(username)) ==> outcome == UsernameTaken
      ensures username != [] && !old(UsernameInUse(username)) && |password| < MinPasswordLength ==>
                outcome == WeakPassword
      ensures outcome.Created? <==>
                username != [] && !old(UsernameInUse(username)) && |password| >= MinPasswordLength
      ensures outcome.Created? ==>
                outcome.studentId == StudentIdFor(|old(students)|) &&
                |students| == |old(students)| + 1 && students[..|old(students)|] == old(students) &&
                fresh(students[|old(students)|]) &&
                students[|old(students)|].user == User(username, password, outcome.studentId) &&
                students[|old(students)|].registered == []
      ensures !outcome.Created? ==> students == old(students)
      ensures old(UsernamesUnique()) ==> UsernamesUnique()
    {
      var studentId := StudentIdFor(|students|);
      if username == [] {
        return EmptyUsername;
      }
      var taken := IsUsernameTaken(username);
      if taken {
        return UsernameTaken;
      }
      if |password| < MinPasswordLength {
        return WeakPassword;
      }
      var student := new Student(username, password, studentId);
      students := students + [student];
      return Created(studentId);
    }

    /** Removes the first student whose id equals `studentId`; with no such
        student the list is unchanged. Course rosters are not touched. */
    method DeleteStudent(studentId: string) returns (deleted: bool)
      requires Valid()
      modifies this
      ensures Valid()
      ensures courses == old(courses) && admins == old(admins)
      ensures deleted <==> exists i :: 0 <= i < |old(students)| && old(students)[i].user.userId == studentId
      ensures forall i :: FirstWithUserId(old(students), i, studentId) ==>
                deleted && students == old(students)[..i] + old(students)[i + 1..]
      ensures deleted ==> exists i :: FirstWithUserId(old(students), i, studentId)
      ensures !deleted ==> students == old(students)
      ensures forall c :: c in courses ==> c.enrolled == old(c.enrolled)
      ensures old(UsernamesUnique()) ==> UsernamesUnique()
    {
      var i := 0;
      while i < |students|
        invariant 0 <= i <= |students|
        invariant students == old(students)
        invariant forall k :: 0 <= k < i ==> students[k].user.GetUserId() != studentId
      {
        if students[i].user.GetUserId() == studentId {
          assert FirstWithUserId(students, i, studentId);
          assert forall j :: FirstWithUserId(students, j, studentId) ==> j == i;
          students := students[..i] + students[i + 1..];
          return true;
        }
        i := i + 1;
      }
      return false;
    }

    /** Appends one new course with the given fields and an empty roster;
        a capacity that could not be read defaults to 30. */
    method CreateNewCourse(courseId: string, courseName: string, instructor: string, schedule: string,
                           maxStudents: Option<int>)
      requires Valid()
      modifies this
      ensures Valid()
      ensures students == old(students) && admins == old(admins)
      ensures |courses| == |old(courses)| + 1 && courses[..|old(courses)|] == old(courses)
      ensures fresh(courses[|old(courses)|])
      ensures HasFields(courses[|old(courses)|], courseId, courseName, instructor, schedule,
                             if maxStudents.Some? then maxStudents.value else DefaultCapacity)
    {
      var capacity := if maxStudents.Some? then maxStudents.value else DefaultCapacity;
      var course := new Course(courseId, courseName, instructor, schedule, capacity);
      courses := courses + [course];
    }

    /** The administrator's deletion applied to the system's course list. */
    method DeleteExistingCourse(admin: Admin, courseId: string) returns (deleted: bool)
      requires Valid()
      modifies this
      ensures Valid()
      ensures students == old(students) && admins == old(admins)
      ensures !deleted ==> courses == old(courses)
      ensures forall i :: FirstWithId(old(courses), i, courseId) ==>
                (deleted <==> old(courses)[i].enrolled == []) &&
                (deleted ==> courses == old(courses)[..i] + old(courses)[i + 1..])
      ensures deleted ==>
                exists i :: FirstWithId(old(courses), i, courseId) && old(courses)[i].enrolled == [] &&
                  courses == old(courses)[..i] + old(courses)[i + 1..]
    {
      deleted, courses := admin.DeleteCourse(courses, courseId);
    }

    /** A student's registration request: the course is looked up ignoring
        case and, when found, the student's own checks decide. `None`
        means no course matched. */
    method RegisterStudentForCourse(student: Student, courseId: string) returns (outcome: Option<RegisterOutcome>)
      requires Valid() && student in students
      modifies courses, student
      ensures Valid()
      ensures courses == old(courses) && students == old(students) && admins == old(admins)
      ensures outcome.None? <==> forall i :: 0 <= i < |courses| ==> !SameIgnoringCase(courses[i].courseId, courseId)
      ensures outcome != Some(AlreadyRegistered)
      ensures outcome.Some? ==> exists i :: FirstIgnoringCase(courses, i, courseId)
      ensures outcome.None? ==>
                student.registered == old(student.registered) &&
                forall c :: c in courses ==> c.enrolled == old(c.enrolled)
      ensures forall i :: FirstIgnoringCase(courses, i, courseId) ==>
                outcome == Some(RegisterDecision(old(courses[i].IsFull()), old(student.registered), courses[i])) &&
                (outcome == Some(Registered) ==>
                   student.registered == old(student.registered) + [courses[i]] &&
                   courses[i].enrolled == old(courses[i].enrolled) + [student]) &&
                (outcome != Some(Registered) ==>
                   student.registered == old(student.registered) && courses[i].enrolled == old(courses[i].enrolled)) &&
                forall c :: c in courses && c != courses[i] ==> c.enrolled == old(c.enrolled)
    {
      var found := FindCourseById(courseId);
      if found.None? {
        return None;
      }
      var course := found.value;
      var r := RegisterInSystem(student, course);
      return Some(r);
    }

    /** A student's drop request: nothing happens when the student has no
        courses; otherwise the course is looked up ignoring case and, when
        found, dropped if registered. */
    method DropStudentCourse(student: Student, courseId: string) returns (outcome: DropRequest)
      requires Valid() && student in students
      modifies courses, student
      ensures Valid()
      ensures courses == old(courses) && students == old(students) && admins == old(admins)
      ensures outcome == NothingRegistered <==> old(student.registered) == []
      ensures old(student.registered) != [] ==>
                (outcome == DropCourseNotFound <==>
                   forall i :: 0 <= i < |courses| ==> !SameIgnoringCase(courses[i].courseId, courseId))
      ensures !outcome.DropAttempted? ==>
                student.registered == old(student.registered) &&
                forall c :: c in courses ==> c.enrolled == old(c.enrolled)
      ensures outcome.DropAttempted? ==> exists i :: FirstIgnoringCase(courses, i, courseId)
      ensures forall i :: outcome.DropAttempted? && FirstIgnoringCase(courses, i, courseId) ==>
                (outcome.dropped <==> courses[i] in old(student.registered)) &&
                (outcome.dropped ==>
                   student.registered == RemoveFirst(old(student.registered), courses[i]) &&
                   courses[i].enrolled == RemoveFirst(old(courses[i].enrolled), student)) &&
                (!outcome.dropped ==>
                   student.registered == old(student.registered) && courses[i].enrolled == old(courses[i].enrolled)) &&
                forall c :: c in courses && c != courses[i] ==> c.enrolled == old(c.enrolled)
    {
      if student.GetRegisteredCourses() == [] {
        return NothingRegistered;
      }
      var found := FindCourseById(courseId);
      if found.None? {
        return DropCourseNotFound;
      }
      var course := found.value;
      var dropped := DropInSystem(student, course);
      return DropAttempted(dropped);
    }

    /** `Student.RegisterCourse` on a student and a course of the system,
        with the proof that the invariant survives it. */
    method RegisterInSystem(student: Student, course: Course) returns (outcome: RegisterOutcome)
      requires Valid() && student in students && course in courses
      modifies student, course
      ensures Valid()
      ensures outcome == RegisterDecision(old(course.IsFull()), old(student.registered), course)
      ensures outcome != AlreadyRegistered
      ensures outcome == Registered ==>
                student.registered == old(student.registered) + [course] &&
                course.enrolled == old(course.enrolled) + [student]
      ensures outcome != Registered ==>
                student.registered == old(student.registered) && course.enrolled == old(course.enrolled)
    {
      DuplicateBranchUnreachable(course.IsFull(), student.registered, course);
      RegisteredIff(course.IsFull(), student.registered, course);
      ghost var oldRoster := course.enrolled;
      ghost var oldList := student.registered;
      outcome := student.RegisterCourse(course);
      if outcome == Registered {
        assert student !in oldRoster;
        AppendNoDuplicates(oldRoster, student);
        AppendKeepsDistinctSchedules(oldList, course);
      }
    }

    /** `Student.DropCourse` on a student and a course of the system, with
        the proof that the invariant survives it. */
    method DropInSystem(student: Student, course: Course) returns (dropped: bool)
      requires Valid() && student in students && course in courses
      modifies student, course
      ensures Valid()
      ensures dropped <==> course in old(student.registered)
      ensures dropped ==>
                student.registered == RemoveFirst(old(student.registered), course) &&
                course.enrolled == RemoveFirst(old(course.enrolled), student)
      ensures dropped ==> course !in student.registered && student !in course.enrolled
      ensures !dropped ==> student.registered == old(student.registered) && course.enrolled == old(course.enrolled)
    {
      ghost var oldRoster := course.enrolled;
      ghost var oldList := student.registered;
      dropped := student.DropCourse(course);
      if dropped {
        assert Mirrored() by {
          RemoveFirstMembers(oldRoster, student);
          RemoveFirstMembers(oldList, course);
          RemoveFirstNoDuplicates(oldRoster, student);
          DistinctSchedulesNoDuplicates(oldList);
          RemoveFirstNoDuplicates(oldList, course);
          forall s, c | s in students && c in courses ensures c in s.registered <==> s in c.enrolled {
            assert old(c in s.registered <==> s in c.enrolled);
          }
        }
        assert RostersWithinCapacity() by {
          RemoveFirstNoDuplicates(oldRoster, student);
        }
        assert SchedulesDistinct() by {
          RemoveKeepsDistinctSchedules(oldList, course);
        }
      }
    }
  }
}
