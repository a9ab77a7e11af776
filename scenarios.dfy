/** Client code that drives the model through short sessions and checks,
    from the contracts alone, the outcomes the system is meant to give. */
module Scenarios {

  import opened Collections
  import opened Courses
  import opened Students
  import opened Admins
  import opened Registry

  /** A course of capacity one takes one student, refuses the next, and
      takes the second once the first has dropped. */
  method CapacityOneScenario()
  {
    var cs := new Course("CS101", "Intro", "Dr. Smith", "MWF10", 1);
    var a := new Student("alice", "secret1", "S001");
    var b := new Student("bob", "secret2", "S002");
    var r := a.RegisterCourse(cs);
    assert r == Registered;
    r := b.RegisterCourse(cs);
    assert r == CourseFull;
    var dropped := a.DropCourse(cs);
    assert dropped && cs.enrolled == [] && a.registered == [];
    r := b.RegisterCourse(cs);
    assert r == Registered && cs.enrolled == [b];
  }

  /** Two courses in the same time slot: the second is refused as a clash,
      and so is registering the first one again. */
  method ConflictScenario()
  {
    var cs := new Course("CS101", "Intro", "Dr. Smith", "MWF10", 30);
    var math := new Course("MATH1", "Algebra", "Prof. Johnson", "MWF10", 30);
    var s := new Student("alice", "secret1", "S001");
    var r := s.RegisterCourse(cs);
    assert r == Registered;
    assert s.registered[0].schedule == math.schedule;
    r := s.RegisterCourse(math);
    assert r == TimeConflict && math.enrolled == [];
    r := s.RegisterCourse(cs);
    assert r == TimeConflict && s.registered == [cs];
    var dropped := s.DropCourse(math);
    assert !dropped && s.registered == [cs];
  }

  /** An administrator and a student with the same credentials: login
      picks the administrator. */
  method AdminWinsLoginScenario()
  {
    var sys := new RegistrationSystem();
    var adm := new Admin("pat", "pw1234", "A009");
    var st := new Student("pat", "pw1234", "S009");
    sys.admins := [adm];
    sys.students := [st];
    var session := sys.Login("pat", "pw1234");
    assert sys.admins[0].Login("pat", "pw1234");
    assert session == AdminSession(adm);
    session := sys.Login("pat", "wrong");
    assert session == NoSession;
  }

  /** A course with a student on its roster is not deleted. */
  method DeleteGuardScenario()
  {
    var adm := new Admin("admin", "admin123", "A001");
    var cs := adm.CreateCourse("CS101", "Intro", "Dr. Smith", "MWF10", 30);
    var eng := adm.CreateCourse("ENG101", "English", "Dr. Williams", "MWF2", 20);
    var s := new Student("alice", "secret1", "S001");
    var r := s.RegisterCourse(cs);
    var deleted, remaining := adm.DeleteCourse([cs, eng], "CS101");
    assert FirstWithId([cs, eng], 0, "CS101");
    assert !deleted && remaining == [cs, eng];
    deleted, remaining := adm.DeleteCourse([cs, eng], "eng101");
    assert !deleted && remaining == [cs, eng];
    deleted, remaining := adm.DeleteCourse([cs, eng], "ENG101");
    assert FirstWithId([cs, eng], 1, "ENG101");
    assert deleted && remaining == [cs];
  }

  /** The id generated while one student is on the list. */
  lemma SecondStudentId()
    ensures StudentIdFor(1) == "S002"
  {
    assert DecimalString(2) == "2";
    assert ZeroPad("2", 3) == "002";
  }

  /** Starting from the seeded system, deleting S001 and signing up a new
      student hands out S002 a second time: the id comes from the count,
      and emma still holds S002. */
  method IdRepeatsAfterDeletion() returns (sys: RegistrationSystem, outcome: SignUp)
    ensures outcome == Created("S002")
    ensures |sys.students| == 2
    ensures sys.students[0].user.userId == "S002" && sys.students[1].user.userId == "S002"
    ensures sys.students[0] != sys.students[1]
  {
    sys := new RegistrationSystem();
    ghost var john, emma := sys.students[0], sys.students[1];
    assert john.user.userId == "S001" && emma.user.userId == "S002";
    var deleted := sys.DeleteStudent("S001");
    assert FirstWithUserId([john, emma], 0, "S001");
    assert sys.students == [emma];
    assert !sys.UsernameInUse("zoe");
    SecondStudentId();
    outcome := sys.RegisterNewStudent("zoe", "secret9");
    assert sys.students[1] != emma;
  }

  /** The seeded administrator logs in, and the seeded course CS101 is found
      under its lower-case id. */
  method SeededSystemScenario()
  {
    var sys := new RegistrationSystem();
    var session := sys.Login("admin", "admin123");
    assert sys.admins[0].Login("admin", "admin123");
    assert session.AdminSession?;
    assert Lower("cs101") == Lower(sys.courses[0].courseId) by {
      assert Lower("cs101") == "cs101";
      assert Lower("CS101") == "cs101";
    }
    var found := sys.FindCourseById("cs101");
    assert found == Some(sys.courses[0]);
  }

  /** On the seeded system john registers for "cs101", which is CS101. */
  method SeededRegisterScenario() returns (sys: RegistrationSystem)
  {
    sys := new RegistrationSystem();
    var john := sys.students[0];
    var cs := sys.courses[0];
    assert Lower("cs101") == Lower(cs.courseId) by {
      assert Lower("cs101") == "cs101";
      assert Lower("CS101") == "cs101";
    }
    assert FirstIgnoringCase(sys.courses, 0, "cs101");
    var r := sys.RegisterStudentForCourse(john, "cs101");
    assert r == Some(Registered) && cs.enrolled == [john] && john.registered == [cs];
    assert FirstWithId(sys.courses, 0, "CS101");
    var deleted := sys.DeleteExistingCourse(sys.admins[0], "CS101");
    assert !deleted && sys.courses[0] == cs;
  }

  /** Continuing from there: john drops "cs101", after which the deletion
      of CS101 goes through. */
  method DropThenDeleteScenario(sys: RegistrationSystem, john: Student, admin: Admin)
    requires sys.Valid() && john in sys.students && |sys.courses| == 3
    requires sys.courses[0].courseId == "CS101"
    requires sys.courses[0].enrolled == [john] && john.registered == [sys.courses[0]]
    modifies sys, sys.courses, john
  {
    var cs := sys.courses[0];
    assert Lower("cs101") == Lower(cs.courseId) by {
      assert Lower("cs101") == "cs101";
      assert Lower("CS101") == "cs101";
    }
    assert FirstIgnoringCase(sys.courses, 0, "cs101");
    var d := sys.DropStudentCourse(john, "cs101");
    assert d == DropAttempted(true);
    assert cs.enrolled == [];
    assert FirstWithId(sys.courses, 0, "CS101");
    var deleted := sys.DeleteExistingCourse(admin, "CS101");
    assert deleted && |sys.courses| == 2;
  }
}
