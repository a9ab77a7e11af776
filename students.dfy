/** A student: a user with an ordered list of registered courses. The
    student enforces the enrolment policy (capacity, schedule clash,
    duplicate, checked in that order) and keeps its own list and the
    course's roster in step. */
module Students {

  import opened Collections
  import opened Users
  import opened Courses

  datatype RegisterOutcome = Registered | CourseFull | TimeConflict | AlreadyRegistered

  /** Some already registered course has the same schedule string as `course`. */
  predicate Conflicts(registered: seq<Course>, course: Course)
  {
    exists i :: 0 <= i < |registered| && registered[i].schedule == course.schedule
  }

  /** No two courses of the list share a schedule string. */
  predicate DistinctSchedules(courses: seq<Course>)
  {
    forall i, j :: 0 <= i < j < |courses| ==> courses[i].schedule != courses[j].schedule
  }

  /** The outcome of a registration attempt: the checks run in a fixed
      order and the first one that fails decides. */
  function RegisterDecision(full: bool, registered: seq<Course>, course: Course): RegisterOutcome
  {
    if full then CourseFull
    else if Conflicts(registered, course) then TimeConflict
    else if course in registered then AlreadyRegistered
    else Registered
  }

  /** Every course clashes with itself. */
  lemma SelfConflict(registered: seq<Course>, course: Course)
    requires course in registered
    ensures Conflicts(registered, course)
  {
    var i := IndexOf(registered, course);
    assert registered[i].schedule == course.schedule;
  }

  /** The "already registered" answer is never given: a registered course
      reports full or a time conflict with itself before the duplicate
      check is reached. */
  lemma DuplicateBranchUnreachable(full: bool, registered: seq<Course>, course: Course)
    ensures RegisterDecision(full, registered, course) != AlreadyRegistered
    ensures course in registered ==>
              RegisterDecision(full, registered, course) == (if full then CourseFull else TimeConflict)
  {
    if course in registered {
      SelfConflict(registered, course);
    }
  }

  /** A registration succeeds exactly when the course has a free seat and
      no registered course shares its schedule; the course is then new to
      the list. */
  lemma RegisteredIff(full: bool, registered: seq<Course>, course: Course)
    ensures RegisterDecision(full, registered, course) == Registered <==> !full && !Conflicts(registered, course)
    ensures RegisterDecision(full, registered, course) == Registered ==> course !in registered
  {
    if course in registered {
      SelfConflict(registered, course);
    }
  }

  /** Courses with pairwise different schedules are pairwise different objects. */
  lemma DistinctSchedulesNoDuplicates(courses: seq<Course>)
    requires DistinctSchedules(courses)
    ensures NoDuplicates(courses)
  {
    forall i, j | 0 <= i < j < |courses| ensures courses[i] != courses[j] {
      assert courses[i].schedule != courses[j].schedule;
    }
  }

  /** A successful registration keeps the schedules distinct. */
  lemma AppendKeepsDistinctSchedules(courses: seq<Course>, course: Course)
    requires DistinctSchedules(courses) && !Conflicts(courses, course)
    ensures DistinctSchedules(courses + [course])
  {
    forall i, j | 0 <= i < j < |courses + [course]|
      ensures (courses + [course])[i].schedule != (courses + [course])[j].schedule
    {
      assert (courses + [course])[i] == courses[i];
      if j == |courses| {
        assert !(courses[i].schedule == course.schedule);
      }
    }
  }

  /** Dropping a course keeps the schedules distinct. */
  lemma {:induction false} RemoveKeepsDistinctSchedules(courses: seq<Course>, course: Course)
    requires DistinctSchedules(courses)
    ensures DistinctSchedules(RemoveFirst(courses, course))
  {
    if course in courses {
      var r := RemoveFirst(courses, course);
      RemoveFirstContents(courses, course);
      forall p, q | 0 <= p < q < |r| ensures r[p].schedule != r[q].schedule {
        RemoveFirstAt(courses, course, p);
        RemoveFirstAt(courses, course, q);
      }
    }
  }

  class Student {
    const user: User
    var registered: seq<Course>

    constructor (username: string, password: string, studentId: string)
      ensures user == User(username, password, studentId)
      ensures registered == []
    {
      user := User(username, password, studentId);
      registered := [];
    }

    predicate Login(inputUsername: string, inputPassword: string)
    {
      user.Login(inputUsername, inputPassword)
    }

    function GetRegisteredCourses(): seq<Course>
      reads this
    {
      registered
    }

    /** Scans the registered courses for one with the same schedule
        string as `newCourse`, stopping at the first. */
    method HasTimeConflict(newCourse: Course) returns (conflict: bool)
      ensures conflict <==> Conflicts(registered, newCourse)
    {
      var i := 0;
      while i < |registered|
        invariant 0 <= i <= |registered|
        invariant forall k :: 0 <= k < i ==> registered[k].schedule != newCourse.schedule
      {
        if registered[i].GetSchedule() == newCourse.GetSchedule() {
          return true;
        }
        i := i + 1;
      }
      return false;
    }

    /** Registers for `course` unless it is full, clashes with a registered
        course, or is already registered; on success the course joins this
        student's list and this student joins the course's roster, both
        at the end. */
    method RegisterCourse(course: Course) returns (outcome: RegisterOutcome)
      modifies this, course
      ensures outcome == RegisterDecision(old(course.IsFull()), old(registered), course)
      ensures outcome == Registered ==>
                registered == old(registered) + [course] && course.enrolled == old(course.enrolled) + [this]
      ensures outcome != Registered ==>
                registered == old(registered) && course.enrolled == old(course.enrolled)
    {
      if course.IsFull() {
        return CourseFull;
      }
      var conflict := HasTimeConflict(course);
      if conflict {
        return TimeConflict;
      }
      if course in registered {
        return AlreadyRegistered;
      }
      registered := registered + [course];
      course.AddStudent(this);
      return Registered;
    }

    /** Drops `course` when it is registered: it leaves this student's list
        and this student leaves its roster (first occurrences only).
        Otherwise nothing changes. */
    method DropCourse(course: Course) returns (dropped: bool)
      modifies this, course
      ensures dropped <==> course in old(registered)
      ensures dropped ==> registered == RemoveFirst(old(registered), course)
      ensures dropped ==> course.enrolled == RemoveFirst(old(course.enrolled), this)
      ensures !dropped ==> registered == old(registered) && course.enrolled == old(course.enrolled)
    {
      if course in registered {
        registered := RemoveFirst(registered, course);
        course.RemoveStudent(this);
        return true;
      }
      return false;
    }
  }
}
