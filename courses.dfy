/** A course offering: descriptive fields fixed at creation and a roster of
    enrolled students that `AddStudent` and `RemoveStudent` change in place.
    The roster holds plain objects, compared by identity, and the course
    itself checks nothing: enrolment policy belongs to the student. */
module Courses {

  import opened Collections

  /** Capacity used when the entered maximum is not a number. */
  const DefaultCapacity: int := 30

  class Course {
    const courseId: string
    const courseName: string
    const instructor: string
    const schedule: string
    const maxStudents: int
    var enrolled: seq<object>

    constructor (courseId: string, courseName: string, instructor: string, schedule: string, maxStudents: int)
      ensures this.courseId == courseId && this.courseName == courseName
      ensures this.instructor == instructor && this.schedule == schedule
      ensures this.maxStudents == maxStudents
      ensures enrolled == []
    {
      this.courseId := courseId;
      this.courseName := courseName;
      this.instructor := instructor;
      this.schedule := schedule;
      this.maxStudents := maxStudents;
      enrolled := [];
    }

    function GetCourseId(): string { courseId }
    function GetCourseName(): string { courseName }
    function GetInstructor(): string { instructor }
    function GetSchedule(): string { schedule }
    function GetMaxStudents(): int { maxStudents }
    function GetEnrolledStudents(): seq<object> reads this { enrolled }

    /** No seat is left once the roster has reached the capacity; a
        capacity of zero (or less) is full from the start. */
    predicate IsFull()
      reads this
      ensures maxStudents <= 0 ==> IsFull()
      ensures !IsFull() ==> |enrolled| + 1 <= maxStudents
    {
      |enrolled| >= maxStudents
    }

    /** The roster never exceeds the capacity (an empty roster is always
        acceptable, even under a negative capacity). */
    predicate WithinCapacity()
      reads this
    {
      enrolled == [] || |enrolled| <= maxStudents
    }

    /** Appends unconditionally, whether or not the course is full or the
        student is already on the roster. */
    method AddStudent(student: object)
      modifies this
      ensures enrolled == old(enrolled) + [student]
    {
      enrolled := enrolled + [student];
    }

    /** Removes the first occurrence of `student`; silently does nothing
        when the student is not enrolled. */
    method RemoveStudent(student: object)
      modifies this
      ensures enrolled == RemoveFirst(old(enrolled), student)
      ensures student !in old(enrolled) ==> enrolled == old(enrolled)
      ensures student in old(enrolled) ==> |enrolled| == |old(enrolled)| - 1
    {
      RemoveFirstContents(enrolled, student);
      if student in enrolled {
        enrolled := RemoveFirst(enrolled, student);
      }
    }
  }
}
