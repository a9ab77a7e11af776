/** An administrator: a user who creates courses and deletes empty ones
    from a course list owned by the caller. */
module Admins {

  import opened Users
  import opened Courses

  /** `i` is the position of the first course whose id is exactly `courseId`. */
  predicate FirstWithId(courses: seq<Course>, i: int, courseId: string)
  {
    0 <= i < |courses| && courses[i].courseId == courseId &&
    forall k :: 0 <= k < i ==> courses[k].courseId != courseId
  }

  class Admin {
    const user: User

    constructor (username: string, password: string, adminId: string)
      ensures user == User(username, password, adminId)
    {
      user := User(username, password, adminId);
    }

    predicate Login(inputUsername: string, inputPassword: string)
    {
      user.Login(inputUsername, inputPassword)
    }

    /** Builds a new course with exactly the given fields and an empty
        roster; it is not added to any list. */
    method CreateCourse(courseId: string, courseName: string, instructor: string, schedule: string, maxStudents: int)
      returns (course: Course)
      ensures fresh(course)
      ensures course.courseId == courseId && course.courseName == courseName
      ensures course.instructor == instructor && course.schedule == schedule
      ensures course.maxStudents == maxStudents && course.enrolled == []
    {
      course := new Course(courseId, courseName, instructor, schedule, maxStudents);
    }

    /** Looks for the first course whose id equals `courseId` exactly (case
        matters). That course alone decides: it is deleted, and `deleted`
        is true, only when its roster is empty. With no such course, or a
        non-empty roster, the list is handed back unchanged. `remaining` is
        the caller's list after the in-place removal. */
    method DeleteCourse(courses: seq<Course>, courseId: string) returns (deleted: bool, remaining: seq<Course>)
      ensures (forall k :: 0 <= k < |courses| ==> courses[k].courseId != courseId) ==>
                !deleted && remaining == courses
      ensures forall i :: FirstWithId(courses, i, courseId) ==>
                (deleted <==> courses[i].enrolled == []) &&
                remaining == (if deleted then courses[..i] + courses[i + 1..] else courses)
      ensures !deleted ==> remaining == courses
      ensures deleted ==>
                exists i :: FirstWithId(courses, i, courseId) && courses[i].enrolled == [] &&
                  remaining == courses[..i] + courses[i + 1..]
    {
      var i := 0;
      while i < |courses|
        invariant 0 <= i <= |courses|
        invariant forall k :: 0 <= k < i ==> courses[k].courseId != courseId
      {
        var course := courses[i];
        if course.GetCourseId() == courseId {
          if course.GetEnrolledStudents() == [] {
            // The first occurrence of this object is at `i`: an earlier one
            // would have had the same id.
            return true, courses[..i] + courses[i + 1..];
          } else {
            return false, courses;
          }
        }
        i := i + 1;
      }
      return false, courses;
    }
  }
}
