/**
 * The relational store the handlers query: one table per entity, each with a serial id, and
 * the uniqueness constraint of the attendance table on (student_id, course_id, date).
 */
module Db {
  import opened Wrappers
  import opened Tables

  /** users: `password` holds the bcrypt hash; `telefono` is nullable. */
  datatype User = User(name: string, email: string, password: string, telefono: Option<string>, role: string)

  /** students: the profile of a users row with role "student". */
  datatype Student = Student(userId: int)

  /** teachers: the profile of a users row with role "teacher". */
  datatype Teacher = Teacher(userId: int, specialty: string, createdAt: int)

  /** courses: `teacher_id` is a nullable reference to teachers.id. */
  datatype Course = Course(title: string, teacherId: Option<int>, createdAt: int)

  /** topics: `order_index` is nullable, since an update may store NULL in it. */
  datatype Topic = Topic(courseId: int, title: Option<string>, description: Option<string>, orderIndex: Option<int>)

  /** attendance: `student_id` holds a users id; `date` is an ISO `YYYY-MM-DD` string. */
  datatype Attendance = Attendance(studentId: int, courseId: int, date: string, status: string)

  /** grades: `student_id` references students.id. */
  datatype Grade = Grade(studentId: int, courseId: int, grade: real, gradeType: string, createdAt: int)

  /** A users row as the API returns it: every column except the password hash. */
  datatype PublicUser = PublicUser(id: int, name: string, email: string, telefono: Option<string>, role: string)

  function Public(u: Row<User>): PublicUser {
    PublicUser(u.id, u.cols.name, u.cols.email, u.cols.telefono, u.cols.role)
  }

  /** The columns the attendance uniqueness constraint is on. */
  datatype AttendanceKey = AttendanceKey(studentId: int, courseId: int, date: string)

  function KeyOf(r: Row<Attendance>): AttendanceKey {
    AttendanceKey(r.cols.studentId, r.cols.courseId, r.cols.date)
  }

  /** `UNIQUE (student_id, course_id, date)`. */
  ghost predicate UniqueKeys(rows: seq<Row<Attendance>>) {
    forall i, j :: 0 <= i < j < |rows| ==> KeyOf(rows[i]) != KeyOf(rows[j])
  }

  class Store {
    var users: seq<Row<User>>
    var students: seq<Row<Student>>
    var teachers: seq<Row<Teacher>>
    var courses: seq<Row<Course>>
    var topics: seq<Row<Topic>>
    var attendance: seq<Row<Attendance>>
    var grades: seq<Row<Grade>>

    /** The next value of each table's id serial. */
    var nextUserId: int
    var nextStudentId: int
    var nextTeacherId: int
    var nextCourseId: int
    var nextTopicId: int
    var nextAttendanceId: int
    var nextGradeId: int

    /** The database's own constraints: primary keys and the attendance unique key. */
    ghost predicate Valid()
      reads this
    {
      && 1 <= nextUserId && 1 <= nextStudentId && 1 <= nextTeacherId && 1 <= nextCourseId
      && 1 <= nextTopicId && 1 <= nextAttendanceId && 1 <= nextGradeId
      && Keyed(users, nextUserId) && Keyed(students, nextStudentId)
      && Keyed(teachers, nextTeacherId) && Keyed(courses, nextCourseId)
      && Keyed(topics, nextTopicId) && Keyed(attendance, nextAttendanceId)
      && Keyed(grades, nextGradeId)
      && UniqueKeys(attendance)
    }

    /** An empty database whose serials all start at 1. */
    constructor ()
      ensures Valid()
      ensures users == [] && students == [] && teachers == [] && courses == []
      ensures topics == [] && attendance == [] && grades == []
    {
      users, students, teachers, courses := [], [], [], [];
      topics, attendance, grades := [], [], [];
      nextUserId, nextStudentId, nextTeacherId, nextCourseId := 1, 1, 1, 1;
      nextTopicId, nextAttendanceId, nextGradeId := 1, 1, 1;
    }

    /** Stores the attendance table an upsert produced, with the serial's new value. */
    method SetAttendance(rows: seq<Row<Attendance>>, next: int)
      requires Valid() && 1 <= next && Keyed(rows, next) && UniqueKeys(rows)
      modifies this`attendance, this`nextAttendanceId
      ensures Valid() && attendance == rows && nextAttendanceId == next
    {
      attendance, nextAttendanceId := rows, next;
    }

    /** `INSERT INTO users ... RETURNING ...`. */
    method AddUser(cols: User) returns (row: Row<User>)
      requires Valid()
      modifies this`users, this`nextUserId
      ensures Valid()
      ensures row == Row(old(nextUserId), cols)
      ensures users == old(users) + [row] && nextUserId == old(nextUserId) + 1
    {
      row := Row(nextUserId, cols);
      users := Insert(users, nextUserId, cols);
      nextUserId := nextUserId + 1;
    }

    /** `INSERT INTO students (user_id) VALUES ($1)`. */
    method AddStudent(cols: Student) returns (row: Row<Student>)
      requires Valid()
      modifies this`students, this`nextStudentId
      ensures Valid()
      ensures row == Row(old(nextStudentId), cols)
      ensures students == old(students) + [row] && nextStudentId == old(nextStudentId) + 1
    {
      row := Row(nextStudentId, cols);
      students := Insert(students, nextStudentId, cols);
      nextStudentId := nextStudentId + 1;
    }

    /** `INSERT INTO teachers ... RETURNING *`. */
    method AddTeacher(cols: Teacher) returns (row: Row<Teacher>)
      requires Valid()
      modifies this`teachers, this`nextTeacherId
      ensures Valid()
      ensures row == Row(old(nextTeacherId), cols)
      ensures teachers == old(teachers) + [row] && nextTeacherId == old(nextTeacherId) + 1
    {
      row := Row(nextTeacherId, cols);
      teachers := Insert(teachers, nextTeacherId, cols);
      nextTeacherId := nextTeacherId + 1;
    }
  }
}
