/**
 * client/src/pages/Attendance.tsx: the chain of optional filters over the attendance list
 * (own records for a student, a student id, a date prefix); its pages come from `Paging`.
 */
module AttendancePage {
  import opened Wrappers
  import Seqs
  import Text
  import Js

  /** A record as GET /api/attendance hands it to the page. */
  datatype Record = Record(id: int, studentId: int, courseId: int, date: string, status: string)

  /** `role === "student" && userId`: a student whose id has loaded (and is not 0). */
  predicate OwnOnly(role: string, userId: Option<int>) {
    role == "student" && userId.Some? && userId.value != 0
  }

  /** The conditions the chain applies; an empty filter string applies none, and a student
      filter that is not a number matches no record. */
  predicate Keep(a: Record, role: string, userId: Option<int>, studentFilter: string, dateFilter: string) {
    && (OwnOnly(role, userId) ==> a.studentId == userId.value)
    && (studentFilter != "" ==> Some(a.studentId) == Js.ToNumber(Js.Str(studentFilter)))
    && (dateFilter != "" ==> Text.StartsWith(a.date, dateFilter))
  }

  /** The three optional stages of the page's chain, applied in its order, filter by `Keep`. */
  lemma ChainIsKeep(records: seq<Record>, role: string, userId: Option<int>, studentFilter: string,
                    dateFilter: string)
    ensures var afterOwn := Seqs.FilterIf(records, OwnOnly(role, userId), (a: Record) => a.studentId == userId.GetOr(0));
      var afterStudent := Seqs.FilterIf(afterOwn, studentFilter != "", (a: Record) => Some(a.studentId) == Js.ToNumber(Js.Str(studentFilter)));
      Seqs.FilterIf(afterStudent, dateFilter != "", (a: Record) => Text.StartsWith(a.date, dateFilter))
        == Seqs.Filter(records, (a: Record) => Keep(a, role, userId, studentFilter, dateFilter))
  {
    var own := (a: Record) => OwnOnly(role, userId) ==> a.studentId == userId.value;
    var ownStudent := (a: Record) => own(a) && (studentFilter != "" ==> Some(a.studentId) == Js.ToNumber(Js.Str(studentFilter)));
    var afterOwn := Seqs.FilterIf(records, OwnOnly(role, userId), (a: Record) => a.studentId == userId.GetOr(0));
    Seqs.FilterIfIsFilter(records, OwnOnly(role, userId), (a: Record) => a.studentId == userId.GetOr(0), own);
    var afterStudent := Seqs.FilterIf(afterOwn, studentFilter != "", (a: Record) => Some(a.studentId) == Js.ToNumber(Js.Str(studentFilter)));
    Seqs.FilterIfThen(afterOwn, records, own, studentFilter != "", (a: Record) => Some(a.studentId) == Js.ToNumber(Js.Str(studentFilter)), ownStudent);
    Seqs.FilterIfThen(afterStudent, records, ownStudent, dateFilter != "", (a: Record) => Text.StartsWith(a.date, dateFilter),
                      (a: Record) => Keep(a, role, userId, studentFilter, dateFilter));
  }

  /** `filteredAttendance`: each filter, when set, narrows the list left by the previous one.
      The chain is one filter by `Keep`, so every record that passes is kept, copies included. */
  method FilterRecords(records: seq<Record>, role: string, userId: Option<int>, studentFilter: string,
                       dateFilter: string) returns (filtered: seq<Record>)
    ensures filtered == Seqs.Filter(records, (a: Record) => Keep(a, role, userId, studentFilter, dateFilter))
    ensures Seqs.IsSubsequence(filtered, records)
    ensures forall a :: a in filtered ==> Keep(a, role, userId, studentFilter, dateFilter)
    ensures forall a :: a in records && Keep(a, role, userId, studentFilter, dateFilter) ==> a in filtered
  {
    filtered := records;
    filtered := Seqs.FilterIf(filtered, OwnOnly(role, userId), (a: Record) => a.studentId == userId.GetOr(0));
    filtered := Seqs.FilterIf(filtered, studentFilter != "", (a: Record) => Some(a.studentId) == Js.ToNumber(Js.Str(studentFilter)));
    filtered := Seqs.FilterIf(filtered, dateFilter != "", (a: Record) => Text.StartsWith(a.date, dateFilter));
    ChainIsKeep(records, role, userId, studentFilter, dateFilter);
    Seqs.FilterIsSubsequence(records, (a: Record) => Keep(a, role, userId, studentFilter, dateFilter));
  }
}
