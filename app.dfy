/** The application state: roster, attendance log, current view and the scan
    status banner, with registration, attendance marking, the banner reset and
    the dashboard's count of today's attendance. The clock (`today`, the
    timestamp) and the record id generator are parameters. */
module App {
  import opened Types
  import GeminiService

  datatype StatusKind = Idle | Loading | Success | Error

  /** The banner over the live scan. */
  datatype ScanStatus = ScanStatus(status: StatusKind, message: string)

  const NoStudentsYet: string := "No students registered yet."
  const AnalyzingFace: string := "Analyzing face..."
  const RecordMissing: string := "ID match found but student record missing."
  const NoMatchingFace: string := "No matching face found."

  // ---------------------------------------------------------------------------
  // Lookups over the roster and the log
  // ---------------------------------------------------------------------------

  /** `k` is the position of the first roster entry whose id is `id`. */
  predicate FirstWithId(students: seq<Student>, id: string, k: int) {
    0 <= k < |students| && students[k].id == id && forall j :: 0 <= j < k ==> students[j].id != id
  }

  /** The roster lookup by id, as the position of the entry found. */
  function FindStudent(students: seq<Student>, id: string): (r: Option<nat>)
    ensures r.Some? ==> FirstWithId(students, id, r.value)
    ensures r.None? ==> forall j :: 0 <= j < |students| ==> students[j].id != id
    decreases |students|
  {
    if |students| == 0 then None
    else if students[0].id == id then Some(0)
    else
      match FindStudent(students[1..], id)
      case None => None
      case Some(k) => Some(k + 1)
  }

  /** Registering a student whose id is already taken does not change which roster
      entry that id finds: the earlier one keeps answering. */
  lemma {:induction false} RegisterKeepsFirstMatch(students: seq<Student>, student: Student, id: string)
    requires exists i :: 0 <= i < |students| && students[i].id == id
    ensures FindStudent(students + [student], id) == FindStudent(students, id)
    decreases |students|
  {
    if students[0].id != id {
      assert (students + [student])[1..] == students[1..] + [student];
      RegisterKeepsFirstMatch(students[1..], student, id);
    }
  }

  /** Some record of the log is for student `id` on day `today`. */
  predicate AlreadyMarked(log: seq<AttendanceRecord>, id: string, today: string) {
    exists i :: 0 <= i < |log| && log[i].studentId == id && log[i].date == today
  }

  /** At most one record per student and day. */
  predicate OneMarkPerDay(log: seq<AttendanceRecord>) {
    forall i, j :: 0 <= i < j < |log| ==> log[i].studentId != log[j].studentId || log[i].date != log[j].date
  }

  // ---------------------------------------------------------------------------
  // The marking rule
  // ---------------------------------------------------------------------------

  /** The new log and the banner after one scan. */
  datatype MarkOutcome = MarkOutcome(log: seq<AttendanceRecord>, banner: ScanStatus)

  /** The identifier reported a match with a usable student id. */
  predicate ReportsMatch(result: IdentificationResult) {
    result.matchFound && Truthy(result.studentId)
  }

  /** All the conditions under which a scan appends a record. */
  predicate Admits(students: seq<Student>, log: seq<AttendanceRecord>, result: IdentificationResult, today: string) {
    && |students| > 0
    && ReportsMatch(result)
    && (exists i :: 0 <= i < |students| && students[i].id == result.studentId.value)
    && !AlreadyMarked(log, result.studentId.value, today)
  }

  /** The record taken for `student`. */
  function NewRecord(student: Student, recordId: string, timestamp: string, today: string): AttendanceRecord {
    AttendanceRecord(recordId, student.id, student.name, student.course, timestamp, today)
  }

  /** One scan: reject an empty roster, then classify the identifier's result as no
      match, a match without roster entry, a repeat for today, or a new record,
      which is appended to the log. The log changes exactly when the scan is
      admitted, and then only by one record at the end, copied from the first
      roster entry with the matched id and dated today. */
  function Mark(students: seq<Student>, log: seq<AttendanceRecord>, result: IdentificationResult,
                today: string, recordId: string, timestamp: string): (o: MarkOutcome)
    ensures o.log != log <==> Admits(students, log, result, today)
    ensures o.log != log ==> forall k :: FirstWithId(students, result.studentId.value, k) ==>
      o.log == log + [NewRecord(students[k], recordId, timestamp, today)]
      && o.banner.message == "Welcome, " + students[k].name + "! Attendance Marked."
    ensures |students| > 0 && ReportsMatch(result) && AlreadyMarked(log, result.studentId.value, today) ==>
      forall k :: FirstWithId(students, result.studentId.value, k) ==>
        o.banner.message == students[k].name + " already marked today."
    ensures o.banner.status == Success <==> o.log != log
    ensures o.banner.status != Success ==> o.banner.status == Error
    ensures |students| == 0 ==> o.banner.message == NoStudentsYet
    ensures |students| > 0 && !ReportsMatch(result) ==> o.banner.message == NoMatchingFace
    ensures |students| > 0 && ReportsMatch(result) &&
            (forall j :: 0 <= j < |students| ==> students[j].id != result.studentId.value) ==>
      o.banner.message == RecordMissing
  {
    if |students| == 0 then MarkOutcome(log, ScanStatus(Error, NoStudentsYet))
    else if result.matchFound && result.studentId.Some? && result.studentId.value != "" then
      match FindStudent(students, result.studentId.value)
      case None => MarkOutcome(log, ScanStatus(Error, RecordMissing))
      case Some(k) =>
        var student := students[k];
        if AlreadyMarked(log, student.id, today) then
          MarkOutcome(log, ScanStatus(Error, student.name + " already marked today."))
        else
          var record := NewRecord(student, recordId, timestamp, today);
          assert (log + [record])[|log|] == record;
          MarkOutcome(log + [record], ScanStatus(Success, "Welcome, " + student.name + "! Attendance Marked."))
    else MarkOutcome(log, ScanStatus(Error, NoMatchingFace))
  }

  /** Marking never produces a second record for the same student and day. */
  lemma MarkKeepsOneMarkPerDay(students: seq<Student>, log: seq<AttendanceRecord>, result: IdentificationResult,
                               today: string, recordId: string, timestamp: string)
    requires OneMarkPerDay(log)
    ensures OneMarkPerDay(Mark(students, log, result, today, recordId, timestamp).log)
  {
    var o := Mark(students, log, result, today, recordId, timestamp);
    if o.log != log {
      var k := FindStudent(students, result.studentId.value).value;
      var r := NewRecord(students[k], recordId, timestamp, today);
      assert o.log == log + [r];
      forall i, j | 0 <= i < j < |o.log|
        ensures o.log[i].studentId != o.log[j].studentId || o.log[i].date != o.log[j].date
      {
        if j == |log| {
          assert o.log[i] == log[i];
          assert !(log[i].studentId == r.studentId && log[i].date == today);
        }
      }
    }
  }

  /** On success the earlier records are kept, in place, and exactly one record
      dated today follows them. */
  lemma MarkAppendsOne(students: seq<Student>, log: seq<AttendanceRecord>, result: IdentificationResult,
                       today: string, recordId: string, timestamp: string)
    ensures var o := Mark(students, log, result, today, recordId, timestamp);
            o.log == log || (|o.log| == |log| + 1 && o.log[..|log|] == log && o.log[|log|].date == today
                             && o.log[|log|].id == recordId && o.log[|log|].studentId == result.studentId.value)
  {
    var o := Mark(students, log, result, today, recordId, timestamp);
    if o.log != log {
      var k := FindStudent(students, result.studentId.value).value;
      assert o.log == log + [NewRecord(students[k], recordId, timestamp, today)];
    }
  }

  // ---------------------------------------------------------------------------
  // Banner reset and the dashboard count
  // ---------------------------------------------------------------------------

  /** The delayed reset: a loading banner is left alone, any other goes idle. */
  function ClearStatus(s: ScanStatus): (r: ScanStatus)
    ensures s.status == Loading ==> r == s
    ensures s.status != Loading ==> r == ScanStatus(Idle, "")
  {
    if s.status == Loading then s else ScanStatus(Idle, "")
  }

  lemma ClearStatusIdempotent(s: ScanStatus)
    ensures ClearStatus(ClearStatus(s)) == ClearStatus(s)
  {
  }

  /** The records of the day `today`, in log order: each record dated today
      occurs as often as in the log, any other record not at all. */
  function TodayRecords(log: seq<AttendanceRecord>, today: string): (t: seq<AttendanceRecord>)
    ensures |t| <= |log|
    ensures forall r :: r in t <==> r in log && r.date == today
    ensures forall r :: multiset(t)[r] == if r.date == today then multiset(log)[r] else 0
    decreases |log|
  {
    if |log| == 0 then []
    else
      var prefix := log[..|log| - 1];
      var last := log[|log| - 1];
      assert log == prefix + [last];
      TodayRecords(prefix, today) + (if last.date == today then [last] else [])
  }

  /** The positions of the log's records dated `today`. */
  function DayPositions(log: seq<AttendanceRecord>, today: string): set<int> {
    set i | 0 <= i < |log| && log[i].date == today
  }

  /** Dropping the last record drops at most its own position from the day's positions. */
  lemma DayPositionsStep(log: seq<AttendanceRecord>, today: string)
    requires |log| > 0
    ensures DayPositions(log, today) ==
      DayPositions(log[..|log| - 1], today) + (if log[|log| - 1].date == today then {|log| - 1} else {})
  {
    var n := |log|;
    var prefix := log[..n - 1];
    forall i | 0 <= i < n - 1 ensures log[i] == prefix[i] {
    }
  }

  lemma {:induction false} TodayRecordsCountsPositions(log: seq<AttendanceRecord>, today: string)
    ensures |TodayRecords(log, today)| == |DayPositions(log, today)|
    decreases |log|
  {
    if |log| > 0 {
      var n := |log|;
      var prefix := log[..n - 1];
      TodayRecordsCountsPositions(prefix, today);
      DayPositionsStep(log, today);
      var before := DayPositions(prefix, today);
      assert n - 1 !in before;
    }
  }

  /** The dashboard's "Attendance Today" figure: the number of log records dated
      `today`. */
  function CountToday(log: seq<AttendanceRecord>, today: string): (n: nat)
    ensures n == |DayPositions(log, today)|
    ensures n <= |log|
  {
    TodayRecordsCountsPositions(log, today);
    |TodayRecords(log, today)|
  }

  /** A successful scan raises today's count by one; any other leaves it as it was. */
  lemma MarkCountsToday(students: seq<Student>, log: seq<AttendanceRecord>, result: IdentificationResult,
                        today: string, recordId: string, timestamp: string)
    ensures var o := Mark(students, log, result, today, recordId, timestamp);
            CountToday(o.log, today) == CountToday(log, today) + (if o.log != log then 1 else 0)
  {
    var o := Mark(students, log, result, today, recordId, timestamp);
    if o.log != log {
      var k := FindStudent(students, result.studentId.value).value;
      var r := NewRecord(students[k], recordId, timestamp, today);
      assert o.log == log + [r];
      assert o.log[..|o.log| - 1] == log;
    }
  }

  // ---------------------------------------------------------------------------
  // The application object
  // ---------------------------------------------------------------------------

  class AttendanceApp {
    var view: ViewState
    var students: seq<Student>
    var attendance: seq<AttendanceRecord>
    var scanResult: ScanStatus

    /** No student is marked twice on one day. */
    ghost predicate Valid()
      reads this
    {
      OneMarkPerDay(attendance)
    }

    /** A fresh session: dashboard, empty roster and log, idle banner. */
    constructor ()
      ensures Valid()
      ensures view == Dashboard && students == [] && attendance == [] && scanResult == ScanStatus(Idle, "")
    {
      view := Dashboard;
      students := [];
      attendance := [];
      scanResult := ScanStatus(Idle, "");
    }

    /** Sidebar navigation and the form's cancel button. */
    method Navigate(target: ViewState)
      modifies this`view
      ensures view == target
    {
      view := target;
    }

    /** Registration appends the student as given, duplicates included, and
        returns to the dashboard. */
    method RegisterStudent(student: Student)
      requires Valid()
      modifies this`students, this`view
      ensures Valid()
      ensures students == old(students) + [student] && view == Dashboard
    {
      students := students + [student];
      view := Dashboard;
    }

    /** One scan of `imageSrc`, with `reply` standing for the identifier's answer.
        The identifier is consulted only when the roster is not empty; the check
        for an earlier mark and the append use the same log. */
    method MarkAttendance(imageSrc: string, reply: GeminiService.ModelReply,
                          today: string, recordId: string, timestamp: string)
      requires Valid()
      modifies this`attendance, this`scanResult
      ensures Valid()
      ensures var o := Mark(old(students), old(attendance), GeminiService.InterpretReply(reply), today, recordId, timestamp);
              attendance == o.log && scanResult == o.banner
    {
      if |students| == 0 {
        scanResult := ScanStatus(Error, NoStudentsYet);
        return;
      }
      scanResult := ScanStatus(Loading, AnalyzingFace);
      var result, _ := GeminiService.IdentifyStudent(imageSrc, students, reply);
      MarkKeepsOneMarkPerDay(students, attendance, result, today, recordId, timestamp);
      if result.matchFound && result.studentId.Some? && result.studentId.value != "" {
        var found := FindStudent(students, result.studentId.value);
        if found.Some? {
          var student := students[found.value];
          if AlreadyMarked(attendance, student.id, today) {
            scanResult := ScanStatus(Error, student.name + " already marked today.");
          } else {
            var record := NewRecord(student, recordId, timestamp, today);
            attendance := attendance + [record];
            scanResult := ScanStatus(Success, "Welcome, " + student.name + "! Attendance Marked.");
          }
        } else {
          scanResult := ScanStatus(Error, RecordMissing);
        }
      } else {
        scanResult := ScanStatus(Error, NoMatchingFace);
      }
    }

    /** The timer that clears the banner after a scan. */
    method ClearScanStatus()
      modifies this`scanResult
      ensures scanResult == ClearStatus(old(scanResult))
    {
      if scanResult.status != Loading {
        scanResult := ScanStatus(Idle, "");
      }
    }
  }
}
