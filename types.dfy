/** Record shapes shared by the attendance application: the student roster entry,
    the attendance log entry, the navigation state and the identifier's verdict. */
module Types {

  datatype Option<+T> = None | Some(value: T)

  /** JavaScript truthiness of an optional string: present and not empty. */
  predicate Truthy(s: Option<string>) {
    s.Some? && s.value != ""
  }

  /** A registered student; `photoUrl` is the data URL of the reference photo. */
  datatype Student = Student(
    id: string,
    name: string,
    course: string,
    photoUrl: string,
    registeredAt: string)

  /** One line of the attendance log; `date` is the YYYY-MM-DD day it was taken. */
  datatype AttendanceRecord = AttendanceRecord(
    id: string,
    studentId: string,
    studentName: string,
    course: string,
    timestamp: string,
    date: string)

  /** The four panels the application can show. */
  datatype ViewState = Dashboard | Register | Scan | History

  /** What the face identifier reports; the optional fields are absent when not set. */
  datatype IdentificationResult = IdentificationResult(
    matchFound: bool,
    studentId: Option<string>,
    confidence: Option<string>,
    message: Option<string>)
}
