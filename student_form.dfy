/** The registration form: its text fields, the captured photo and whether the
    camera is open, with the handlers that move between the three photo panels
    (open prompt, live camera, captured preview) and the submit handler. */
module StudentForm {
  import opened Types

  const DefaultCourse: string := "Computer Science"

  /** What one press of "Register Student" leads to. */
  datatype SubmitOutcome =
    | Blocked                 // a `required` text input is empty: the browser does not submit
    | NeedsPhoto              // submitted without a photo: the user is told to capture one
    | Registered(student: Student)

  class Form {
    var name: string
    var studentId: string
    var course: string
    var photo: Option<string>
    var isCameraActive: bool

    /** A photo, once taken, is a non-empty image and the camera is closed while it
        is previewed; so the three photo panels never show at once. */
    ghost predicate Valid()
      reads this
    {
      photo.Some? ==> photo.value != "" && !isCameraActive
    }

    /** The form as it first renders. */
    constructor ()
      ensures Valid()
      ensures name == "" && studentId == "" && course == DefaultCourse
      ensures photo == None && !isCameraActive
    {
      name := "";
      studentId := "";
      course := DefaultCourse;
      photo := None;
      isCameraActive := false;
    }

    method SetName(value: string)
      modifies this`name
      ensures name == value
    {
      name := value;
    }

    method SetStudentId(value: string)
      modifies this`studentId
      ensures studentId == value
    {
      studentId := value;
    }

    method SetCourse(value: string)
      modifies this`course
      ensures course == value
    {
      course := value;
    }

    /** Clicking the "open camera" prompt, which is shown only while the camera is
        closed and no photo is held. */
    method OpenCamera()
      requires Valid() && !isCameraActive && photo.None?
      modifies this`isCameraActive
      ensures Valid() && isCameraActive && photo == old(photo)
    {
      isCameraActive := true;
    }

    /** Pressing "Capture Photo". `frame` is what the camera handle returned (`None`
        when there is no handle or the capture failed). Only a non-empty image
        changes anything: it becomes the photo and the camera closes. */
    method Capture(frame: Option<string>)
      requires Valid()
      modifies this`photo, this`isCameraActive
      ensures Valid()
      ensures Truthy(frame) ==> photo == frame && !isCameraActive
      ensures !Truthy(frame) ==> photo == old(photo) && isCameraActive == old(isCameraActive)
    {
      if frame.Some? && frame.value != "" {
        photo := frame;
        isCameraActive := false;
      }
    }

    /** The retake button on the preview: drop the photo and reopen the camera. */
    method Retake()
      requires Valid()
      modifies this`photo, this`isCameraActive
      ensures Valid() && photo == None && isCameraActive
    {
      photo := None;
      isCameraActive := true;
    }

    /** Submitting the form at time `registeredAt`. The browser refuses while the
        id or the name is empty; without a photo nothing is registered; otherwise
        the student is built from exactly the current fields and photo. */
    method Submit(registeredAt: string) returns (outcome: SubmitOutcome)
      ensures outcome.Blocked? <==> studentId == "" || name == ""
      ensures outcome.NeedsPhoto? <==> studentId != "" && name != "" && !Truthy(photo)
      ensures outcome.Registered? ==>
        Truthy(photo) && outcome.student == Student(studentId, name, course, photo.value, registeredAt)
    {
      if studentId == "" || name == "" {
        return Blocked;
      }
      if !(photo.Some? && photo.value != "") {
        return NeedsPhoto;
      }
      outcome := Registered(Student(studentId, name, course, photo.value, registeredAt));
    }
  }
}
