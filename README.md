# FaceCheck attendance — a Dafny model of its sequential core

FaceCheck is a single-page classroom attendance application. A student is
registered with a webcam photo; later a live frame is sent, with every
registered photo, to a hosted multimodal model that names the matching student,
and the match is logged once per student and day. This project models the
deterministic logic around those outside calls:

- `types.dfy` (module `Types`): the student, attendance record, view and
  identification-result shapes.
- `app.dfy` (module `App`): the marking rule as a specification function
  `Mark`, the roster lookup, the "already marked today" check, the banner reset,
  the dashboard's count of today's records, and the class `AttendanceApp`
  whose fields (`view`, `students`, `attendance`, `scanResult`) are updated by
  registration, navigation, marking and the banner reset. Its invariant is at
  most one record per (student id, date).
- `student_form.dfy` (module `StudentForm`): the class `Form` with the text
  fields, the photo and the camera flag, and the open-camera, capture, retake and
  submit handlers.
- `attendance_log.dfy` (module `AttendanceLog`): the per-course fold, the chart
  slices in key order, the palette index, and the newest-first table rows.
- `gemini_service.dfy` (module `GeminiService`): the data-URL prefix stripping
  (the second comma-separated field, or the whole string; modelled with a
  general `Split`/`Join` pair), the ordered request parts, and the
  interpretation of the model's reply.

The clock (`today`, timestamps, `registeredAt`), the record id generator and the
model's reply are parameters. The reply is a `ModelReply`: the call threw, or it
answered with a text that either parsed to a JSON object or did not. "Did not"
covers both a text the parser rejects and the text `null`: reading a field of
`null` throws, and the service treats it like any other failure.

The form's open-camera handler is reachable only from the prompt panel, which
shows only while the camera is closed and no photo is held. `OpenCamera` requires
exactly that. Submission includes the browser's own `required` check on the id
and name inputs (components/StudentForm.tsx:64, :75). While either is empty the
submit handler does not run.

## Model

| member | source | states |
|---|---|---|
| `App.FindStudent` | App.tsx:49 | the position found is that of the first roster entry with the id; none is found only when no entry has it |
| `App.RegisterKeepsFirstMatch` | App.tsx:31-33 | registering a duplicate id does not change which roster entry the id finds: the earlier one still answers |
| `App.Mark` | App.tsx:37-76 | the log changes exactly when the roster is non-empty, the result is a match with a non-empty id, a roster entry has that id, and that id is not yet marked today; the change appends one record built from the first such entry with `date = today`; banner is success exactly then, otherwise error with the empty-roster, no-match, record-missing or already-marked message |
| `App.MarkKeepsOneMarkPerDay` | App.tsx:52-68 | if no two records share (student id, date) before a scan, none do after |
| `App.MarkAppendsOne` | App.tsx:60-68 | after a scan the log is unchanged, or it is the old log with one record at the end carrying the new id, the matched student id and today's date |
| `App.ClearStatus` | App.tsx:80 | a loading banner is kept; any other becomes idle with an empty message |
| `App.ClearStatusIdempotent` | App.tsx:80 | clearing twice is clearing once |
| `App.TodayRecords` | App.tsx:179 | the filtered records are the log's records dated today, each as often as in the log, and no others |
| `App.TodayRecordsCountsPositions` | App.tsx:179 | the filtered list is as long as the set of log positions dated today |
| `App.CountToday` | App.tsx:179 | today's count equals the number of log positions whose record is dated today, so never exceeds the log length |
| `App.MarkCountsToday` | App.tsx:179 | a successful scan raises today's count by one; any other scan leaves it unchanged |
| `App.AttendanceApp.constructor` | App.tsx:10-14 | a session starts on the dashboard with empty roster and log and an idle banner, satisfying the one-mark-per-day invariant |
| `App.AttendanceApp.Navigate` | App.tsx:100 | the view becomes the chosen panel |
| `App.AttendanceApp.RegisterStudent` | App.tsx:31-35 | the student is appended at the end of the roster, earlier entries untouched and no duplicate check; the view returns to the dashboard; the invariant is kept |
| `App.AttendanceApp.MarkAttendance` | App.tsx:37-82 | the new log and banner are those `Mark` gives for the interpreted reply; the invariant is kept; roster and view are untouched |
| `App.AttendanceApp.ClearScanStatus` | App.tsx:78-81 | the banner becomes `ClearStatus` of the old banner |
| `StudentForm.Form.constructor` | components/StudentForm.tsx:12-16 | empty name and id, course "Computer Science", no photo, camera closed |
| `StudentForm.Form.SetStudentId` | components/StudentForm.tsx:66 | the id field takes the typed value |
| `StudentForm.Form.SetName` | components/StudentForm.tsx:77 | the name field takes the typed value |
| `StudentForm.Form.SetCourse` | components/StudentForm.tsx:88 | the course field takes the selected value |
| `StudentForm.Form.OpenCamera` | components/StudentForm.tsx:103-105 | from the prompt panel the camera opens and the photo stays absent |
| `StudentForm.Form.Capture` | components/StudentForm.tsx:20-28 | a non-empty frame becomes the photo and closes the camera; an absent or empty frame changes nothing; a held photo is never shown with an open camera |
| `StudentForm.Form.Retake` | components/StudentForm.tsx:126-131 | the photo is dropped and the camera reopens |
| `StudentForm.Form.Submit` | components/StudentForm.tsx:30-44 | blocked while id or name is empty; with both filled and no photo nothing is registered; otherwise the student carries exactly the current id, name, course and photo |
| `AttendanceLog.CountCourse` | components/AttendanceLog.tsx:13 | a course's count is at most the log length, and zero exactly when no record has that course |
| `AttendanceLog.CourseDistribution` | components/AttendanceLog.tsx:12-15 | a course is a key exactly when it has records, and its entry is its record count |
| `AttendanceLog.DistributionKeys` | components/AttendanceLog.tsx:12-15 | the keys are exactly the set of courses present, every entry at least one |
| `AttendanceLog.CourseKeys` | components/AttendanceLog.tsx:17 | the chart keys are distinct and are exactly the courses with records |
| `AttendanceLog.ChartData` | components/AttendanceLog.tsx:17-20 | slice i names the i-th key and carries that course's record count, at least one |
| `AttendanceLog.DistributionTotal` | components/AttendanceLog.tsx:12-20 | the fold's entries, summed over its keys, equal the number of records |
| `AttendanceLog.ChartTotal` | components/AttendanceLog.tsx:12-20 | the chart's slice values add up to the number of records |
| `AttendanceLog.EmptyLogHasNoChart` | components/AttendanceLog.tsx:12-20 | an empty log gives an empty distribution and no slices |
| `AttendanceLog.ColorOf` | components/AttendanceLog.tsx:53 | the fill is always one of the five palette colours, and the i-th one for the first five slices |
| `AttendanceLog.NewestFirst` | components/AttendanceLog.tsx:97 | same length, position i holds the record at position length-1-i |
| `AttendanceLog.NewestFirstTwice` | components/AttendanceLog.tsx:97 | reversing the listing again gives the stored log |
| `AttendanceLog.TableRows` | components/AttendanceLog.tsx:90-97 | an empty log shows the single "No attendance records found yet." row; otherwise one row per record, newest first |
| `GeminiService.Split` | services/geminiService.ts:27 | there is always at least one field and no field contains the separator |
| `GeminiService.JoinSplit` | services/geminiService.ts:27 | joining the fields with the separator gives back the string |
| `GeminiService.SplitJoin` | services/geminiService.ts:27 | splitting separator-free fields joined by the separator gives back the fields |
| `GeminiService.StripDataUrlPrefix` | services/geminiService.ts:27 | the result is the input itself or a non-empty, comma-free field |
| `GeminiService.StripWithoutComma` | services/geminiService.ts:49 | a string with no comma is returned unchanged |
| `GeminiService.StripTakesSecondField` | services/geminiService.ts:27 | for `prefix,field` ending or followed by a comma, the field is returned when non-empty and the whole string otherwise |
| `GeminiService.StripDataUrl` | services/geminiService.ts:49 | `prefix,data` with comma-free parts and non-empty data yields `data` |
| `GeminiService.BuildParts` | services/geminiService.ts:29-68 | 2n+3 parts: the instruction, then per student in roster order the id label text and the JPEG of the stripped photo, then the target label and the JPEG of the stripped frame |
| `GeminiService.InterpretReply` | services/geminiService.ts:89-109 | a match exactly when the call succeeded with non-empty, parsable text reporting `matchFound` true and a non-empty `studentId`, which is then carried with the confidence; a failure gives "AI processing failed", anything else "No match found" |
| `GeminiService.IdentifyStudent` | services/geminiService.ts:16-109 | an empty roster answers "No students registered." and builds no request; otherwise the request has the layout above and the result is the interpreted reply; a match always has a student id |

## Left out

- The camera component (media capture, canvas drawing, JPEG encoding, auto-capture timers): browser media I/O. Its output enters as the `frame` and `imageSrc` parameters.
- The hosted model call and `JSON.parse` of its text: foreign calls. Their outcome enters as a `ModelReply`.
- Loading and saving the roster and log in local storage: browser persistence I/O. A session starts empty.
- The clock and `crypto.randomUUID()`: they are parameters (`today`, `timestamp`, `registeredAt`, `recordId`).
- `App.AttendanceApp.MarkAttendance`: is one sequential step in which the already-marked check and the append read the same log. The source checks a log captured when the callback was created and appends to the latest one, so overlapping scans can record twice; that interleaving is not modelled.
- The 3-second and 5.5-second `setTimeout` delays: timers. The banner reset is a method the caller invokes.
- `AttendanceLog.CourseKeys`: lists keys in first-record order, which is `Object.keys` order for ordinary course names. JavaScript lists integer-like keys (such as "2026") first, in numeric order, and a course named `__proto__` would not become a key; neither case is modelled.
- `AttendanceLog.CourseDistribution`: starts every course at zero. The source's accumulator is a plain object, so a course named after an inherited member (`constructor`, `toString`, `valueOf`, `hasOwnProperty`) would start from that member and produce a string, not a count. The registration form offers only five fixed courses (components/StudentForm.tsx:91-95), so such a name can only come from stored data, which is outside the model.
- `GeminiService.InterpretReply`: reads `matchFound` as absent, false or true, and `studentId` as an optional string, as the response schema declares. Truthy non-boolean or non-string JSON values are not represented.
- `StudentForm.Form.Capture`: an absent camera handle and a failed capture are both the `None` frame.
- Rendering and diagnostics: markup, styles, charts, icons, `alert`, the `console.error` log of a failed identification (services/geminiService.ts:107), and locale date and time formatting. The auto-scan toggle, the unused `scanning` flag and the "Scan Now" button only drive the camera and timers.
