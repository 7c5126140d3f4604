/** The face identifier's request shaping and reply interpretation. The hosted
    model call and the JSON parser are outside the model: the parsed reply (or the
    failure that replaced it) is an input. */
module GeminiService {
  import opened Types

  // ---------------------------------------------------------------------------
  // Splitting on one separator character, and its inverse
  // ---------------------------------------------------------------------------

  /** The fields of `s` between occurrences of `sep`, as JavaScript's `split` gives
      them: always at least one field, and no field contains `sep`. */
  function Split(s: string, sep: char): (fields: seq<string>)
    ensures |fields| >= 1
    ensures forall k :: 0 <= k < |fields| ==> sep !in fields[k]
    decreases |s|
  {
    if |s| == 0 then [""]
    else
      var rest := Split(s[1..], sep);
      if s[0] == sep then [""] + rest
      else [[s[0]] + rest[0]] + rest[1..]
  }

  /** The fields glued back together with `sep` between neighbours. */
  function Join(fields: seq<string>, sep: char): string
    requires |fields| >= 1
    decreases |fields|
  {
    if |fields| == 1 then fields[0]
    else fields[0] + [sep] + Join(fields[1..], sep)
  }

  lemma {:induction false} JoinSplit(s: string, sep: char)
    ensures Join(Split(s, sep), sep) == s
    decreases |s|
  {
    if |s| > 0 {
      var rest := Split(s[1..], sep);
      JoinSplit(s[1..], sep);
      if s[0] == sep {
        assert Split(s, sep)[1..] == rest;
      } else if |rest| > 1 {
        var fields := Split(s, sep);
        assert fields[1..] == rest[1..];
        assert Join(rest, sep) == rest[0] + [sep] + Join(rest[1..], sep);
        calc {
          Join(fields, sep);
          ([s[0]] + rest[0]) + [sep] + Join(rest[1..], sep);
          [s[0]] + (rest[0] + [sep] + Join(rest[1..], sep));
          [s[0]] + s[1..];
        }
      }
    }
  }

  /** A string without the separator is a single field. */
  lemma {:induction false} SplitWithoutSeparator(a: string, sep: char)
    requires sep !in a
    ensures Split(a, sep) == [a]
    decreases |a|
  {
    if |a| > 0 {
      SplitWithoutSeparator(a[1..], sep);
      assert [a[0]] + a[1..] == a;
    }
  }

  /** Splitting `a sep b`, where `a` has no separator, yields `a` and then the fields of `b`. */
  lemma {:induction false} SplitAfterField(a: string, b: string, sep: char)
    requires sep !in a
    ensures Split(a + [sep] + b, sep) == [a] + Split(b, sep)
    decreases |a|
  {
    var s := a + [sep] + b;
    if |a| == 0 {
      assert s[1..] == b;
    } else {
      assert s[1..] == a[1..] + [sep] + b;
      SplitAfterField(a[1..], b, sep);
      assert [a[0]] + a[1..] == a;
    }
  }

  lemma {:induction false} SplitJoin(fields: seq<string>, sep: char)
    requires |fields| >= 1
    requires forall k :: 0 <= k < |fields| ==> sep !in fields[k]
    ensures Split(Join(fields, sep), sep) == fields
    decreases |fields|
  {
    if |fields| == 1 {
      SplitWithoutSeparator(fields[0], sep);
    } else {
      SplitJoin(fields[1..], sep);
      SplitAfterField(fields[0], Join(fields[1..], sep), sep);
      assert [fields[0]] + fields[1..] == fields;
    }
  }

  // ---------------------------------------------------------------------------
  // Data-URL prefix stripping
  // ---------------------------------------------------------------------------

  /** The second comma-separated field of `s` when there is one and it is not
      empty; otherwise `s` itself. */
  function StripDataUrlPrefix(s: string): (r: string)
    ensures r == s || (r != "" && ',' !in r)
  {
    var fields := Split(s, ',');
    if |fields| >= 2 && fields[1] != "" then fields[1] else s
  }

  /** A string with no comma (a bare base64 payload) passes through unchanged. */
  lemma StripWithoutComma(s: string)
    requires ',' !in s
    ensures StripDataUrlPrefix(s) == s
  {
    SplitWithoutSeparator(s, ',');
  }

  /** For `prefix,payload` followed by nothing or by another comma, the payload is
      returned when it is not empty, and the whole string when it is. */
  lemma StripTakesSecondField(prefix: string, payload: string, tail: string)
    requires ',' !in prefix && ',' !in payload
    requires tail == "" || tail[0] == ','
    ensures var s := prefix + [','] + payload + tail;
            StripDataUrlPrefix(s) == if payload == "" then s else payload
  {
    var s := prefix + [','] + payload + tail;
    assert s == prefix + [','] + (payload + tail);
    SplitAfterField(prefix, payload + tail, ',');
    if tail == "" {
      assert payload + tail == payload;
      SplitWithoutSeparator(payload, ',');
    } else {
      assert payload + tail == payload + [','] + tail[1..];
      SplitAfterField(payload, tail[1..], ',');
    }
  }

  /** The usual data URL case: `"data:image/jpeg;base64,XYZ"` yields `"XYZ"`. */
  lemma StripDataUrl(prefix: string, payload: string)
    requires ',' !in prefix && ',' !in payload && payload != ""
    ensures StripDataUrlPrefix(prefix + [','] + payload) == payload
  {
    StripTakesSecondField(prefix, payload, "");
    assert prefix + [','] + payload + "" == prefix + [','] + payload;
  }

  // ---------------------------------------------------------------------------
  // Request shaping
  // ---------------------------------------------------------------------------

  /** One entry of the multimodal request: a text part or an inline image. */
  datatype Part = Text(text: string) | InlineData(mimeType: string, data: string)

  const Instruction: string :=
    "You are an automated attendance system for the Class of 2026. \n"
    + "      I will provide you with a \"TARGET_IMAGE\" (the live camera feed) and a list of \"REGISTERED_STUDENTS\" with their IDs and reference photos.\n"
    + "      \n"
    + "      Your task:\n"
    + "      1. Analyze the \"TARGET_IMAGE\".\n"
    + "      2. Compare the face in the \"TARGET_IMAGE\" with each of the \"REGISTERED_STUDENTS\".\n"
    + "      3. If you find a high-confidence match, return the student's ID.\n"
    + "      4. If the face in \"TARGET_IMAGE\" does not match anyone strongly, or if there is no clear face, return null.\n"
    + "      \n"
    + "      Return the response in JSON format."
  const StudentIdLabel: string := "REGISTERED_STUDENT_ID: "
  const TargetLabel: string := "TARGET_IMAGE (Live Feed):"
  const Jpeg: string := "image/jpeg"

  /** The layout of a request for `frame` against `students`: the instruction, then
      for each student in roster order its id label and its stripped photo, then
      the target label and the stripped frame. */
  ghost predicate IsRequest(parts: seq<Part>, frame: string, students: seq<Student>) {
    && |parts| == 2 * |students| + 3
    && parts[0] == Text(Instruction)
    && (forall i :: 0 <= i < |students| ==>
          parts[2 * i + 1] == Text(StudentIdLabel + students[i].id)
          && parts[2 * i + 2] == InlineData(Jpeg, StripDataUrlPrefix(students[i].photoUrl)))
    && parts[2 * |students| + 1] == Text(TargetLabel)
    && parts[2 * |students| + 2] == InlineData(Jpeg, StripDataUrlPrefix(frame))
  }

  /** Builds the parts list by appending, as the service does in its `forEach`. */
  method BuildParts(frame: string, students: seq<Student>) returns (parts: seq<Part>)
    ensures IsRequest(parts, frame, students)
  {
    var cleanFrame := StripDataUrlPrefix(frame);
    parts := [Text(Instruction)];
    var i := 0;
    while i < |students|
      invariant 0 <= i <= |students|
      invariant |parts| == 2 * i + 1
      invariant parts[0] == Text(Instruction)
      invariant forall k :: 0 <= k < i ==>
        parts[2 * k + 1] == Text(StudentIdLabel + students[k].id)
        && parts[2 * k + 2] == InlineData(Jpeg, StripDataUrlPrefix(students[k].photoUrl))
    {
      var cleanRef := StripDataUrlPrefix(students[i].photoUrl);
      parts := parts + [Text(StudentIdLabel + students[i].id)];
      parts := parts + [InlineData(Jpeg, cleanRef)];
      i := i + 1;
    }
    parts := parts + [Text(TargetLabel)];
    parts := parts + [InlineData(Jpeg, cleanFrame)];
  }

  // ---------------------------------------------------------------------------
  // Reply interpretation
  // ---------------------------------------------------------------------------

  /** The fields of the parsed JSON reply; an absent field is `None`. */
  datatype ReplyJson = ReplyJson(matchFound: Option<bool>, studentId: Option<string>, confidence: Option<string>)

  /** What came back from the model: the call threw, or it answered with a text
      that either parsed to an object (`Some`) or did not (`None`). `None` covers
      a text the JSON parser rejects and a text that parses to `null`, whose
      field read then throws; both end in the same failure. */
  datatype ModelReply = CallFailed | Answered(text: string, parsed: Option<ReplyJson>)

  const NoStudentsMessage: string := "No students registered."
  const NoMatchMessage: string := "No match found"
  const FailureMessage: string := "AI processing failed"

  /** Did the call fail, before or while parsing: it threw, the text was empty, or
      the text was not JSON. */
  predicate ProcessingFailed(reply: ModelReply) {
    reply.CallFailed? || reply.text == "" || reply.parsed.None?
  }

  /** The reply reports a match: `matchFound` is true and `studentId` is a non-empty string. */
  predicate ReportsMatch(reply: ModelReply) {
    !ProcessingFailed(reply) && reply.parsed.value.matchFound == Some(true) && Truthy(reply.parsed.value.studentId)
  }

  function InterpretReply(reply: ModelReply): (r: IdentificationResult)
    ensures r.matchFound <==> ReportsMatch(reply)
    ensures r.matchFound ==> Truthy(r.studentId)
    ensures r.matchFound ==>
      r.studentId == reply.parsed.value.studentId && r.confidence == reply.parsed.value.confidence && r.message == None
    ensures ProcessingFailed(reply) ==> r == IdentificationResult(false, None, None, Some(FailureMessage))
    ensures !ProcessingFailed(reply) && !ReportsMatch(reply) ==>
      r == IdentificationResult(false, None, None, Some(NoMatchMessage))
  {
    match reply
    case CallFailed => IdentificationResult(false, None, None, Some(FailureMessage))
    case Answered(text, parsed) =>
      if text == "" then IdentificationResult(false, None, None, Some(FailureMessage))
      else if parsed.None? then IdentificationResult(false, None, None, Some(FailureMessage))
      else if parsed.value.matchFound == Some(true) && Truthy(parsed.value.studentId) then
        IdentificationResult(true, parsed.value.studentId, parsed.value.confidence, None)
      else IdentificationResult(false, None, None, Some(NoMatchMessage))
  }

  /** One identification: an empty roster is answered at once and builds no request;
      otherwise the request is laid out and the model's reply interpreted. */
  method IdentifyStudent(frame: string, students: seq<Student>, reply: ModelReply)
    returns (result: IdentificationResult, request: Option<seq<Part>>)
    ensures |students| == 0 ==>
      result == IdentificationResult(false, None, None, Some(NoStudentsMessage)) && request == None
    ensures |students| > 0 ==>
      request.Some? && IsRequest(request.value, frame, students) && result == InterpretReply(reply)
    ensures result.matchFound ==> Truthy(result.studentId)
  {
    if |students| == 0 {
      return IdentificationResult(false, None, None, Some(NoStudentsMessage)), None;
    }
    var parts := BuildParts(frame, students);
    request := Some(parts);
    result := InterpretReply(reply);
  }
}
