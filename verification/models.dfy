/** The three pydantic models of the assistant: the recorded chat turn, the
    length-bounded user question and the uploaded-file descriptor whose
    filename validator admits only `.pdf`, `.docx` and `.csv` names.
    Building a model either yields the value or a validation error, as
    pydantic's constructors do by raising `ValidationError`. */
module Models {
  import opened Wrappers
  import opened Text

  const MinQuestionLength: nat := 5
  const MaxQuestionLength: nat := 200

  /** The suffix tuple of the filename validator, in the order it is tried. */
  const AllowedExtensions: seq<string> := [".pdf", ".docx", ".csv"]

  /** The message of the `ValueError` the filename validator raises. */
  const InvalidFileTypeMessage: string := "Invalid file type"

  /** One entry of a pydantic validation error, located at a field. */
  datatype ErrorDetail =
    | StringTooShort(field: string, minLength: nat)
    | StringTooLong(field: string, maxLength: nat)
    | ValueError(field: string, message: string)
    | Missing(field: string)

  /** pydantic collects every failing field before raising, so the error
      carries a list of details. */
  datatype ValidationError = ValidationError(details: seq<ErrorDetail>)

  /** A question/answer exchange; neither field is constrained. */
  datatype ChatTurn = ChatTurn(question: string, answer: string)

  /** A question the user asked. */
  datatype UserQuestion = UserQuestion(text: string) {
    /** The field constraint `min_length=5, max_length=200` on `text`;
        lengths count code points. */
    predicate Valid() {
      MinQuestionLength <= |text| <= MaxQuestionLength
    }
  }

  /** An uploaded file, known only by its name. */
  datatype UploadedFileInfo = UploadedFileInfo(filename: string)

  /** The accepted names: those ending, case-sensitively, in one of the
      three document extensions. Nothing is required before the extension. */
  predicate HasAllowedExtension(name: string) {
    EndsWith(name, ".pdf") || EndsWith(name, ".docx") || EndsWith(name, ".csv")
  }

  /** `UserQuestion(text=...)`: accepted exactly when the length lies in
      [5, 200]; an accepted text is stored as given, with no trimming. */
  function NewUserQuestion(text: string): (r: Result<UserQuestion, ValidationError>)
    ensures r.Ok? <==> MinQuestionLength <= |text| <= MaxQuestionLength
    ensures r.Ok? ==> r.value.text == text && r.value.Valid()
    ensures r.Err? ==> |r.error.details| == 1
    ensures |text| < MinQuestionLength ==>
              r == Err(ValidationError([StringTooShort("text", MinQuestionLength)]))
    ensures |text| > MaxQuestionLength ==>
              r == Err(ValidationError([StringTooLong("text", MaxQuestionLength)]))
  {
    if |text| < MinQuestionLength then
      Err(ValidationError([StringTooShort("text", MinQuestionLength)]))
    else if |text| > MaxQuestionLength then
      Err(ValidationError([StringTooLong("text", MaxQuestionLength)]))
    else
      Ok(UserQuestion(text))
  }

  /** `check_extension`: a single `endswith` over the suffix tuple. A
      rejected name raises `ValueError("Invalid file type")`; an accepted
      one is returned unchanged. */
  function CheckExtension(v: string): (r: Result<string, string>)
    ensures r.Ok? <==> HasAllowedExtension(v)
    ensures r.Ok? ==> r.value == v
    ensures r.Err? ==> r.error == InvalidFileTypeMessage
  {
    EndsWithAnyIff(v, AllowedExtensions);
    assert forall i :: 0 <= i < |AllowedExtensions| ==>
        AllowedExtensions[i] in {".pdf", ".docx", ".csv"};
    if !EndsWithAny(v, AllowedExtensions) then
      Err(InvalidFileTypeMessage)
    else
      Ok(v)
  }

  /** `UploadedFileInfo(filename=..., **extras)`. The model declares only
      `filename`; pydantic's default configuration drops any other keyword
      argument (such as `expected_type`) without looking at it. */
  function NewUploadedFileInfo(filename: string, extras: map<string, string>)
    : (r: Result<UploadedFileInfo, ValidationError>)
    ensures r.Ok? <==> HasAllowedExtension(filename)
    ensures r.Ok? ==> r.value.filename == filename
    ensures r.Err? ==>
              r.error == ValidationError([ValueError("filename", InvalidFileTypeMessage)])
  {
    match CheckExtension(filename)
    case Ok(v) => Ok(UploadedFileInfo(v))
    case Err(message) => Err(ValidationError([ValueError("filename", message)]))
  }

  /** `ChatTurn(**fields)`: both fields are required, any string is accepted
      for each, and keys other than the two fields are ignored. */
  function NewChatTurn(fields: map<string, string>): (r: Result<ChatTurn, ValidationError>)
    ensures r.Ok? <==> "question" in fields && "answer" in fields
    ensures r.Ok? ==> r.value.question == fields["question"] && r.value.answer == fields["answer"]
    ensures r.Err? ==> forall d :: d in r.error.details <==>
              (d == Missing("question") && "question" !in fields) ||
              (d == Missing("answer") && "answer" !in fields)
  {
    var missing :=
      (if "question" in fields then [] else [Missing("question")]) +
      (if "answer" in fields then [] else [Missing("answer")]);
    if missing == [] then
      Ok(ChatTurn(fields["question"], fields["answer"]))
    else
      Err(ValidationError(missing))
  }

  /** `ChatTurn.model_dump()`: the dictionary stored in the chat history. */
  function ModelDump(t: ChatTurn): (m: map<string, string>)
    ensures m.Keys == {"question", "answer"}
  {
    map["question" := t.question, "answer" := t.answer]
  }

  /** Rebuilding a turn from its dumped dictionary gives back the same turn. */
  lemma DumpRoundTrip(t: ChatTurn)
    ensures NewChatTurn(ModelDump(t)) == Ok(t)
  {
  }

  /** Every pair of strings makes a chat turn: the record has no constraint. */
  lemma ChatTurnUnconstrained(question: string, answer: string)
    ensures NewChatTurn(map["question" := question, "answer" := answer])
              == Ok(ChatTurn(question, answer))
  {
  }

  /** The two ends of the length range are inside it; one step beyond either
      end is outside. The short example "Hi" is refused as too short. */
  lemma QuestionLengthBoundaries()
    ensures NewUserQuestion("Hi") == Err(ValidationError([StringTooShort("text", 5)]))
    ensures forall text: string :: |text| == 4 ==> NewUserQuestion(text).Err?
    ensures forall text: string :: |text| == 5 ==> NewUserQuestion(text) == Ok(UserQuestion(text))
    ensures forall text: string :: |text| == 200 ==> NewUserQuestion(text) == Ok(UserQuestion(text))
    ensures forall text: string :: |text| == 201 ==>
              NewUserQuestion(text) == Err(ValidationError([StringTooLong("text", 200)]))
  {
  }

  /** The accepted filenames are exactly a stem (possibly empty) followed by
      one of the three extensions. */
  lemma AcceptedIffStemAndExtension(v: string)
    ensures CheckExtension(v).Ok? <==>
              exists stem: string, i :: 0 <= i < |AllowedExtensions| && v == stem + AllowedExtensions[i]
  {
    EndsWithIffStem(v, ".pdf");
    EndsWithIffStem(v, ".docx");
    EndsWithIffStem(v, ".csv");
    if exists stem: string, i :: 0 <= i < |AllowedExtensions| && v == stem + AllowedExtensions[i] {
      var stem: string, i :| 0 <= i < |AllowedExtensions| && v == stem + AllowedExtensions[i];
      EndsWithConcat(stem, AllowedExtensions[i]);
    }
    if CheckExtension(v).Ok? {
      if EndsWith(v, ".pdf") {
        var stem: string :| v == stem + ".pdf";
        assert v == stem + AllowedExtensions[0];
      } else if EndsWith(v, ".docx") {
        var stem: string :| v == stem + ".docx";
        assert v == stem + AllowedExtensions[1];
      } else {
        var stem: string :| v == stem + ".csv";
        assert v == stem + AllowedExtensions[2];
      }
    }
  }

  /** The suffix test does not fold case: upper-case extensions are refused
      whatever precedes them. */
  lemma UpperCaseExtensionRejected(stem: string)
    ensures CheckExtension(stem + ".PDF") == Err(InvalidFileTypeMessage)
    ensures CheckExtension(stem + ".DOCX") == Err(InvalidFileTypeMessage)
    ensures CheckExtension(stem + ".CSV") == Err(InvalidFileTypeMessage)
  {
    var ups := [".PDF", ".DOCX", ".CSV"];
    forall k | 0 <= k < |ups|
      ensures !HasAllowedExtension(stem + ups[k])
    {
      var s := stem + ups[k];
      assert s[|s| - 1] == ups[k][|ups[k]| - 1];
    }
    assert !HasAllowedExtension(stem + ups[0]);
    assert !HasAllowedExtension(stem + ups[1]);
    assert !HasAllowedExtension(stem + ups[2]);
  }

  /** Worked examples the filename validator accepts, among them a bare
      extension with nothing before it. */
  lemma AcceptedFilenameExamples()
    ensures CheckExtension(".pdf") == Ok(".pdf")
    ensures CheckExtension("report.pdf") == Ok("report.pdf")
    ensures CheckExtension("notes.docx") == Ok("notes.docx")
    ensures CheckExtension("data.csv") == Ok("data.csv")
  {
  }

  /** Worked examples the filename validator rejects: another extension,
      and an allowed one written in upper case. */
  lemma RejectedFilenameExamples()
    ensures CheckExtension("report.txt") == Err(InvalidFileTypeMessage)
    ensures CheckExtension("X.PDF") == Err(InvalidFileTypeMessage)
  {
  }

  /** The declared or expected type plays no part: whatever extra keyword
      arguments accompany the filename, the outcome is the same. */
  lemma ExtrasIgnored(filename: string, extras1: map<string, string>, extras2: map<string, string>)
    ensures NewUploadedFileInfo(filename, extras1) == NewUploadedFileInfo(filename, extras2)
    ensures NewUploadedFileInfo(filename, extras1).Ok? <==> CheckExtension(filename).Ok?
  {
  }

  /** A `.csv` name passed with `expected_type="pdf"` is still accepted. */
  lemma CsvNameWithPdfExpectedTypeAccepted()
    ensures NewUploadedFileInfo("data.csv", map["expected_type" := "pdf"])
              == Ok(UploadedFileInfo("data.csv"))
  {
  }
}
