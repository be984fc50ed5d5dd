/** The checks the assistant's page script makes before acting: pressing a
    "Process" button validates every selected filename before any text is
    extracted, and a question is validated before any language model is
    asked. A rejection ends that action with an error message. The
    question path for a selected CSV file does not repeat the filename
    check. */
module Gates {
  import opened Wrappers
  import opened Models

  /** Every name of an upload batch passes the filename validator. */
  predicate AllValid(names: seq<string>) {
    forall i :: 0 <= i < |names| ==> HasAllowedExtension(names[i])
  }

  /** What pressing a "Process" button leads to. */
  datatype UploadDecision =
    | NothingSelected
    | Rejected(index: nat, error: ValidationError)
    | Proceed(files: seq<UploadedFileInfo>)

  /** The validation loop in front of extraction: an empty selection does
      nothing; otherwise each file is validated in order, together with the
      type the button stands for, and the first rejection aborts the whole
      batch. Only a batch with no rejection proceeds to extraction. */
  method GateUploads(names: seq<string>, expectedType: string) returns (d: UploadDecision)
    ensures d.NothingSelected? <==> |names| == 0
    ensures d.Proceed? <==> |names| > 0 && AllValid(names)
    ensures d.Proceed? ==>
              |d.files| == |names| &&
              forall i :: 0 <= i < |names| ==> d.files[i] == UploadedFileInfo(names[i])
    ensures d.Rejected? ==>
              && d.index < |names|
              && !HasAllowedExtension(names[d.index])
              && AllValid(names[..d.index])
              && d.error == ValidationError([ValueError("filename", InvalidFileTypeMessage)])
  {
    if |names| == 0 {
      return NothingSelected;
    }
    var files: seq<UploadedFileInfo> := [];
    var i := 0;
    while i < |names|
      invariant 0 <= i <= |names|
      invariant |files| == i
      invariant forall j :: 0 <= j < i ==> files[j] == UploadedFileInfo(names[j])
      invariant AllValid(names[..i])
    {
      match NewUploadedFileInfo(names[i], map["expected_type" := expectedType]) {
        case Err(e) =>
          return Rejected(i, e);
        case Ok(info) =>
          files := files + [info];
          i := i + 1;
      }
    }
    assert names[..i] == names;
    return Proceed(files);
  }

  /** The rejection point is determined by the names alone: at most one
      index is invalid with every earlier name valid, so the batch outcome
      cannot depend on the expected type handed to the validator. */
  lemma RejectionIndexUnique(names: seq<string>, i: nat, j: nat)
    requires i < |names| && !HasAllowedExtension(names[i]) && AllValid(names[..i])
    requires j < |names| && !HasAllowedExtension(names[j]) && AllValid(names[..j])
    ensures i == j
  {
  }

  /** A batch is valid exactly when each of its parts is. */
  lemma AllValidAppend(a: seq<string>, b: seq<string>)
    ensures AllValid(a + b) <==> AllValid(a) && AllValid(b)
  {
    if AllValid(a + b) {
      forall i | 0 <= i < |a| ensures HasAllowedExtension(a[i]) {
        assert (a + b)[i] == a[i];
      }
      forall i | 0 <= i < |b| ensures HasAllowedExtension(b[i]) {
        assert (a + b)[|a| + i] == b[i];
      }
    }
    if AllValid(a) && AllValid(b) {
      forall i | 0 <= i < |a + b| ensures HasAllowedExtension((a + b)[i]) {
        if i < |a| {
          assert (a + b)[i] == a[i];
        } else {
          assert (a + b)[i] == b[i - |a|];
        }
      }
    }
  }

  /** One file with a refused name spoils the batch it is part of. */
  lemma OneRejectionSpoilsBatch(before: seq<string>, bad: string, after: seq<string>)
    requires !HasAllowedExtension(bad)
    ensures !AllValid(before + [bad] + after)
  {
    assert (before + [bad] + after)[|before|] == bad;
  }

  /** What a submitted question leads to. */
  datatype QuestionDecision =
    | NoQuestion
    | Refused(error: ValidationError)
    | Ask(question: UserQuestion)

  /** The question gate: an empty text box does nothing, a text outside
      the length bounds is refused, and only a valid question reaches a
      language model, carrying exactly the text the user typed. */
  function GateQuestion(input: string): (d: QuestionDecision)
    ensures d.NoQuestion? <==> input == ""
    ensures d.Ask? <==> MinQuestionLength <= |input| <= MaxQuestionLength
    ensures d.Ask? ==> d.question == UserQuestion(input) && d.question.Valid()
    ensures d.Refused? ==> 0 < |input| < MinQuestionLength || MaxQuestionLength < |input|
    ensures 0 < |input| < MinQuestionLength ==>
              d == Refused(ValidationError([StringTooShort("text", MinQuestionLength)]))
    ensures MaxQuestionLength < |input| ==>
              d == Refused(ValidationError([StringTooLong("text", MaxQuestionLength)]))
  {
    if input == "" then
      NoQuestion
    else
      match NewUserQuestion(input)
      case Err(e) => Refused(e)
      case Ok(q) => Ask(q)
  }

  /** The short greeting "Hi" never reaches a model. */
  lemma ShortQuestionNeverAsked()
    ensures GateQuestion("Hi") == Refused(ValidationError([StringTooShort("text", 5)]))
  {
  }
}
