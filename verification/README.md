# Input validation of the multi-file chat assistant

The assistant lets a user upload PDF, Word (`.docx`) or CSV files, indexes
their text and answers questions about it. Before any of that happens, two
pydantic models guard the inputs, and a third records each exchange:

- `UserQuestion` accepts a question only when its length lies between 5 and
  200 characters, both included. An accepted text is stored exactly as typed.
- `UploadedFileInfo` accepts a filename only when it ends, case-sensitively,
  with `.pdf`, `.docx` or `.csv`. Otherwise it raises `ValueError("Invalid file type")`.
- `ChatTurn` is a `(question, answer)` record with no constraint on either field.

The page script uses these as gates. When a "Process" button is pressed,
each selected filename is validated before extraction, and the first
rejection aborts that action. A non-empty question is validated before any
language model is called. The question path for a selected CSV file does
not validate the filename again (see "## Left out").

The Dafny model is split into four modules:

- `Wrappers` (`wrappers.dfy`): the `Result` type.
- `Text` (`text.dfy`): Python's `str.endswith`, with a single suffix and
  with a tuple of suffixes.
- `Models` (`models.dfy`): the three pydantic models. Each one is a
  constructor function that returns the model or a `ValidationError`, which
  is a list of error details as pydantic reports them.
- `Gates` (`gates.dfy`): the upload gate and the question gate of the page script.

Lengths are counted in Unicode scalar values. Dafny's `string` counts the
same way, and so does pydantic's length constraint, which counts code points.

The caller passes a second keyword, `expected_type`, when it builds an
`UploadedFileInfo`. The model does not declare that field. Under pydantic's
default configuration the extra keyword is dropped unread. So the
declared type never takes part in the decision: a `.csv` name passed with
`expected_type="pdf"` is accepted. Nothing compares the name with
`expected_type`; `Models.ExtrasIgnored` states that independence.

## Model

| member | source | states |
|---|---|---|
| `Models.NewUserQuestion` | models.py:9-10 | a question is accepted iff 5 <= length <= 200; an accepted question stores the input unchanged; a shorter one fails with a single string-too-short(5) detail, a longer one with a single string-too-long(200) detail |
| `Models.QuestionLengthBoundaries` | models.py:10 | "Hi" is rejected as too short; every length-4 text is rejected; every text of length 5 or 200 is accepted as is; every text of length 201 is rejected as too long |
| `Models.CheckExtension` | models.py:16-20 | the validator (one `endswith` over the suffix tuple) accepts a name iff it ends with ".pdf", ".docx" or ".csv"; it returns an accepted name unchanged; every rejection carries the message "Invalid file type" |
| `Models.AcceptedIffStemAndExtension` | models.py:18 | the accepted names are exactly a stem, possibly empty, followed by one of the three extensions |
| `Models.UpperCaseExtensionRejected` | models.py:18-19 | the suffix test is case-sensitive: any stem followed by ".PDF", ".DOCX" or ".CSV" is rejected with "Invalid file type" |
| `Models.AcceptedFilenameExamples` | models.py:18-20 | a bare ".pdf" and the names "report.pdf", "notes.docx" and "data.csv" are accepted unchanged |
| `Models.RejectedFilenameExamples` | models.py:18-19 | "report.txt" and "X.PDF" are rejected with "Invalid file type" |
| `Models.NewUploadedFileInfo` | models.py:13-20 | building the model succeeds iff the filename has an allowed extension, keeps the filename unchanged, and otherwise fails with exactly one value-error detail on `filename` |
| `Models.ExtrasIgnored` | models.py:13-20 | the outcome does not depend on extra keyword arguments such as `expected_type`; it is decided by the filename validator alone |
| `Models.CsvNameWithPdfExpectedTypeAccepted` | app.py:45 | a ".csv" name passed with `expected_type="pdf"` is still accepted |
| `Models.NewChatTurn` | models.py:5-7 | a chat turn is built iff both `question` and `answer` are given; it keeps both values; otherwise the error lists exactly the missing fields |
| `Models.ChatTurnUnconstrained` | models.py:5-7 | any pair of strings makes a chat turn: neither field is constrained |
| `Models.ModelDump` | app.py:119-120 | the dumped history entry has exactly the keys `question` and `answer` |
| `Models.DumpRoundTrip` | app.py:119-120 | rebuilding a chat turn from its dumped history entry gives back the same turn |
| `Text.EndsWithAnyIff` | models.py:18 | `endswith` with a tuple, which tries the suffixes in order, is true iff some element of the tuple is a suffix |
| `Text.EndsWithIffStem` | models.py:18 | a string ends with a suffix iff it is some stem followed by that suffix |
| `Text.EndsWithConcat` | models.py:18 | whatever stem precedes a suffix, the result ends with it |
| `Gates.GateUploads` | app.py:42-48 | an empty selection does nothing; the batch proceeds iff every filename passes, with the validated names unchanged and in order; otherwise it is rejected at the first failing name, all earlier names having passed, with the "Invalid file type" error |
| `Gates.RejectionIndexUnique` | app.py:43-48 | at most one index can be the first invalid name of a batch, so the rejection point depends on the names alone |
| `Gates.AllValidAppend` | app.py:43-48 | a batch is valid iff each of its parts is valid |
| `Gates.OneRejectionSpoilsBatch` | app.py:43-48 | a batch holding one refused name is never valid, wherever that name sits |
| `Gates.GateQuestion` | app.py:94-100 | an empty input does nothing; a model is asked iff 5 <= length <= 200, with exactly the typed text; a refusal happens only when the length is between 1 and 4 or above 200, and it carries the single too-short(5) detail or the single too-long(200) detail respectively |
| `Gates.ShortQuestionNeverAsked` | app.py:96-100 | the question "Hi" is refused as too short and never reaches a model |

## Left out

- The Word and CSV upload gates behind the "Process" buttons (app.py:59-65, app.py:76-81) are the same loop as the PDF gate. The CSV gate runs on a one-element batch. All three are modelled by `Gates.GateUploads`, with the expected type as a parameter that is passed along and ignored.
- The CSV question path skips the filename gate. When a CSV file is selected, each valid question rebuilds the CSV agent from that file (app.py:102-104) without building `UploadedFileInfo`. A name the "Process CSV" gate refused, such as "DATA.CSV" if the uploader lets it through, is still written to the temporary directory and handed to the agent. `Gates.GateUploads` models only the button action. Nothing in the model ties the question path to an earlier successful upload gate.
- The uploader widgets' own type filter (`type="pdf"` and so on, app.py:40, 57, 74) belongs to Streamlit, whose code is not part of this model.
- Python strings can hold lone surrogate code points, and Dafny's `char` cannot. Filenames and questions holding one are not modelled.
- The wording of pydantic's error messages, and its location and context fields, are reduced to the error kind, the field name, the bound and the validator's message.
- Text extraction (file_processing.py) is a loop over PyPDF2 and python-docx readers, and the CSV path writes a temporary file and builds an external agent. Both are foreign calls and I/O.
- Chunking and the FAISS store (vector_store.py) are done by LangChain and FAISS, and their code is not part of this model. No chunk round trip is modelled, because the splitting algorithm is not visible.
- Retrieval and answering (qa_chain.py) load the store, run a similarity search and prompt a language model. These are external services. The "Answer not found" text is only an instruction in the prompt, and no code enforces it.
- The Bedrock-then-Ollama fallback (llm_setup.py) is a try/except around network clients and has no internal logic to state.
- The session chat history, its reversed display and the CSV download (app.py:121-129) are UI state. So is the logging. Only the shape of a history entry is modelled, by `Models.ModelDump`.
