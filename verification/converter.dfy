/** The conversion workflow of the FileConverter component as a pure state
    machine. Each handler is a function from the component's state (and, for
    the remote steps, the outcome the environment delivers) to the next state
    together with the effects it issued, in order. */
module Converter {
  import opened Wrappers
  import Js
  import Formats

  /** What the component keeps of a picked or dropped file. */
  datatype FileInfo = FileInfo(name: string, contentType: string, size: nat)

  /** The component's state hooks. `userSession` is fixed when the component
      is created and no handler writes it. */
  datatype State = State(
    file: Option<FileInfo>,
    targetFormat: string,
    isUploading: bool,
    isConverting: bool,
    conversionResult: Js.Value,
    error: string,
    userSession: string)

  /** The effects the workflow issues, in the order it issues them. */
  datatype Effect =
    | ReadFile(file: FileInfo)
    | PostUpload(fileName: string, contentType: string, userSession: string)
    | PostConvert(conversionId: Js.Value, targetFormat: string)

  /** How the upload step ends: the file could not be read; the request or the
      JSON parse threw with a message; the server answered with a non-2xx
      status; or the server answered and this is its `conversion_id` field
      (`Js.Undefined` when the response has none). */
  datatype UploadOutcome =
    | ReadFailed
    | UploadThrew(message: string)
    | UploadNotOk
    | Uploaded(conversionId: Js.Value)

  /** How the convert step ends: thrown with a message, a non-2xx status, or
      the parsed response body. */
  datatype ConvertOutcome =
    | ConvertThrew(message: string)
    | ConvertNotOk
    | Converted(body: Js.Value)

  /** The result of `uploadFile`: the next state, the value it returns
      (`Js.Null` when it returns `null`), and the effects it issued. */
  datatype UploadRun = UploadRun(state: State, conversionId: Js.Value, effects: seq<Effect>)

  /** The result of a handler that returns nothing. */
  datatype Run = Run(state: State, effects: seq<Effect>)

  const SelectPrompt: string := "Please select a file and target format"
  const UploadFailurePrefix: string := "Failed to upload file: "
  const ConvertFailurePrefix: string := "Failed to convert file: "
  /** The message of the `Error` thrown on a non-2xx upload response. */
  const UploadFailedMessage: string := "Upload failed"
  /** The message of the `Error` thrown on a non-2xx convert response. */
  const ConversionFailedMessage: string := "Conversion failed"
  /** A failed file read rejects with the reader's error event, which has no
      `message` property, so the concatenation renders it as "undefined". */
  const ReadErrorMessage: string := "undefined"

  /** The state a freshly created component starts in. */
  function Initial(userSession: string): (s: State)
    ensures s.file.None? && s.targetFormat == "" && s.error == ""
    ensures !s.isUploading && !s.isConverting && !Js.Truthy(s.conversionResult)
    ensures s.userSession == userSession
  {
    State(None, "", false, false, Js.Null, "", userSession)
  }

  /** Every target format the state can hold is blank or a catalogue value. */
  predicate ValidTarget(s: State) {
    s.targetFormat == "" || Formats.InCatalog(s.targetFormat)
  }

  /** `handleFileSelect`: the picker's file list, of which only the first
      file is used. */
  function HandleFileSelect(s: State, files: seq<FileInfo>): (r: State)
    ensures |files| == 0 ==> r == s
    ensures |files| > 0 ==> r.file == Some(files[0]) && r.error == "" && r.conversionResult == Js.Null
    ensures r.targetFormat == s.targetFormat || Formats.InCatalog(r.targetFormat)
    ensures ValidTarget(s) ==> ValidTarget(r)
    ensures r.isUploading == s.isUploading && r.isConverting == s.isConverting
    ensures r.userSession == s.userSession
  {
    if |files| == 0 then s
    else
      var selected := files[0];
      var s1 := s.(file := Some(selected), error := "", conversionResult := Js.Null);
      match Formats.SuggestedFormat(Formats.FileExtension(selected.name))
      case Some(suggested) => s1.(targetFormat := suggested)
      case None => s1
  }

  /** `handleDrop`: the dropped file list, of which only the first file is
      used. The handler repeats the picker's logic in its own code. */
  function HandleDrop(s: State, files: seq<FileInfo>): (r: State)
    ensures |files| == 0 ==> r == s
    ensures |files| > 0 ==> r.file == Some(files[0]) && r.error == "" && r.conversionResult == Js.Null
    ensures r.targetFormat == s.targetFormat || Formats.InCatalog(r.targetFormat)
    ensures ValidTarget(s) ==> ValidTarget(r)
    ensures r.isUploading == s.isUploading && r.isConverting == s.isConverting
    ensures r.userSession == s.userSession
  {
    if |files| > 0 then
      var dropped := files[0];
      var suggestion := Formats.SuggestedFormat(Formats.FileExtension(dropped.name));
      s.(file := Some(dropped), error := "", conversionResult := Js.Null,
         targetFormat := if suggestion.Some? then suggestion.value else s.targetFormat)
    else s
  }

  /** The user clicks one of the catalogue's format buttons. */
  function ChooseFormat(s: State, value: string): (r: State)
    requires Formats.InCatalog(value)
    ensures ValidTarget(r) && r.targetFormat == value
    ensures r.(targetFormat := s.targetFormat) == s
  {
    s.(targetFormat := value)
  }

  /** `uploadFile`: refuses without a file or a target format; otherwise
      marks the upload busy, clears the error, reads the file, posts it, and
      returns the response's `conversion_id`, or `null` after recording a
      failure. The busy flag is cleared on every exit. */
  function UploadFile(s: State, outcome: UploadOutcome): (u: UploadRun)
    ensures s.file.None? || s.targetFormat == "" ==> u == UploadRun(s.(error := SelectPrompt), Js.Null, [])
    ensures s.file.Some? && s.targetFormat != "" ==>
      && !u.state.isUploading
      && u.state == s.(isUploading := false, error := u.state.error)
      && 1 <= |u.effects| <= 2
      && u.effects[0] == ReadFile(s.file.value)
      && (|u.effects| == 2 <==> !outcome.ReadFailed?)
      && (|u.effects| == 2 ==> u.effects[1] == PostUpload(s.file.value.name, s.file.value.contentType, s.userSession))
    ensures u.state.error == "" <==> s.file.Some? && s.targetFormat != "" && outcome.Uploaded?
    ensures u.conversionId != Js.Null ==> outcome.Uploaded? && u.conversionId == outcome.conversionId
    ensures s.file.Some? && s.targetFormat != "" && outcome.Uploaded? ==> u.conversionId == outcome.conversionId
  {
    if s.file.None? || s.targetFormat == "" then
      UploadRun(s.(error := SelectPrompt), Js.Null, [])
    else
      var f := s.file.value;
      var busy := s.(isUploading := true, error := "");
      var read := [ReadFile(f)];
      var posted := read + [PostUpload(f.name, f.contentType, s.userSession)];
      match outcome
      case ReadFailed =>
        UploadRun(busy.(error := UploadFailurePrefix + ReadErrorMessage, isUploading := false), Js.Null, read)
      case UploadThrew(message) =>
        UploadRun(busy.(error := UploadFailurePrefix + message, isUploading := false), Js.Null, posted)
      case UploadNotOk =>
        UploadRun(busy.(error := UploadFailurePrefix + UploadFailedMessage, isUploading := false), Js.Null, posted)
      case Uploaded(id) =>
        UploadRun(busy.(isUploading := false), id, posted)
  }

  /** `convertFile`: marks the conversion busy, posts the id with the current
      target format, and stores the response body or records a failure. The
      error is not cleared on success, nor the previous result on failure. */
  function ConvertFile(s: State, conversionId: Js.Value, outcome: ConvertOutcome): (r: Run)
    ensures r.effects == [PostConvert(conversionId, s.targetFormat)]
    ensures !r.state.isConverting
    ensures outcome.Converted? ==> r.state == s.(isConverting := false, conversionResult := outcome.body)
    ensures !outcome.Converted? ==> r.state == s.(isConverting := false, error := r.state.error)
    ensures !outcome.Converted? ==> |r.state.error| >= |ConvertFailurePrefix|
                                    && r.state.error[..|ConvertFailurePrefix|] == ConvertFailurePrefix
  {
    var busy := s.(isConverting := true);
    var effects := [PostConvert(conversionId, s.targetFormat)];
    match outcome
    case ConvertThrew(message) =>
      Run(busy.(error := ConvertFailurePrefix + message, isConverting := false), effects)
    case ConvertNotOk =>
      Run(busy.(error := ConvertFailurePrefix + ConversionFailedMessage, isConverting := false), effects)
    case Converted(body) =>
      Run(busy.(conversionResult := body, isConverting := false), effects)
  }

  /** `handleConvert`: one complete run of the upload step followed, when it
      returned a truthy id, by the convert step. */
  function HandleConvert(s: State, upload: UploadOutcome, convert: ConvertOutcome): (r: Run)
    ensures r.state.userSession == s.userSession
    ensures r.state.file == s.file && r.state.targetFormat == s.targetFormat
    ensures ValidTarget(s) ==> ValidTarget(r.state)
  {
    var u := UploadFile(s, upload);
    if Js.Truthy(u.conversionId) then
      var c := ConvertFile(u.state, u.conversionId, convert);
      Run(c.state, u.effects + c.effects)
    else
      Run(u.state, u.effects)
  }

  /** `resetForm`: forgets the file, the target, the result and the error. */
  function ResetForm(s: State): (r: State)
    ensures r.file.None? && r.targetFormat == "" && r.conversionResult == Js.Null && r.error == ""
    ensures r.userSession == s.userSession
    ensures r.isUploading == s.isUploading && r.isConverting == s.isConverting
    ensures ValidTarget(r)
  {
    s.(file := None, targetFormat := "", conversionResult := Js.Null, error := "")
  }
}
