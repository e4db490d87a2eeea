/** Properties that relate several handlers of the conversion workflow, and a
    replay of whole sessions of user events. */
module ConverterProperties {
  import opened Wrappers
  import Js
  import Formats
  import opened Converter

  /** The convert button's own condition: a file and a non-blank target. */
  predicate CanStart(s: State) {
    s.file.Some? && s.targetFormat != ""
  }

  /** Neither remote step is in flight, the only state in which the convert
      button can be pressed. */
  predicate Idle(s: State) {
    !s.isUploading && !s.isConverting
  }

  /** Picking and dropping the same files lead to the same state. */
  lemma IntakeEntryPointsAgree(s: State, files: seq<FileInfo>)
    ensures HandleFileSelect(s, files) == HandleDrop(s, files)
  {
  }

  /** The target format after intake, stated on the computed extension: png
      for jpg, jpg for any other recognised image, untouched otherwise. */
  lemma IntakeSuggestsTarget(s: State, files: seq<FileInfo>)
    requires |files| > 0
    ensures var ext := Formats.FileExtension(files[0].name);
            var r := HandleFileSelect(s, files);
            && (ext == "jpg" ==> r.targetFormat == "png")
            && (ext in Formats.RecognisedExtensions && ext != "jpg" ==> r.targetFormat == "jpg")
            && (ext !in Formats.RecognisedExtensions ==> r.targetFormat == s.targetFormat)
  {
    var ext := Formats.FileExtension(files[0].name);
    Js.ToLowerCaseNormalises(ext);
  }

  /** Taking in a file named `stem.ext`: png for a jpg extension in any case,
      jpg for any other recognised image extension, the previous target kept
      for anything else. */
  lemma IntakeOfNamedFile(s: State, stem: string, ext: string, contentType: string, size: nat)
    requires '.' !in ext
    ensures var r := HandleDrop(s, [FileInfo(stem + "." + ext, contentType, size)]);
            var e := Js.ToLowerCase(ext);
            && (e == "jpg" ==> r.targetFormat == "png")
            && (e in Formats.RecognisedExtensions && e != "jpg" ==> r.targetFormat == "jpg")
            && (e !in Formats.RecognisedExtensions ==> r.targetFormat == s.targetFormat)
  {
    Formats.ExtensionOfDottedName(stem, ext);
    Js.ToLowerCaseNormalises(ext);
  }

  /** Without a file or a target the run only records the prompt: no file
      read, no request, every other field as it was. */
  lemma StartRefused(s: State, upload: UploadOutcome, convert: ConvertOutcome)
    requires !CanStart(s)
    ensures HandleConvert(s, upload, convert) == Run(s.(error := SelectPrompt), [])
  {
  }

  /** The order of the effects of a run that starts: the file is read, then
      posted unless the read failed, then converted exactly when the upload
      answered with a truthy id, which is the id posted along with the current
      target format. */
  lemma ProtocolOrder(s: State, upload: UploadOutcome, convert: ConvertOutcome)
    requires CanStart(s)
    ensures var r := HandleConvert(s, upload, convert);
            var f := s.file.value;
            && 1 <= |r.effects| <= 3
            && r.effects[0] == ReadFile(f)
            && (|r.effects| >= 2 <==> !upload.ReadFailed?)
            && (|r.effects| >= 2 ==> r.effects[1] == PostUpload(f.name, f.contentType, s.userSession))
            && (|r.effects| == 3 <==> upload.Uploaded? && Js.Truthy(upload.conversionId))
            && (|r.effects| == 3 ==> r.effects[2] == PostConvert(upload.conversionId, s.targetFormat))
  {
  }

  /** In every run, each convert request directly follows an upload request
      whose response carried a truthy id, and sends that id. */
  lemma ConvertFollowsTruthyUpload(s: State, upload: UploadOutcome, convert: ConvertOutcome, i: nat)
    requires i < |HandleConvert(s, upload, convert).effects|
    requires HandleConvert(s, upload, convert).effects[i].PostConvert?
    ensures var r := HandleConvert(s, upload, convert);
            && i >= 1 && r.effects[i - 1].PostUpload?
            && upload.Uploaded? && Js.Truthy(upload.conversionId)
            && r.effects[i] == PostConvert(upload.conversionId, s.targetFormat)
  {
    ProtocolOrder(s, upload, convert);
  }

  /** A failed upload ends the run: the upload message is recorded, no
      convert request is issued, and the earlier result is kept. */
  lemma UploadFailureIsTerminal(s: State, upload: UploadOutcome, convert: ConvertOutcome)
    requires CanStart(s) && !upload.Uploaded?
    ensures var r := HandleConvert(s, upload, convert);
            && (forall e :: e in r.effects ==> !e.PostConvert?)
            && (upload.ReadFailed? ==> r.state.error == "Failed to upload file: undefined")
            && (upload.UploadThrew? ==> r.state.error == "Failed to upload file: " + upload.message)
            && (upload.UploadNotOk? ==> r.state.error == "Failed to upload file: Upload failed")
            && r.state == s.(isUploading := false, error := r.state.error)
  {
    ProtocolOrder(s, upload, convert);
  }

  /** An upload answered without a truthy id ends the run without a convert
      request and without any message. */
  lemma MissingIdEndsSilently(s: State, upload: UploadOutcome, convert: ConvertOutcome)
    requires CanStart(s) && upload.Uploaded? && !Js.Truthy(upload.conversionId)
    ensures var r := HandleConvert(s, upload, convert);
            r.state == s.(isUploading := false, error := "") && |r.effects| == 2
  {
  }

  /** After a truthy id the convert outcome lands: the body becomes the
      result, or the convert message is recorded and the earlier result kept. */
  lemma ConvertOutcomeLands(s: State, upload: UploadOutcome, convert: ConvertOutcome)
    requires CanStart(s) && upload.Uploaded? && Js.Truthy(upload.conversionId)
    ensures var r := HandleConvert(s, upload, convert);
            && !r.state.isUploading && !r.state.isConverting
            && (convert.Converted? ==> r.state.conversionResult == convert.body && r.state.error == "")
            && (convert.ConvertThrew? ==> r.state.error == "Failed to convert file: " + convert.message)
            && (convert.ConvertNotOk? ==> r.state.error == "Failed to convert file: Conversion failed")
            && (!convert.Converted? ==> r.state.conversionResult == s.conversionResult)
  {
  }

  /** The result changes only through a successful convert, and the run ends
      without a message exactly when the upload was answered. */
  lemma ResultAndMessage(s: State, upload: UploadOutcome, convert: ConvertOutcome)
    ensures var r := HandleConvert(s, upload, convert);
            && (r.state.conversionResult != s.conversionResult ==>
                  CanStart(s) && upload.Uploaded? && Js.Truthy(upload.conversionId) && convert.Converted?)
            && (r.state.error == "" <==>
                  CanStart(s) && upload.Uploaded? && (Js.Truthy(upload.conversionId) ==> convert.Converted?))
  {
  }

  /** A run that starts idle ends idle. */
  lemma RunEndsIdle(s: State, upload: UploadOutcome, convert: ConvertOutcome)
    requires Idle(s)
    ensures Idle(HandleConvert(s, upload, convert).state)
  {
  }

  /** Resetting twice is resetting once. */
  lemma ResetIdempotent(s: State)
    ensures ResetForm(ResetForm(s)) == ResetForm(s)
  {
  }

  /** Resetting an idle state, whatever happened before, gives back the
      initial state of the same session. */
  lemma ResetReturnsToInitial(s: State)
    requires Idle(s)
    ensures ResetForm(s) == Initial(s.userSession)
  {
  }

  /** The user events the component reacts to, each run to completion. */
  datatype Event =
    | Pick(files: seq<FileInfo>)
    | Drop(files: seq<FileInfo>)
    | Choose(value: string)
    | Convert(upload: UploadOutcome, convert: ConvertOutcome)
    | Reset

  /** The format buttons only offer catalogue values. */
  predicate Offered(e: Event) {
    e.Choose? ==> Formats.InCatalog(e.value)
  }

  function Step(s: State, e: Event): Run
    requires Offered(e)
  {
    match e
    case Pick(files) => Run(HandleFileSelect(s, files), [])
    case Drop(files) => Run(HandleDrop(s, files), [])
    case Choose(value) => Run(ChooseFormat(s, value), [])
    case Convert(upload, convert) => HandleConvert(s, upload, convert)
    case Reset => Run(ResetForm(s), [])
  }

  /** Replays a session of events from `s`, collecting every effect. The
      session token is never rewritten and is the one every upload request
      carries; the target stays blank or a catalogue value; and a session that
      starts idle stays idle between events. */
  function Replay(s: State, events: seq<Event>): (r: Run)
    requires forall i :: 0 <= i < |events| ==> Offered(events[i])
    ensures r.state.userSession == s.userSession
    ensures forall i :: 0 <= i < |r.effects| && r.effects[i].PostUpload? ==> r.effects[i].userSession == s.userSession
    ensures ValidTarget(s) ==> ValidTarget(r.state)
    ensures Idle(s) ==> Idle(r.state)
    decreases |events|
  {
    if |events| == 0 then Run(s, [])
    else
      var first := Step(s, events[0]);
      var rest := Replay(first.state, events[1..]);
      ProtocolShape(s, events[0]);
      Run(rest.state, first.effects + rest.effects)
  }

  /** One event keeps the facts `Replay` accumulates. */
  lemma ProtocolShape(s: State, e: Event)
    requires Offered(e)
    ensures var r := Step(s, e);
            && r.state.userSession == s.userSession
            && (forall i :: 0 <= i < |r.effects| && r.effects[i].PostUpload? ==> r.effects[i].userSession == s.userSession)
            && (ValidTarget(s) ==> ValidTarget(r.state))
            && (Idle(s) ==> Idle(r.state))
  {
    if e.Convert? && CanStart(s) {
      ProtocolOrder(s, e.upload, e.convert);
    }
  }

  /** A session that starts from a freshly created component keeps a valid
      target throughout and tags every upload with the token it was created
      with. */
  lemma SessionFromInitial(token: string, events: seq<Event>)
    requires forall i :: 0 <= i < |events| ==> Offered(events[i])
    ensures var r := Replay(Initial(token), events);
            && ValidTarget(r.state) && Idle(r.state) && r.state.userSession == token
            && forall i :: 0 <= i < |r.effects| && r.effects[i].PostUpload? ==> r.effects[i].userSession == token
  {
  }

  /** The file of the worked example: a 1.5 MB JPEG named `photo.jpg`. */
  const Photo: FileInfo := FileInfo("photo.jpg", "image/jpeg", 1572864)

  /** Picking a file whose extension is jpg on a fresh component keeps the
      file, suggests png, and changes nothing else. */
  lemma PickJpgOnFreshComponent(token: string, f: FileInfo)
    requires Formats.FileExtension(f.name) == "jpg"
    ensures HandleFileSelect(Initial(token), [f]) == State(Some(f), "png", false, false, Js.Null, "", token)
  {
    assert Js.ToLowerCase("jpg") == "jpg";
  }

  /** A file named `photo.jpg` has extension jpg, so picking it on a fresh
      component suggests png. */
  lemma PhotoJpgSuggestsPng(token: string, photo: FileInfo)
    requires photo.name == "photo.jpg"
    ensures HandleFileSelect(Initial(token), [photo]) == State(Some(photo), "png", false, false, Js.Null, "", token)
  {
    PhotoJpgExtension(photo.name);
    PickJpgOnFreshComponent(token, photo);
  }

  /** The extension of `photo.jpg` is jpg. */
  lemma PhotoJpgExtension(name: string)
    requires name == "photo.jpg"
    ensures Formats.FileExtension(name) == "jpg"
  {
    assert name == "photo" + "." + "jpg";
    Formats.ExtensionOfDottedName("photo", "jpg");
    assert Js.ToLowerCase("jpg") == "jpg";
  }

  /** The end-to-end run for `photo.jpg` with target png: an upload answered
      with id `abc123` and a convert answered with a download URL leave that
      body as the result, after exactly a read, an upload and a convert
      request, with no message and nothing in flight. */
  lemma PhotoJpgEndToEnd(token: string, url: string)
    ensures var picked := State(Some(Photo), "png", false, false, Js.Null, "", token);
            var body := Js.Obj(map["download_url" := Js.Str(url)]);
            var r := HandleConvert(picked, Uploaded(Js.Str("abc123")), Converted(body));
            && r.effects == [ReadFile(Photo), PostUpload("photo.jpg", "image/jpeg", token), PostConvert(Js.Str("abc123"), "png")]
            && r.state.conversionResult == body
            && r.state.error == "" && Idle(r.state)
  {
  }
}
