# FileConverter conversion workflow in Dafny

This project models the conversion workflow of the React component
`FileConverter`. A user picks or drops a file. The component suggests a target
image format from the file's extension. On "Convert" it reads the file, posts
it to an `upload` endpoint and, if the upload returns a truthy
`conversion_id`, posts that id with the target format to a `convert` endpoint.
`resetForm` clears the form.

The component's state hooks form one immutable record, `Converter.State`.
Each handler is a pure function of that state. The remote calls are not made.
Each remote step instead takes the outcome the environment delivers as an
input:

- `UploadOutcome`: the read failed, the request threw, the response was not
  2xx, or the response's `conversion_id` (possibly `undefined`).
- `ConvertOutcome`: the request threw, the response was not 2xx, or the
  response body.

A run returns the final state and the effects it issued, in order:
`ReadFile`, `PostUpload` and `PostConvert`. Sequencing facts are stated over
this trace.

Modules:

- `Wrappers`: `Option`, used for a value that can be `null`.
- `Js`: JSON values and their JavaScript truthiness, `toLowerCase` (ASCII), and `split`, `join` and `pop`.
- `Formats`: the six-entry format catalogue, `isImageFile`, the file extension, and the suggested target.
- `Converter`: the state record, `handleFileSelect`, `handleDrop`, the format buttons, `uploadFile`, `convertFile`, `handleConvert` and `resetForm`.
- `ConverterProperties`: lemmas that relate handlers, `Replay` of a whole session of events, and the `photo.jpg` worked example.

The model follows the code as written:

- An unrecognised extension leaves the previous target format in place. It does not clear it.
- A failed upload or convert records a message but keeps an earlier `conversionResult`. Starting a run clears only the message.
- An upload answered without a truthy `conversion_id` ends the run silently. No convert request is sent and the message stays empty. It is not treated as a failure.
- A failed file read is reported as "Failed to upload file: undefined". The read rejects with the reader's error event, and that event has no `message` property.

## Model

| member | source | states |
|---|---|---|
| `Js.ToLowerCase` | src/FileConverter.js:63 | lower-casing keeps the length and maps each character through `LowerChar` |
| `Js.ToLowerCaseNormalises` | src/FileConverter.js:34 | the lower-cased extension has no capitals; lower-casing is idempotent, so `isImageFile` lower-casing again changes nothing |
| `Js.ToLowerCaseKeepsNonLetter` | src/FileConverter.js:34 | lower-casing neither adds nor removes a dot |
| `Js.Split` | src/FileConverter.js:34 | `split('.')` yields at least one piece, none containing the separator, and a single piece exactly when there is no separator |
| `Js.SplitJoin` | src/FileConverter.js:34 | joining the pieces of a split with the separator gives back the name |
| `Formats.CatalogueValues` | src/FileConverter.js:17-24 | the catalogue has six entries whose values are exactly jpg, png, gif, bmp, tiff and webp, each once |
| `Formats.IsImageFileExactly` | src/FileConverter.js:62-64 | `isImageFile` holds exactly when the lower-cased extension is a catalogue value or `jpeg`; `jpeg` is recognised but is not in the catalogue; case is ignored |
| `Formats.AfterLastDot` | src/FileConverter.js:34 | an independent definition of the extension: no dot, a suffix of the name, either the whole name or preceded by a dot |
| `Formats.ExtendAfterLastDot` | src/FileConverter.js:34 | appending a non-dot character to a name extends its text after the last dot by that character |
| `Formats.AfterLastDotUnique` | src/FileConverter.js:34 | only one string has those three properties |
| `Formats.LastPieceIsAfterLastDot` | src/FileConverter.js:34 | the piece `split('.').pop()` returns is the text after the last dot |
| `Formats.FileExtension` | src/FileConverter.js:50 | the intake's extension is the text after the last dot, lower-cased; a name with no dot yields the whole name lower-cased |
| `Formats.ExtensionOfDottedName` | src/FileConverter.js:34 | a name `stem.ext`, where `ext` has no dot, has extension `ext` lower-cased, however many dots the stem holds |
| `Formats.SuggestedFormat` | src/FileConverter.js:35-37 | a target is suggested exactly for recognised images; it is png exactly for jpg and jpg for every other recognised extension; it is always a catalogue value and never the extension itself |
| `Formats.SuggestionForName` | src/FileConverter.js:51-53 | for `stem.ext`: a jpg extension in any case gets png, any other recognised extension gets jpg, an unrecognised one gets no suggestion |
| `Converter.Initial` | src/FileConverter.js:5-11 | a new component has no file, a blank target, no message, no result and nothing in flight, with the given session token |
| `Converter.HandleFileSelect` | src/FileConverter.js:26-40 | no file is a no-op; a file is stored, the message cleared and the result set to null; the target is kept or becomes a catalogue value; flags and session are untouched |
| `Converter.HandleDrop` | src/FileConverter.js:42-56 | the same guarantees for a dropped file |
| `Converter.ChooseFormat` | src/FileConverter.js:266 | clicking a format button sets the target to that catalogue value and changes nothing else |
| `Converter.UploadFile` | src/FileConverter.js:75-112 | without a file or a target, only the prompt is recorded and no effect is issued; otherwise the busy flag ends false, only the message may change, the file is read and then posted with the session token unless the read failed; the message is empty exactly when the upload was answered; an answered upload returns its `conversion_id`, and a non-null return is that id |
| `Converter.ConvertFile` | src/FileConverter.js:114-140 | exactly one convert request carries the id and the current target; success stores the body and nothing else; failure records a message starting with "Failed to convert file: " and keeps the result; the busy flag ends false |
| `Converter.HandleConvert` | src/FileConverter.js:142-147 | a run never changes the file, the target or the session token, and keeps the target valid |
| `Converter.ResetForm` | src/FileConverter.js:149-157 | reset clears the file, the target, the result and the message, and leaves the busy flags and the session token alone |
| `ConverterProperties.IntakeEntryPointsAgree` | src/FileConverter.js:26-56 | picking and dropping the same file list give the same state |
| `ConverterProperties.IntakeSuggestsTarget` | src/FileConverter.js:34-37 | after intake the target is png for extension jpg, jpg for any other recognised extension, and unchanged otherwise |
| `ConverterProperties.IntakeOfNamedFile` | src/FileConverter.js:50-53 | the same rule for a dropped file named `stem.ext`, stated on the extension as written |
| `ConverterProperties.StartRefused` | src/FileConverter.js:76-79 | without a file or a target a run records "Please select a file and target format", issues no effect and changes nothing else |
| `ConverterProperties.ProtocolOrder` | src/FileConverter.js:84-146 | a started run reads the file first; it posts the upload unless the read failed; it posts the convert third exactly when the upload returned a truthy id, sending that id and the current target |
| `ConverterProperties.ConvertFollowsTruthyUpload` | src/FileConverter.js:143-146 | in any run a convert request directly follows an upload request, the upload returned a truthy id, and the convert request carries that id |
| `ConverterProperties.UploadFailureIsTerminal` | src/FileConverter.js:100-111 | a failed upload records "Failed to upload file: " and its cause, issues no convert request, ends with the upload not busy, and keeps the earlier result |
| `ConverterProperties.MissingIdEndsSilently` | src/FileConverter.js:104-105 | an upload answered without a truthy id ends with no convert request, an empty message and only the busy flag reset |
| `ConverterProperties.ConvertOutcomeLands` | src/FileConverter.js:129-139 | after a truthy id, success makes the body the result with no message; failure records "Failed to convert file: " and its cause and keeps the earlier result; neither flag is left set |
| `ConverterProperties.ResultAndMessage` | src/FileConverter.js:81-140 | the result changes only through a successful convert; a run ends with no message exactly when the upload was answered and, if a convert followed, it succeeded |
| `ConverterProperties.RunEndsIdle` | src/FileConverter.js:109-139 | a run that starts with nothing in flight ends with nothing in flight |
| `ConverterProperties.ResetIdempotent` | src/FileConverter.js:149-153 | resetting twice equals resetting once |
| `ConverterProperties.ResetReturnsToInitial` | src/FileConverter.js:149-157 | resetting an idle state gives the initial state with the same session token |
| `ConverterProperties.ProtocolShape` | src/FileConverter.js:26-157 | any single event keeps the session token, tags every upload with it, keeps the target valid and keeps an idle state idle |
| `ConverterProperties.Replay` | src/FileConverter.js:11 | over a whole session of events the token is never rewritten, every upload request carries it, the target stays blank or a catalogue value, and an idle start stays idle |
| `ConverterProperties.SessionFromInitial` | src/FileConverter.js:5-11 | from a fresh component, every session keeps a valid target and tags each upload with the token created at start |
| `ConverterProperties.PickJpgOnFreshComponent` | src/FileConverter.js:26-40 | picking a jpg on a fresh component yields exactly that file with target png and nothing else changed |
| `ConverterProperties.PhotoJpgSuggestsPng` | src/FileConverter.js:34-37 | picking `photo.jpg` suggests png |
| `ConverterProperties.PhotoJpgExtension` | src/FileConverter.js:34 | the extension of `photo.jpg` is jpg |
| `ConverterProperties.PhotoJpgEndToEnd` | src/FileConverter.js:142-147 | `photo.jpg` to png with id `abc123`: exactly a read, an upload and a convert request are issued, the download body becomes the result, there is no message and nothing is in flight |

## Left out

- Rendering, styling and the size display in megabytes (src/FileConverter.js:159-382). These are presentation and floating point.
- The `fetch` calls and the API base URL. The remote service is replaced by `UploadOutcome` and `ConvertOutcome` inputs. Parsing the response and reading `conversion_id` from it are folded into these outcomes. A response that cannot be parsed becomes `UploadThrew` or `ConvertThrew` with the runtime's message. So does an upload response whose body is `null`, because reading `conversion_id` from `null` throws. A `null` convert body is stored as the result, which is `Converted(Js.Null)`.
- The base64 payload from `FileReader`. The read appears only as the `ReadFile` effect and its `ReadFailed` outcome. `PostUpload` records the file name, content type and session token but not `file_data`.
- `Math.random` token generation. The session token is a parameter of `Initial`.
- Clearing the file input through `fileInputRef`, `preventDefault`, and `handleDragOver`. These are DOM side effects.
- Intermediate states while a request is pending, where `isUploading` or `isConverting` is true. Each run is modelled to completion, so they are not observable. Re-entrant starts and responses that arrive after a reset are also not modelled. The component relies on the disabled button for these and has no guard.
- Js.ToLowerCase: lower-cases only the ASCII letters. JavaScript lower-cases all of Unicode. Full Unicode lower-casing never turns a non-ASCII character into a letter of a recognised extension, so the image test and the suggestion are the same. The extension of a name containing other capitals is lower-cased less than in the browser.
- `Js.Value` numbers are integers. Fractions, `NaN` (falsy) and `-0` are not modelled. They matter only for the truthiness of a numeric `conversion_id`.
- Converter.ChooseFormat: can be applied in any state. The format buttons are shown only when a file with a recognised image extension is present (src/FileConverter.js:257), and that display condition is not modelled.
