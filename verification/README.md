# Transcript core of the Tauri/React/Python transcription app

This project models, in Dafny, the three pieces of pure logic in a desktop
transcription app. The app has a React front end, a Tauri (Rust) shell and a
WhisperX Python script. Its remaining code is UI wiring, process spawning and
calls into machine-learning libraries.

- **Low-confidence word extraction** (`getErrorsFromText`). A transcript is a
  sequence of sentences, and each sentence holds its words. The extraction
  returns every word whose confidence is strictly below 0.5, sentence by
  sentence, and inside each sentence word by word. Module `ErrorExtraction`
  models it twice. `GetErrorsFromText` is the nested loop as written.
  `Errors` is the reference meaning: the flattened word list, filtered. The
  method is proved equal to the reference, and the lemmas describe the
  reference: soundness, completeness with multiplicity, order, identity of
  the returned records, distribution over concatenation, the empty cases and
  the bound on the result's length. Module `Transcripts` holds the data
  shape (`WordType`, `SentenceType`, `Transcript`).
- **Segment-to-sentence conversion and transcript path** in the WhisperX
  script. Module `PyValues` models the Python values the script handles.
  It also models `dict.get`, where a key stored with `None` still counts as
  present, and a `for` loop that propagates the first exception. Module
  `WhisperProto` models the conversion loop, with its per-field defaults and
  the `probability` → `confidence` → `score` → `None` fallback for
  confidence. It also models the `rsplit(".", 1)[0] + "_transcript.json"`
  path derivation.
- **Audio file acceptance** (`handleFiles`). Module `DragAndDropAudio` models
  the handler as a step on the selected-file state. Only the first file is
  inspected. That file is selected exactly when its MIME type starts with
  `audio/`. Otherwise an alert is raised and the selection is unchanged.

Values are immutable in Dafny, so "the input transcript is not changed"
holds by construction. Confidence is a `real`, and it is only ever compared
with 0.5.

Facts about the code that the model keeps:
- The threshold is the constant 0.5 (src/utils/getErrorsFromText.ts:7).
- The result holds the word records themselves. `ErrorPositions` recovers
  their flat positions in the transcript.
- Confidence is not range-checked.
- The sentence text field is `sentence`.

## Model

| member | source | states |
|---|---|---|
| ErrorExtraction.GetErrorsFromText | src/utils/getErrorsFromText.ts:3-13 | the nested loop over sentences and their words returns exactly the reference result: the flattened word list filtered by confidence < 0.5 |
| ErrorExtraction.PushSentenceErrors | src/utils/getErrorsFromText.ts:6-10 | the inner loop over one sentence's words keeps whatever was collected before and appends this sentence's low-confidence words in word order |
| ErrorExtraction.LowConfidence | src/utils/getErrorsFromText.ts:7 | every word kept has confidence strictly below the threshold, and there are never more words kept than given |
| ErrorExtraction.LowConfidenceCount | src/utils/getErrorsFromText.ts:5-11 | a word occurs in the filter's output as often as in its input if its confidence is below 0.5, and otherwise not at all |
| ErrorExtraction.ErrorPositions | src/utils/getErrorsFromText.ts:5-8 | the output is the input's words at a strictly increasing list of positions, and those positions are exactly the positions of the low-confidence words; so order is kept and the returned records are the input's own |
| ErrorExtraction.LowConfidenceAppend | src/utils/getErrorsFromText.ts:5-11 | filtering a concatenation gives the two filtered parts concatenated |
| ErrorExtraction.ErrorsAppend | src/utils/getErrorsFromText.ts:5-11 | errors(a ++ b) == errors(a) ++ errors(b) for transcripts |
| ErrorExtraction.ErrorsOfSentence | src/utils/getErrorsFromText.ts:6-10 | the errors of a single sentence are its low-confidence words in word order |
| ErrorExtraction.ErrorsCons | src/utils/getErrorsFromText.ts:5-8 | sentence order comes first: the errors of the first sentence precede all errors of the later ones |
| ErrorExtraction.ErrorsMembership | src/utils/getErrorsFromText.ts:7 | a word is returned if and only if it occurs in the transcript with confidence < 0.5; a word at exactly 0.5 is never returned |
| ErrorExtraction.ErrorsCount | src/utils/getErrorsFromText.ts:5-11 | multiplicity is preserved: each low-confidence word is returned once per occurrence in the transcript |
| ErrorExtraction.ErrorsEmptyIff | src/utils/getErrorsFromText.ts:4-12 | the result is empty if and only if every word has confidence >= 0.5 |
| ErrorExtraction.NoWordsNoErrors | src/utils/getErrorsFromText.ts:4-12 | an empty transcript, or one whose sentences all have empty word lists, yields an empty result |
| ErrorExtraction.ErrorsBounded | src/utils/getErrorsFromText.ts:5-11 | the result never has more entries than the transcript has words, summed over its sentences |
| PyValues.Elements | src-tauri/scripts/whisper_proto.py:67 | a `for` loop whose body calls `.get` on each element: a list yields its items; an empty str or dict yields nothing; a non-empty str or dict raises AttributeError; None, bools and numbers raise TypeError |
| PyValues.MapResults | src-tauri/scripts/whisper_proto.py:67-84 | the append loop yields one converted element per input element in order, succeeds exactly when every element converts, and otherwise raises the exception of the first element that fails |
| WhisperProto.Confidence | src-tauri/scripts/whisper_proto.py:76 | confidence is `probability` if that key is present, else `confidence`, else `score`, else None; a key stored with None wins over the later keys |
| WhisperProto.ConvertWord | src-tauri/scripts/whisper_proto.py:76-82 | a word dict becomes a record whose `word` defaults to "" and whose `start` and `end` default to None, present keys copied as stored; a non-dict raises AttributeError |
| WhisperProto.ConvertSegment | src-tauri/scripts/whisper_proto.py:67-84 | a segment converts exactly when it is a dict whose `words` can be walked; `start`/`end` default to None and `sentence` to ""; `words` has one record per segment word, in order; a non-dict segment raises AttributeError, `words` stored as None, a bool or a number raises TypeError, and any other failure is AttributeError |
| WhisperProto.ConvertSegments | src-tauri/scripts/whisper_proto.py:65-84 | a missing `segments` key gives no sentences; a segment list gives one sentence per segment in order, or fails exactly when some segment is ill-shaped, with the exception of the first such segment; None, a bool or a number raises TypeError; an empty str or dict gives no sentences and a non-empty one raises AttributeError |
| WhisperProto.LastIndexOf | src-tauri/scripts/whisper_proto.py:89 | finds the position of the last occurrence of a character, or reports that it does not occur |
| WhisperProto.RSplitOnce | src-tauri/scripts/whisper_proto.py:89 | `rsplit(sep, 1)` gives one part (the whole string) exactly when `sep` is absent, else two parts that rejoin with `sep` to the input, the second free of `sep` |
| WhisperProto.TranscriptPath | src-tauri/scripts/whisper_proto.py:89 | the path ends in `_transcript.json`; the part before it is a prefix of the audio path; that prefix is the whole path when there is no `.`, and otherwise what is dropped starts at a `.` and holds no other `.` |
| DragAndDropAudio.HandleFiles | src/components/drag-and-drop-audio/drag-and-drop-audio.tsx:7-15 | a file is accepted if and only if the list is non-empty and the first file's type starts with `audio/`; on acceptance the selection becomes that file and it is logged; on rejection the selection is unchanged and the alert is raised |
| DragAndDropAudio.OnlyFirstFileMatters | src/components/drag-and-drop-audio/drag-and-drop-audio.tsx:8 | files after the first never change the outcome |
| DragAndDropAudio.EmptyListRejected | src/components/drag-and-drop-audio/drag-and-drop-audio.tsx:8-13 | an empty file list is rejected with the alert and leaves the selection unchanged |

## Left out

- WhisperX and Whisper model loading, transcription, alignment and device selection (src-tauri/scripts/whisper_proto.py:34-59, src-tauri/scripts/whisper_app.py): these are foreign machine-learning libraries. Their output enters the model only as the `aligned` dict given to `ConvertSegments`.
- Logging, argument parsing and the JSON file write (src-tauri/scripts/whisper_proto.py:11-29, 90-94): these are I/O. The model stops at the sentence records and the path.
- JSON serialisation of the records, and Python values the model does not represent (tuples, numpy scalars, non-str dict keys): `Value` covers None, bools, numbers, strs, lists and str-keyed dicts.
- The process spawning and stdin/stdout piping in src-tauri/src/main.rs, and script.py: these are OS I/O and a foreign JSON parser. The JSON that main.rs builds by hand does no escaping, so the model claims no round trip through it.
- How the front end reads a JSON transcript that holds `null` times or confidences: the TypeScript types declare numbers, and the model's `Word` follows those types. The two halves do not match here. `WhisperProto.Confidence` yields None for a word dict with none of the three confidence keys. In JavaScript `null < 0.5` is true, so the extraction would return every such word.
- `useAudioRecorder` and `AudioRecorder`: these use browser media APIs, asynchronous invokes and base64 encoding.
- The word editor's sanitisation (src/components/word-container/word-container.tsx): it is a thin wrapper over the `sanitize-html` library, which is not part of this model.
- The audio player and its provider, `seekTo` and the time-update listener: these are DOM element wiring.
- Next/previous error navigation: `prevError` and `nextError` only raise an alert, so there is no navigation behaviour to model.
- Decoding the `whisper-done` payload: only its type is declared, and no parsing code exists.
- Routing, layout, the sidebar, the home page and the `App` preload: these are view composition only.
- `handleDrop`, `handleDragOver`, `handleClick` and `handleFileChange`: these are event plumbing that hands a file list to `handleFiles`.
- NaN and non-numeric confidences: confidence is a `real`, and there is no floating-point arithmetic in the core.
