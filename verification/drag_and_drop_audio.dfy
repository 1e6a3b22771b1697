/**
 * The audio picker's file handler: of the files dropped or chosen, only the
 * first is looked at, and it becomes the selected audio file only when its
 * MIME type starts with `audio/`; otherwise the user is alerted and the
 * selection stays as it was.
 */
module DragAndDropAudio {

  import opened Options

  /** A browser file, reduced to what the handler reads. */
  datatype File = File(name: string, mimeType: string)

  /** The visible side effect of one call: a console log of the chosen file, or an alert. */
  datatype Notice = Logged(file: File) | Alerted(message: string)

  /** The selected-file state after the call, with the notice it produced. */
  datatype Step = Step(audioFile: Option<File>, notice: Notice)

  const AudioPrefix: string := "audio/"

  const InvalidFileMessage: string := "Please upload a valid audio file."

  predicate IsAudio(f: File) {
    AudioPrefix <= f.mimeType
  }

  /** One call of the handler on the current selection `audioFile` and the list `files`. */
  function HandleFiles(audioFile: Option<File>, files: seq<File>): (s: Step)
    ensures s.notice.Logged? <==> |files| > 0 && |files[0].mimeType| >= 6 && files[0].mimeType[..6] == "audio/"
    ensures s.notice.Logged? ==> s.audioFile == Some(files[0]) && s.notice.file == files[0]
    ensures s.notice.Alerted? ==> s.audioFile == audioFile && s.notice.message == InvalidFileMessage
  {
    if |files| > 0 && IsAudio(files[0]) then Step(Some(files[0]), Logged(files[0]))
    else Step(audioFile, Alerted(InvalidFileMessage))
  }

  /** Only the first file is inspected: the files after it never change the outcome. */
  lemma OnlyFirstFileMatters(audioFile: Option<File>, first: File, rest: seq<File>, other: seq<File>)
    ensures HandleFiles(audioFile, [first] + rest) == HandleFiles(audioFile, [first] + other)
  {
  }

  /** An empty file list is rejected and leaves the selection unchanged. */
  lemma EmptyListRejected(audioFile: Option<File>)
    ensures HandleFiles(audioFile, []) == Step(audioFile, Alerted(InvalidFileMessage))
  {
  }
}
