/**
 * The pure part of the WhisperX transcription script: turning the aligned
 * segments into JSON-ready sentence records, and deriving the path of the
 * transcript file from the path of the audio file. The recogniser's output
 * is an input here: a dict that may hold a list of segment dicts.
 */
module WhisperProto {

  import opened PyValues
  import opened Options

  /** One word of the exported JSON, keys in the order the script writes them. */
  datatype WordRecord = WordRecord(word: Value, start: Value, end: Value, confidence: Value)

  /** One sentence of the exported JSON, keys in the order the script writes them. */
  datatype SentenceRecord = SentenceRecord(start: Value, end: Value, sentence: Value, words: seq<WordRecord>)

  /**
   * The word confidence: the first of the keys `probability`, `confidence`
   * and `score` that is present, else `None`. Presence is what counts, so a
   * key stored with `None` wins over the keys after it.
   */
  function Confidence(info: Dict): (c: Value)
    ensures "probability" in info ==> c == info["probability"]
    ensures "probability" !in info && "confidence" in info ==> c == info["confidence"]
    ensures "probability" !in info && "confidence" !in info && "score" in info ==> c == info["score"]
    ensures "probability" !in info && "confidence" !in info && "score" !in info ==> c == PyNone
  {
    Get(info, "probability", Get(info, "confidence", Get(info, "score", PyNone)))
  }

  /** The record for one aligned word; anything but a dict has no `.get`. */
  function ConvertWord(v: Value): (r: Result<WordRecord>)
    ensures r.Ok? <==> v.PyDict?
    ensures r.Raised? ==> r.exception == AttributeError
    ensures r.Ok? ==> r.value.confidence == Confidence(v.entries)
    ensures r.Ok? && "word" !in v.entries ==> r.value.word == PyStr("")
    ensures r.Ok? && "start" !in v.entries ==> r.value.start == PyNone
    ensures r.Ok? && "end" !in v.entries ==> r.value.end == PyNone
    ensures r.Ok? && "word" in v.entries ==> r.value.word == v.entries["word"]
    ensures r.Ok? && "start" in v.entries ==> r.value.start == v.entries["start"]
    ensures r.Ok? && "end" in v.entries ==> r.value.end == v.entries["end"]
  {
    match v
    case PyDict(d) =>
      Ok(WordRecord(Get(d, "word", PyStr("")), Get(d, "start", PyNone), Get(d, "end", PyNone), Confidence(d)))
    case _ => Raised(AttributeError)
  }

  /** A value the word loop can walk without raising: a list of dicts, or an empty str or dict. */
  predicate WordsWalkable(v: Value) {
    || (v.PyList? && forall j :: 0 <= j < |v.items| ==> v.items[j].PyDict?)
    || v == PyStr([])
    || v == PyDict(map[])
  }

  /** A segment the conversion accepts: a dict whose `words`, if present, can be walked. */
  predicate WellShapedSegment(v: Value) {
    v.PyDict? && ("words" in v.entries ==> WordsWalkable(v.entries["words"]))
  }

  /**
   * The sentence record for one aligned segment: `start` and `end` default
   * to `None`, the text to the empty str, and `words` holds one record per
   * segment word, in order.
   */
  function ConvertSegment(v: Value): (r: Result<SentenceRecord>)
    ensures r.Ok? <==> WellShapedSegment(v)
    ensures r.Ok? && "start" !in v.entries ==> r.value.start == PyNone
    ensures r.Ok? && "end" !in v.entries ==> r.value.end == PyNone
    ensures r.Ok? && "text" !in v.entries ==> r.value.sentence == PyStr("")
    ensures r.Ok? && "start" in v.entries ==> r.value.start == v.entries["start"]
    ensures r.Ok? && "end" in v.entries ==> r.value.end == v.entries["end"]
    ensures r.Ok? && "text" in v.entries ==> r.value.sentence == v.entries["text"]
    ensures r.Ok? && "words" in v.entries && v.entries["words"].PyList? ==>
      var ws := v.entries["words"].items;
      |r.value.words| == |ws| && forall j :: 0 <= j < |ws| ==> r.value.words[j] == ConvertWord(ws[j]).value
    ensures r.Ok? && ("words" !in v.entries || !v.entries["words"].PyList?) ==> r.value.words == []
    ensures !v.PyDict? ==> r == Raised(AttributeError)
    ensures v.PyDict? && "words" in v.entries && (v.entries["words"].PyNone? || v.entries["words"].PyBool? || v.entries["words"].PyNum?) ==>
      r == Raised(TypeError)
    ensures v.PyDict? && "words" in v.entries && v.entries["words"].PyList? && r.Raised? ==> r.exception == AttributeError
    ensures v.PyDict? && "words" in v.entries && (v.entries["words"].PyStr? || v.entries["words"].PyDict?) && r.Raised? ==>
      r.exception == AttributeError
  {
    match v
    case PyDict(d) =>
      (match Elements(Get(d, "words", PyList([])))
       case Raised(e) => Raised(e)
       case Ok(ws) =>
         match MapResults(ws, ConvertWord)
         case Raised(e) => Raised(e)
         case Ok(words) =>
           Ok(SentenceRecord(Get(d, "start", PyNone), Get(d, "end", PyNone), Get(d, "text", PyStr("")), words)))
    case _ => Raised(AttributeError)
  }

  /**
   * The sentence list the script exports: one record per aligned segment, in
   * segment order; no `segments` key means no sentences.
   */
  function ConvertSegments(aligned: Dict): (r: Result<seq<SentenceRecord>>)
    ensures "segments" !in aligned ==> r == Ok([])
    ensures "segments" in aligned && aligned["segments"].PyList? ==>
      var segs := aligned["segments"].items;
      && (r.Ok? <==> forall i :: 0 <= i < |segs| ==> WellShapedSegment(segs[i]))
      && (r.Ok? ==> |r.value| == |segs| && forall i :: 0 <= i < |segs| ==> r.value[i] == ConvertSegment(segs[i]).value)
    ensures "segments" in aligned && (aligned["segments"].PyNone? || aligned["segments"].PyBool? || aligned["segments"].PyNum?) ==>
      r == Raised(TypeError)
    ensures "segments" in aligned && (aligned["segments"].PyStr? || aligned["segments"].PyDict?) ==>
      r == (if aligned["segments"] in {PyStr([]), PyDict(map[])} then Ok([]) else Raised(AttributeError))
    ensures "segments" in aligned && aligned["segments"].PyList? && r.Raised? ==>
      exists i :: (0 <= i < |aligned["segments"].items| && ConvertSegment(aligned["segments"].items[i]).Raised?
                   && r.exception == ConvertSegment(aligned["segments"].items[i]).exception
                   && forall j :: 0 <= j < i ==> ConvertSegment(aligned["segments"].items[j]).Ok?)
  {
    match Elements(Get(aligned, "segments", PyList([])))
    case Raised(e) => Raised(e)
    case Ok(segs) => MapResults(segs, ConvertSegment)
  }

  // ---------------------------------------------------------------------
  // Transcript path
  // ---------------------------------------------------------------------

  /** The position of the last occurrence of `c` in `s`, if any. */
  function LastIndexOf(s: string, c: char): (r: Option<nat>)
    ensures r.None? <==> c !in s
    ensures r.Some? ==> r.value < |s| && s[r.value] == c && c !in s[r.value + 1..]
    decreases |s|
  {
    if s == [] then None
    else if s[|s| - 1] == c then Some(|s| - 1)
    else
      var r := LastIndexOf(s[..|s| - 1], c);
      if r.Some? then
        assert s[r.value + 1..] == s[..|s| - 1][r.value + 1..] + [s[|s| - 1]];
        r
      else
        assert s == s[..|s| - 1] + [s[|s| - 1]];
        r
  }

  /**
   * `s.rsplit(sep, 1)`: one part (the whole string) when `sep` does not
   * occur, else the text before and after the last `sep`.
   */
  function RSplitOnce(s: string, sep: char): (parts: seq<string>)
    ensures |parts| == 1 || |parts| == 2
    ensures |parts| == 1 <==> sep !in s
    ensures |parts| == 1 ==> parts[0] == s
    ensures |parts| == 2 ==> s == parts[0] + [sep] + parts[1] && sep !in parts[1]
  {
    match LastIndexOf(s, sep)
    case None => [s]
    case Some(k) =>
      assert s == s[..k] + [sep] + s[k + 1..];
      [s[..k], s[k + 1..]]
  }

  const TranscriptSuffix: string := "_transcript.json"

  /**
   * The transcript file path: the audio path with the text from its last
   * `.` onward dropped (kept whole when it has no `.`), then the suffix.
   */
  function TranscriptPath(audio: string): (p: string)
    ensures |p| >= |TranscriptSuffix| && p[|p| - |TranscriptSuffix|..] == TranscriptSuffix
    ensures p[..|p| - |TranscriptSuffix|] <= audio
    ensures '.' !in audio ==> p[..|p| - |TranscriptSuffix|] == audio
    ensures '.' in audio ==>
      var dropped := audio[|p| - |TranscriptSuffix|..];
      |dropped| >= 1 && dropped[0] == '.' && '.' !in dropped[1..]
  {
    var stem := RSplitOnce(audio, '.')[0];
    assert (stem + TranscriptSuffix)[..|stem|] == stem;
    stem + TranscriptSuffix
  }
}
