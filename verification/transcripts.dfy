/**
 * The transcript shape the front end consumes: a transcript is a sequence of
 * sentences, each holding its words in document order.
 */
module Transcripts {

  /** A recognised word with its time span (seconds) and recogniser confidence. */
  datatype Word = Word(word: string, start: real, end: real, confidence: real)

  /** A sentence with its time span, its text and its words in order. */
  datatype Sentence = Sentence(start: real, end: real, sentence: string, words: seq<Word>)

  type Transcript = seq<Sentence>

  /** Every word of the transcript, sentence after sentence, each sentence's words in order. */
  function Flatten(t: Transcript): seq<Word>
    decreases |t|
  {
    if t == [] then [] else Flatten(t[..|t| - 1]) + t[|t| - 1].words
  }

  /** The total number of words, summed sentence by sentence. */
  function WordCount(t: Transcript): nat
    decreases |t|
  {
    if t == [] then 0 else WordCount(t[..|t| - 1]) + |t[|t| - 1].words|
  }

  /** The flattened list holds exactly as many words as the sentences hold together. */
  lemma {:induction false} FlattenLength(t: Transcript)
    ensures |Flatten(t)| == WordCount(t)
    decreases |t|
  {
    if t != [] {
      FlattenLength(t[..|t| - 1]);
    }
  }

  /** Flattening distributes over the concatenation of transcripts. */
  lemma {:induction false} FlattenAppend(a: Transcript, b: Transcript)
    ensures Flatten(a + b) == Flatten(a) + Flatten(b)
    decreases |b|
  {
    if b == [] {
      assert a + b == a;
    } else {
      var b' := b[..|b| - 1];
      assert (a + b)[..|a + b| - 1] == a + b';
      FlattenAppend(a, b');
    }
  }

  /** Appending one sentence appends its words. */
  lemma FlattenSnoc(t: Transcript, s: Sentence)
    ensures Flatten(t + [s]) == Flatten(t) + s.words
  {
  }

  /** A one-sentence transcript flattens to that sentence's words. */
  lemma FlattenSingle(s: Sentence)
    ensures Flatten([s]) == s.words
  {
  }

  /** A transcript whose sentences all have empty word lists has no words at all. */
  lemma {:induction false} FlattenNoWords(t: Transcript)
    requires forall i :: 0 <= i < |t| ==> t[i].words == []
    ensures Flatten(t) == []
    decreases |t|
  {
    if t != [] {
      FlattenNoWords(t[..|t| - 1]);
    }
  }
}
