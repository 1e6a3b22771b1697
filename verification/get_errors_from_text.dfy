/**
 * Low-confidence word extraction: the words of a transcript whose recogniser
 * confidence is strictly below a fixed threshold, in document order.
 */
module ErrorExtraction {

  import opened Transcripts

  /** The hard-coded confidence threshold; the comparison against it is strict. */
  const Threshold: real := 0.5

  predicate IsError(w: Word) {
    w.confidence < Threshold
  }

  /** The low-confidence words of `ws`, in their original order. */
  function LowConfidence(ws: seq<Word>): (r: seq<Word>)
    ensures |r| <= |ws|
    ensures forall k :: 0 <= k < |r| ==> IsError(r[k])
    decreases |ws|
  {
    if ws == [] then []
    else
      var init, last := ws[..|ws| - 1], ws[|ws| - 1];
      if IsError(last) then LowConfidence(init) + [last] else LowConfidence(init)
  }

  /** Multiplicity: every occurrence of a low-confidence word is kept, and no occurrence of another. */
  lemma {:induction false} LowConfidenceCount(ws: seq<Word>, w: Word)
    ensures multiset(LowConfidence(ws))[w] == if IsError(w) then multiset(ws)[w] else 0
    decreases |ws|
  {
    if ws != [] {
      var init, last := ws[..|ws| - 1], ws[|ws| - 1];
      assert ws == init + [last];
      assert multiset(ws) == multiset(init) + multiset{last};
      LowConfidenceCount(init, w);
    }
  }

  /** The reference meaning of the extraction: the flattened word list, filtered. */
  function Errors(t: Transcript): seq<Word> {
    LowConfidence(Flatten(t))
  }

  /**
   * The positions in `ws` of its low-confidence words, ascending; the filter
   * picks exactly the words at these positions, so it keeps order and returns
   * the input records themselves.
   */
  function ErrorPositions(ws: seq<Word>): (ps: seq<nat>)
    ensures |ps| == |LowConfidence(ws)|
    ensures forall k :: 0 <= k < |ps| ==> ps[k] < |ws| && LowConfidence(ws)[k] == ws[ps[k]]
    ensures forall k, l :: 0 <= k < l < |ps| ==> ps[k] < ps[l]
    ensures forall i :: 0 <= i < |ws| ==> (IsError(ws[i]) <==> i in ps)
    decreases |ws|
  {
    if ws == [] then []
    else
      var init, last := ws[..|ws| - 1], ws[|ws| - 1];
      var ps := ErrorPositions(init);
      LowConfidenceSnoc(init, last);
      assert ws == init + [last];
      assert forall i :: 0 <= i < |init| ==> ws[i] == init[i];
      if IsError(last) then
        var ps' := ps + [|ws| - 1];
        assert forall i :: 0 <= i < |ws| ==> (i in ps' <==> i in ps || i == |ws| - 1);
        ps'
      else
        ps
  }

  /** Appending one word extends the filter by that word exactly when it is below the threshold. */
  lemma LowConfidenceSnoc(ws: seq<Word>, w: Word)
    ensures LowConfidence(ws + [w]) == if IsError(w) then LowConfidence(ws) + [w] else LowConfidence(ws)
  {
  }

  /** Filtering distributes over concatenation. */
  lemma {:induction false} LowConfidenceAppend(a: seq<Word>, b: seq<Word>)
    ensures LowConfidence(a + b) == LowConfidence(a) + LowConfidence(b)
    decreases |b|
  {
    if b == [] {
      assert a + b == a;
    } else {
      var b' := b[..|b| - 1];
      assert (a + b)[..|a + b| - 1] == a + b';
      LowConfidenceAppend(a, b');
    }
  }

  /** The errors of two transcripts one after the other are the errors of each, one after the other. */
  lemma ErrorsAppend(a: Transcript, b: Transcript)
    ensures Errors(a + b) == Errors(a) + Errors(b)
  {
    FlattenAppend(a, b);
    LowConfidenceAppend(Flatten(a), Flatten(b));
  }

  /** The errors of one sentence are its low-confidence words in word order. */
  lemma ErrorsOfSentence(s: Sentence)
    ensures Errors([s]) == LowConfidence(s.words)
  {
    FlattenSingle(s);
  }

  /** Sentence order then word order: the errors of `[s] + rest` start with those of `s`. */
  lemma ErrorsCons(s: Sentence, rest: Transcript)
    ensures Errors([s] + rest) == LowConfidence(s.words) + Errors(rest)
  {
    ErrorsAppend([s], rest);
    ErrorsOfSentence(s);
  }

  /** A word is returned exactly when it occurs in the transcript with confidence below 0.5. */
  lemma ErrorsMembership(t: Transcript, w: Word)
    ensures w in Errors(t) <==> w in Flatten(t) && w.confidence < 0.5
  {
    LowConfidenceCount(Flatten(t), w);
  }

  /** Every occurrence of a low-confidence word is returned, and no other word. */
  lemma ErrorsCount(t: Transcript, w: Word)
    ensures multiset(Errors(t))[w] == if w.confidence < 0.5 then multiset(Flatten(t))[w] else 0
  {
    LowConfidenceCount(Flatten(t), w);
  }

  /** The result is empty exactly when no word of the transcript is below the threshold. */
  lemma ErrorsEmptyIff(t: Transcript)
    ensures Errors(t) == [] <==> forall k :: 0 <= k < |Flatten(t)| ==> Flatten(t)[k].confidence >= 0.5
  {
    var ws := Flatten(t);
    if Errors(t) == [] {
      forall k | 0 <= k < |ws|
        ensures ws[k].confidence >= 0.5
      {
        ErrorsMembership(t, ws[k]);
      }
    } else {
      ErrorsMembership(t, Errors(t)[0]);
    }
  }

  /** An empty transcript, or one whose sentences have no words, yields no errors. */
  lemma NoWordsNoErrors(t: Transcript)
    requires forall i :: 0 <= i < |t| ==> t[i].words == []
    ensures Errors(t) == []
  {
    FlattenNoWords(t);
  }

  /** There are never more errors than words. */
  lemma ErrorsBounded(t: Transcript)
    ensures |Errors(t)| <= WordCount(t)
  {
    FlattenLength(t);
  }

  /**
   * The extraction as written: walk the sentences in order and, inside each,
   * the words in order, appending every word whose confidence is below 0.5.
   */
  method GetErrorsFromText(text: Transcript) returns (errors: seq<Word>)
    ensures errors == Errors(text)
  {
    errors := [];
    var i := 0;
    while i < |text|
      invariant 0 <= i <= |text|
      invariant errors == LowConfidence(Flatten(text[..i]))
    {
      errors := PushSentenceErrors(errors, text[i].words);
      LowConfidenceAppend(Flatten(text[..i]), text[i].words);
      FlattenSnoc(text[..i], text[i]);
      assert text[..i + 1] == text[..i] + [text[i]];
      i := i + 1;
    }
    assert text[..i] == text;
  }

  /**
   * The inner loop over one sentence's words: whatever has been collected so
   * far in `acc` stays, followed by this sentence's low-confidence words in
   * word order.
   */
  method PushSentenceErrors(acc: seq<Word>, words: seq<Word>) returns (errors: seq<Word>)
    ensures errors == acc + LowConfidence(words)
  {
    errors := acc;
    var j := 0;
    while j < |words|
      invariant 0 <= j <= |words|
      invariant errors == acc + LowConfidence(words[..j])
    {
      LowConfidenceSnoc(words[..j], words[j]);
      assert words[..j + 1] == words[..j] + [words[j]];
      if words[j].confidence < 0.5 {
        errors := errors + [words[j]];
      }
      j := j + 1;
    }
    assert words[..j] == words;
  }
}
