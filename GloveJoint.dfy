// The GloVe file for the joint CoDraw / i-CLEVR vocabulary: the vocabulary
// file's words, de-duplicated and sorted, each paired with its GloVe vector or
// with the 'unk' vector.

module GloveJoint {
  import opened PyStr
  import opened Glove

  /** The vocabulary: the words of the vocabulary file, sorted, each once. */
  function JointVocab(vocabLines: seq<string>): (r: seq<string>)
    ensures StrictlySorted(r) && Distinct(r)
    ensures forall y :: y in r <==> y in VocabWords(vocabLines)
  {
    var r := SortedSet(VocabWords(vocabLines));
    StrictlySortedIsDistinct(r);
    r
  }

  /** The whole script: the vocabulary, the GloVe pairs, the merge and the
      'unk' fallback. Since the vocabulary has no repeats, each output line is
      the word's first GloVe line, or the word with the 'unk' vector, or the
      word unchanged when it holds a space. */
  method GenerateGloveFile(vocabLines: seq<string>, gloveLines: seq<string>)
    returns (err: Option<GloveError>, out: seq<string>, unkCount: nat)
    ensures var vocab, pairs := JointVocab(vocabLines), GlovePairs(gloveLines);
      err.None? <==>
        AllUnpack(pairs) && (LastEmb(pairs, UNK).Some? || BareCount(Merged(vocab, pairs)) == 0)
    ensures var pairs := GlovePairs(gloveLines);
      err.Some? ==>
        err.value == if AllUnpack(pairs) then UnkUndefined else CannotUnpack(FirstBad(pairs).value)
    ensures var vocab, pairs := JointVocab(vocabLines), GlovePairs(gloveLines);
      err.None? ==> |out| == |vocab| && unkCount == BareCount(Merged(vocab, pairs))
    ensures err.None? ==> forall j :: 0 <= j < |out| ==> !IsBare(out[j])
    ensures var vocab, pairs := JointVocab(vocabLines), GlovePairs(gloveLines);
      err.None? ==> forall j :: 0 <= j < |vocab| ==> out[j] == FinalEntry(vocab[j], pairs)
  {
    var vocab := JointVocab(vocabLines);
    var pairs := GlovePairs(gloveLines);
    err, out, unkCount := Embed(vocab, pairs);
  }
}
