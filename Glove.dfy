// The part shared by the two `generate_glove_file` scripts: reading the
// embedding file as (token, vector) pieces, writing each vector into the first
// bare vocabulary entry equal to its token, and giving the `unk` vector to the
// entries left bare. An entry is "bare" while it holds no space.

module Glove {
  import opened PyStr

  /** The token whose vector stands in for words without one. */
  const UNK: string := "unk"

  datatype GloveError =
    | CannotUnpack(line: nat)   // `token, glove_emb = [x]`: the stripped line has no space
    | UnkUndefined              // `unk_embedding` read before any 'unk' line assigned it

  /** One embedding line as `x.strip().split(' ', 1)`: the token and its vector,
      or the whole stripped line when it holds no space. */
  function Pieces(line: string): (r: seq<string>)
    ensures |r| == 1 || |r| == 2
    ensures |r| == 1 <==> ' ' !in Strip(line)
    ensures |r| == 1 ==> r[0] == Strip(line)
    ensures |r| == 2 ==> ' ' !in r[0] && Strip(line) == r[0] + " " + r[1]
  {
    SplitOnce(Strip(line), ' ')
  }

  /** `tok_glove_pairs`: the pieces of every line of the embedding file. */
  function GlovePairs(lines: seq<string>): (r: seq<seq<string>>)
    ensures |r| == |lines|
    ensures forall t :: 0 <= t < |lines| ==> (|r[t]| == 2 <==> ' ' in Strip(lines[t]))
    ensures forall t :: 0 <= t < |lines| ==> |r[t]| >= 1 && ' ' !in r[t][0]
    ensures forall t :: 0 <= t < |lines| && |r[t]| == 1 ==> r[t][0] == Strip(lines[t])
    ensures forall t :: 0 <= t < |lines| && |r[t]| == 2 ==> Strip(lines[t]) == r[t][0] + " " + r[t][1]
  {
    seq(|lines|, t requires 0 <= t < |lines| => Pieces(lines[t]))
  }

  /** Every line of pieces unpacks into `token, glove_emb`. */
  predicate AllUnpack(pairs: seq<seq<string>>) {
    forall t :: 0 <= t < |pairs| ==> |pairs[t]| == 2
  }

  /** The lines of a prefix. */
  lemma PrefixPairs(pairs: seq<seq<string>>, n: nat)
    requires n <= |pairs|
    ensures forall t :: 0 <= t < n ==> pairs[..n][t] == pairs[t]
    ensures AllUnpack(pairs) ==> AllUnpack(pairs[..n])
  {
  }

  /** The first line that cannot be unpacked: where the script stops. */
  function FirstBad(pairs: seq<seq<string>>): (r: Option<nat>)
    ensures r.None? <==> AllUnpack(pairs)
    ensures r.Some? ==> r.value < |pairs| && |pairs[r.value]| != 2
    ensures r.Some? ==> forall u :: 0 <= u < r.value ==> |pairs[u]| == 2
  {
    if |pairs| == 0 then None
    else if |pairs[0]| != 2 then Some(0)
    else
      match FirstBad(pairs[1..])
      case None => None
      case Some(k) => Some(k + 1)
  }

  /** The vector of the last line whose token is `w`, if any. */
  function LastEmb(pairs: seq<seq<string>>, w: string): (r: Option<string>)
    requires AllUnpack(pairs)
    ensures r.None? <==> forall t :: 0 <= t < |pairs| ==> pairs[t][0] != w
    ensures r.Some? ==> exists t :: 0 <= t < |pairs| && pairs[t][0] == w && pairs[t][1] == r.value &&
                                    forall u :: t < u < |pairs| ==> pairs[u][0] != w
  {
    if |pairs| == 0 then None
    else
      var n := |pairs| - 1;
      PrefixPairs(pairs, n);
      if pairs[n][0] == w then Some(pairs[n][1]) else LastEmb(pairs[..n], w)
  }

  /** `vocab[vocab.index(token)] = token + ' ' + emb`, skipped when the token is
      absent: only the first entry equal to the token changes. */
  function Fill(vocab: seq<string>, token: string, emb: string): (r: seq<string>)
    ensures |r| == |vocab|
    ensures forall j :: 0 <= j < |vocab| ==>
      r[j] == if vocab[j] == token && token !in vocab[..j] then token + " " + emb else vocab[j]
  {
    match IndexOf(vocab, token)
    case None => vocab
    case Some(i) => vocab[i := token + " " + emb]
  }

  /** The vocabulary after the embedding lines have been merged into it in order. */
  function Merged(vocab: seq<string>, pairs: seq<seq<string>>): (r: seq<string>)
    requires AllUnpack(pairs)
    ensures |r| == |vocab|
  {
    if |pairs| == 0 then vocab
    else
      var n := |pairs| - 1;
      PrefixPairs(pairs, n);
      Fill(Merged(vocab, pairs[..n]), pairs[n][0], pairs[n][1])
  }

  /** Merging only ever appends to an entry, and leaves alone every entry that
      is not a token of the file. */
  lemma {:induction false} MergedExtends(vocab: seq<string>, pairs: seq<seq<string>>)
    requires AllUnpack(pairs)
    ensures forall j :: 0 <= j < |vocab| ==> vocab[j] <= Merged(vocab, pairs)[j]
    ensures forall j :: 0 <= j < |vocab| && (forall t :: 0 <= t < |pairs| ==> pairs[t][0] != vocab[j]) ==>
      Merged(vocab, pairs)[j] == vocab[j]
  {
    if |pairs| > 0 {
      var n := |pairs| - 1;
      PrefixPairs(pairs, n);
      MergedExtends(vocab, pairs[..n]);
    }
  }

  /** The vector of the first line whose token is `w`, if any. */
  function FirstEmb(pairs: seq<seq<string>>, w: string): (r: Option<string>)
    requires AllUnpack(pairs)
    ensures r.None? <==> forall t :: 0 <= t < |pairs| ==> pairs[t][0] != w
    ensures r.Some? ==> exists t :: 0 <= t < |pairs| && pairs[t][0] == w && pairs[t][1] == r.value &&
                                    forall u :: 0 <= u < t ==> pairs[u][0] != w
  {
    if |pairs| == 0 then None
    else
      var n := |pairs| - 1;
      PrefixPairs(pairs, n);
      match FirstEmb(pairs[..n], w)
      case Some(e) => Some(e)
      case None => if pairs[n][0] == w then Some(pairs[n][1]) else None
  }

  /** What a merge leaves in an entry of a vocabulary without repeats: an entry
      holding a space is untouched, a bare one gets the vector of the first line
      with its token, or stays bare. */
  function MergedEntry(w: string, pairs: seq<seq<string>>): (r: string)
    requires AllUnpack(pairs)
    ensures w <= r
    ensures ' ' in w || FirstEmb(pairs, w).None? <==> r == w
  {
    if ' ' in w then w
    else match FirstEmb(pairs, w)
      case None => w
      case Some(e) => w + " " + e
  }

  /** Tokens hold no space, as `split(' ', 1)` leaves them. */
  predicate SpaceFreeTokens(pairs: seq<seq<string>>) {
    forall t :: 0 <= t < |pairs| ==> |pairs[t]| >= 1 && ' ' !in pairs[t][0]
  }

  /** With no repeated entry, each entry is merged with the first line carrying
      its token: later lines with the same token and lines matching no entry
      change nothing. */
  lemma {:induction false} MergedDistinct(vocab: seq<string>, pairs: seq<seq<string>>)
    requires Distinct(vocab) && AllUnpack(pairs) && SpaceFreeTokens(pairs)
    ensures forall j :: 0 <= j < |vocab| ==> Merged(vocab, pairs)[j] == MergedEntry(vocab[j], pairs)
  {
    if |pairs| > 0 {
      var n := |pairs| - 1;
      PrefixPairs(pairs, n);
      MergedDistinct(vocab, pairs[..n]);
      forall j | 0 <= j < |vocab|
        ensures Merged(vocab, pairs)[j] == MergedEntry(vocab[j], pairs)
      {
        MergedDistinctStep(vocab, pairs, j);
      }
    }
  }

  /** One line merged into a vocabulary without repeats, for entry `j`. */
  lemma MergedDistinctStep(vocab: seq<string>, pairs: seq<seq<string>>, j: nat)
    requires Distinct(vocab) && AllUnpack(pairs) && SpaceFreeTokens(pairs)
    requires |pairs| > 0 && j < |vocab|
    requires AllUnpack(pairs[..|pairs| - 1])
    requires forall k :: 0 <= k < |vocab| ==>
      Merged(vocab, pairs[..|pairs| - 1])[k] == MergedEntry(vocab[k], pairs[..|pairs| - 1])
    ensures Merged(vocab, pairs)[j] == MergedEntry(vocab[j], pairs)
  {
    var n := |pairs| - 1;
    var prev := pairs[..n];
    var tok := pairs[n][0];
    var m := Merged(vocab, prev);
    var w := vocab[j];
    if ' ' !in w && FirstEmb(prev, w).None? && w == tok {
      forall k | 0 <= k < j ensures m[k] != tok {
        var e := MergedEntry(vocab[k], prev);
        assert m[k] == e;
        if e != vocab[k] {
          assert e[|vocab[k]|] == ' ';
        }
      }
      assert tok !in m[..j];
    }
  }

  /** The merge loop: every line is unpacked, 'unk' lines set the fallback
      vector, and a token found in the vocabulary fills its first equal entry. */
  method MergeEmbeddings(vocab: seq<string>, pairs: seq<seq<string>>)
    returns (err: Option<GloveError>, merged: seq<string>, unk: Option<string>)
    ensures err.None? <==> AllUnpack(pairs)
    ensures err.Some? ==> err.value == CannotUnpack(FirstBad(pairs).value)
    ensures err.None? ==> merged == Merged(vocab, pairs) && unk == LastEmb(pairs, UNK)
  {
    merged, unk := vocab, None;
    for t := 0 to |pairs|
      invariant AllUnpack(pairs[..t])
      invariant merged == Merged(vocab, pairs[..t]) && unk == LastEmb(pairs[..t], UNK)
    {
      PrefixPairs(pairs, t);
      if |pairs[t]| != 2 {
        return Some(CannotUnpack(t)), merged, unk;
      }
      var token, emb := pairs[t][0], pairs[t][1];
      if token == UNK {
        unk := Some(emb);
      }
      var found := IndexOf(merged, token);
      if found.Some? {
        merged := merged[found.value := token + " " + emb];
      }
      PrefixPairs(pairs, t + 1);
      assert pairs[..t + 1][..t] == pairs[..t];
    }
    assert pairs[..|pairs|] == pairs;
    err := None;
  }

  /** `len(item.split(' ')) == 1`: the entry is still bare. */
  predicate IsBare(item: string) {
    ' ' !in item
  }

  /** The number of bare entries. */
  function BareCount(vocab: seq<string>): (n: nat)
    ensures n <= |vocab|
  {
    if |vocab| == 0 then 0
    else BareCount(vocab[..|vocab| - 1]) + if IsBare(vocab[|vocab| - 1]) then 1 else 0
  }

  /** The fallback loop: each entry still bare gets the 'unk' vector and is
      counted; with no 'unk' vector the first bare entry raises. */
  method AssignUnk(vocab: seq<string>, unk: Option<string>)
    returns (err: Option<GloveError>, out: seq<string>, unkCount: nat)
    ensures err.Some? <==> unk.None? && BareCount(vocab) > 0
    ensures err.Some? ==> err.value == UnkUndefined
    ensures err.None? ==> |out| == |vocab| && unkCount == BareCount(vocab)
    ensures err.None? ==> forall j :: 0 <= j < |vocab| && IsBare(vocab[j]) ==>
      unk.Some? && out[j] == vocab[j] + " " + unk.value
    ensures err.None? ==> forall j :: 0 <= j < |vocab| && !IsBare(vocab[j]) ==> out[j] == vocab[j]
    ensures err.None? ==> forall j :: 0 <= j < |out| ==> !IsBare(out[j])
  {
    out, unkCount := vocab, 0;
    for j := 0 to |vocab|
      invariant |out| == |vocab| && unkCount == BareCount(vocab[..j])
      invariant unk.None? ==> BareCount(vocab[..j]) == 0
      invariant forall k :: 0 <= k < j && IsBare(vocab[k]) ==> unk.Some? && out[k] == vocab[k] + " " + unk.value
      invariant forall k :: 0 <= k < j && !IsBare(vocab[k]) ==> out[k] == vocab[k]
      invariant forall k :: j <= k < |vocab| ==> out[k] == vocab[k]
    {
      BareCountStep(vocab, j);
      var item := out[j];
      SplitIsWhole(item, ' ');
      if |Split(item, ' ')| == 1 {
        unkCount := unkCount + 1;
        if unk.None? {
          BareCountPositive(vocab, j);
          return Some(UnkUndefined), out, unkCount;
        }
        out := out[j := item + " " + unk.value];
      }
    }
    assert vocab[..|vocab|] == vocab;
    err := None;
  }

  /** Counting one more entry. */
  lemma BareCountStep(vocab: seq<string>, j: nat)
    requires j < |vocab|
    ensures BareCount(vocab[..j + 1]) == BareCount(vocab[..j]) + if IsBare(vocab[j]) then 1 else 0
  {
    assert vocab[..j + 1][..j] == vocab[..j];
  }

  /** A bare entry makes the count positive. */
  lemma {:induction false} BareCountPositive(vocab: seq<string>, j: nat)
    requires j < |vocab| && IsBare(vocab[j])
    ensures BareCount(vocab) > 0
  {
    var n := |vocab| - 1;
    if j < n {
      assert vocab[..n][j] == vocab[j];
      BareCountPositive(vocab[..n], j);
    }
  }

  /** The count is zero exactly when no entry is bare. */
  lemma {:induction false} BareCountZero(vocab: seq<string>)
    ensures BareCount(vocab) == 0 <==> forall j :: 0 <= j < |vocab| ==> !IsBare(vocab[j])
  {
    if |vocab| > 0 {
      var n := |vocab| - 1;
      BareCountZero(vocab[..n]);
      assert forall j :: 0 <= j < n ==> vocab[..n][j] == vocab[j];
    }
  }

  /** A vocabulary file read back: each line stripped and cut before its last
      space, so `word 12` gives `word` and a line without a space stays whole. */
  function VocabWords(lines: seq<string>): (r: seq<string>)
    ensures |r| == |lines|
    ensures forall j :: 0 <= j < |r| ==> r[j] <= Strip(lines[j])
    ensures forall j :: 0 <= j < |r| ==> (r[j] == Strip(lines[j]) <==> ' ' !in Strip(lines[j]))
    ensures forall j :: 0 <= j < |r| && ' ' in Strip(lines[j]) ==>
      Strip(lines[j])[|r[j]|] == ' ' && ' ' !in Strip(lines[j])[|r[j]| + 1..]
  {
    seq(|lines|, j requires 0 <= j < |lines| => BeforeLast(Strip(lines[j]), ' '))
  }

  /** The line the output file holds for vocabulary entry `w` when the
      vocabulary has no repeats: the merged entry, with the 'unk' vector added
      when it is still bare and an 'unk' line exists. */
  function FinalEntry(w: string, pairs: seq<seq<string>>): (r: string)
    requires AllUnpack(pairs)
    ensures MergedEntry(w, pairs) <= r
  {
    var m := MergedEntry(w, pairs);
    if IsBare(m) && LastEmb(pairs, UNK).Some? then m + " " + LastEmb(pairs, UNK).value else m
  }

  /** For a word with no space: it gets the vector of the first GloVe line
      for it, or failing that the 'unk' vector when one was read. */
  lemma FinalEntryOfBare(w: string, pairs: seq<seq<string>>)
    requires AllUnpack(pairs) && IsBare(w)
    ensures FirstEmb(pairs, w).Some? ==> FinalEntry(w, pairs) == w + " " + FirstEmb(pairs, w).value
    ensures FirstEmb(pairs, w).None? && LastEmb(pairs, UNK).Some? ==>
      FinalEntry(w, pairs) == w + " " + LastEmb(pairs, UNK).value
    ensures FirstEmb(pairs, w).None? && LastEmb(pairs, UNK).None? ==> FinalEntry(w, pairs) == w
  {
  }

  /** Lines 60-75 of both scripts: the merge loop, then the fallback loop. */
  method Embed(vocab: seq<string>, pairs: seq<seq<string>>)
    returns (err: Option<GloveError>, out: seq<string>, unkCount: nat)
    ensures err.None? <==>
      AllUnpack(pairs) && (LastEmb(pairs, UNK).Some? || BareCount(Merged(vocab, pairs)) == 0)
    ensures err.Some? ==>
      err.value == if AllUnpack(pairs) then UnkUndefined else CannotUnpack(FirstBad(pairs).value)
    ensures err.None? ==> |out| == |vocab| && unkCount == BareCount(Merged(vocab, pairs))
    ensures err.None? ==> forall j :: 0 <= j < |out| ==> !IsBare(out[j])
    ensures err.None? ==> forall j :: 0 <= j < |out| && IsBare(Merged(vocab, pairs)[j]) ==>
      LastEmb(pairs, UNK).Some? && out[j] == Merged(vocab, pairs)[j] + " " + LastEmb(pairs, UNK).value
    ensures err.None? ==> forall j :: 0 <= j < |out| && !IsBare(Merged(vocab, pairs)[j]) ==>
      out[j] == Merged(vocab, pairs)[j]
    ensures err.None? && Distinct(vocab) && SpaceFreeTokens(pairs) ==>
      forall j :: 0 <= j < |vocab| ==> out[j] == FinalEntry(vocab[j], pairs)
  {
    var merged, unk;
    err, merged, unk := MergeEmbeddings(vocab, pairs);
    if err.Some? {
      out, unkCount := [], 0;
      return;
    }
    err, out, unkCount := AssignUnk(merged, unk);
    if err.None? && Distinct(vocab) && SpaceFreeTokens(pairs) {
      MergedDistinct(vocab, pairs);
    }
  }
}
