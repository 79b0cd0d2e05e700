// The GloVe file for the CRIM vocabulary. The vocabulary is read from a
// vocabulary file when there is one, and is otherwise built from the words of
// the CLEVR question commands, de-duplicated and sorted.

module GloveCrim {
  import opened PyStr
  import opened Glove

  /** One piece of a command split on ' ': stripped, cut before its last space,
      then before its first '.', then before its first ';'. */
  function CleanWord(w: string): (r: string)
    ensures '.' !in r && ';' !in r
    ensures ' ' !in w ==> ' ' !in r
    ensures r <= Strip(w)
    ensures var s := BeforeLast(Strip(w), ' ');
      r <= s && (|r| < |s| ==> s[|r|] == '.' || s[|r|] == ';')
  {
    var s := BeforeLast(Strip(w), ' ');
    StripKeepsOut(w, ' ');
    var r := BeforeFirst(BeforeFirst(s, '.'), ';');
    CutTwice(s, BeforeFirst(s, '.'), r);
    r
  }

  /** Cutting at the first '.' and then at the first ';' stops at one of the two. */
  lemma CutTwice(s: string, a: string, r: string)
    requires a <= s && (|a| < |s| ==> s[|a|] == '.')
    requires r <= a && (|r| < |a| ==> a[|r|] == ';')
    ensures r <= s && (|r| < |s| ==> s[|r|] == '.' || s[|r|] == ';')
  {
    if |r| < |a| {
      assert s[|r|] == a[|r|];
    }
  }

  /** `CleanWord` keeps the longest prefix of the piece, stripped and cut at
      its last space, that holds no '.' and no ';'. */
  lemma CleanWordLongest(w: string, p: string)
    requires p <= BeforeLast(Strip(w), ' ') && '.' !in p && ';' !in p
    ensures p <= CleanWord(w)
  {
    ShorterPrefix(BeforeLast(Strip(w), ' '), CleanWord(w), p);
  }

  /** Of two prefixes of `s`, one that stops at a '.' or ';' and one that holds
      neither, the second is a prefix of the first. */
  lemma ShorterPrefix(s: string, r: string, p: string)
    requires r <= s && (|r| < |s| ==> s[|r|] == '.' || s[|r|] == ';')
    requires p <= s && '.' !in p && ';' !in p
    ensures p <= r
  {
  }

  /** A trimmed clean word is its own cleaned form. */
  lemma CleanWordOfClean(w: string)
    requires Clean(w) && Trimmed(w)
    ensures CleanWord(w) == w
  {
    CleanWordLongest(w, w);
  }

  /** Splitting clean words joined by single spaces gives the words back. */
  lemma CommandWordsOfJoin(ws: seq<string>)
    requires |ws| > 0
    requires forall k :: 0 <= k < |ws| ==> Clean(ws[k]) && Trimmed(ws[k])
    ensures CommandWords(Join(ws, ' ')) == ws
  {
    SplitJoin(ws, ' ');
    forall k | 0 <= k < |ws| ensures CommandWords(Join(ws, ' '))[k] == ws[k] {
      CleanWordOfClean(ws[k]);
    }
  }

  /** A command word: no space, no '.' and no ';'. */
  predicate Clean(w: string) {
    ' ' !in w && '.' !in w && ';' !in w
  }

  /** The words one command adds to the vocabulary, in order, repeats kept:
      the command split on ' ', each piece cleaned as `CleanWord` says (the
      three list comprehensions of the loop body, composed). */
  function CommandWords(command: string): (r: seq<string>)
    ensures |r| == |Split(command, ' ')|
    ensures forall k :: 0 <= k < |r| ==> Clean(r[k])
    ensures forall k :: 0 <= k < |r| ==> r[k] == CleanWord(Split(command, ' ')[k])
  {
    var pieces := Split(command, ' ');
    seq(|pieces|, k requires 0 <= k < |pieces| => CleanWord(pieces[k]))
  }

  /** The lists joined end to end, as repeated `extend` calls build them. */
  function Flatten(parts: seq<seq<string>>): (r: seq<string>)
  {
    if |parts| == 0 then [] else Flatten(parts[..|parts| - 1]) + parts[|parts| - 1]
  }

  /** A string is in the joined list exactly when it is in one of the lists. */
  lemma {:induction false} FlattenMembers(parts: seq<seq<string>>, y: string)
    ensures y in Flatten(parts) <==> exists i :: 0 <= i < |parts| && y in parts[i]
  {
    if |parts| > 0 {
      var n := |parts| - 1;
      FlattenMembers(parts[..n], y);
      assert y in Flatten(parts) <==> y in Flatten(parts[..n]) || y in parts[n];
      assert forall i :: 0 <= i < n ==> parts[..n][i] == parts[i];
    }
  }

  /** Joining the first `i + 1` lists extends the join of the first `i`. */
  lemma FlattenStep(parts: seq<seq<string>>, i: nat)
    requires i < |parts|
    ensures Flatten(parts[..i + 1]) == Flatten(parts[..i]) + parts[i]
  {
    assert parts[..i + 1][..i] == parts[..i];
  }

  /** Joining lists of clean words gives clean words. */
  lemma {:induction false} FlattenClean(parts: seq<seq<string>>)
    requires forall i, k :: 0 <= i < |parts| && 0 <= k < |parts[i]| ==> Clean(parts[i][k])
    ensures forall k :: 0 <= k < |Flatten(parts)| ==> Clean(Flatten(parts)[k])
  {
    if |parts| > 0 {
      var n := |parts| - 1;
      assert forall i :: 0 <= i < n ==> parts[..n][i] == parts[i];
      FlattenClean(parts[..n]);
    }
  }

  /** Each command's word list, command by command. */
  function CommandParts(commands: seq<string>): (r: seq<seq<string>>)
    ensures |r| == |commands|
    ensures forall i, k :: 0 <= i < |r| && 0 <= k < |r[i]| ==> Clean(r[i][k])
  {
    seq(|commands|, i requires 0 <= i < |commands| => CommandWords(commands[i]))
  }

  /** The words of all commands, command after command, repeats kept. */
  function AllCommandWords(commands: seq<string>): (r: seq<string>)
    ensures forall k :: 0 <= k < |r| ==> Clean(r[k])
  {
    FlattenClean(CommandParts(commands));
    Flatten(CommandParts(commands))
  }

  /** The loop that builds the vocabulary from the commands, then `set` and
      `sort`. */
  method CommandVocab(commands: seq<string>) returns (vocab: seq<string>)
    ensures vocab == SortedSet(AllCommandWords(commands))
  {
    var words: seq<string> := [];
    for i := 0 to |commands|
      invariant words == Flatten(CommandParts(commands)[..i])
    {
      FlattenStep(CommandParts(commands), i);
      words := words + CommandWords(commands[i]);
    }
    assert CommandParts(commands)[..|commands|] == CommandParts(commands);
    vocab := SortedSet(words);
  }

  /** The vocabulary built from commands holds exactly the words of the
      commands. */
  lemma CommandVocabMembers(commands: seq<string>, y: string)
    ensures y in SortedSet(AllCommandWords(commands)) <==>
      exists i :: 0 <= i < |commands| && y in CommandParts(commands)[i]
  {
    FlattenMembers(CommandParts(commands), y);
  }

  /** The vocabulary built from commands is sorted, has no repeats, and none
      of its words holds a space, '.' or ';'. */
  lemma CommandVocabWords(commands: seq<string>)
    ensures var vocab := SortedSet(AllCommandWords(commands));
      StrictlySorted(vocab) && Distinct(vocab) && forall j :: 0 <= j < |vocab| ==> Clean(vocab[j])
  {
    var all := AllCommandWords(commands);
    var vocab := SortedSet(all);
    StrictlySortedIsDistinct(vocab);
    forall j | 0 <= j < |vocab| ensures Clean(vocab[j]) {
      assert vocab[j] in all;
    }
  }

  /** The vocabulary the script works on: the file's words when a vocabulary
      file exists, otherwise the sorted distinct command words. */
  function CrimVocab(vocabFile: Option<seq<string>>, commands: seq<string>): (r: seq<string>)
    ensures vocabFile.Some? ==> |r| == |vocabFile.value|
    ensures vocabFile.Some? ==> r == VocabWords(vocabFile.value)
    ensures vocabFile.None? ==> StrictlySorted(r)
    ensures vocabFile.None? ==> forall w :: w in r <==> w in AllCommandWords(commands)
  {
    if vocabFile.None? then SortedSet(AllCommandWords(commands)) else VocabWords(vocabFile.value)
  }

  /** The whole script. With a vocabulary built from commands every word is
      bare and appears once, so each output line is the word with its first
      GloVe vector, or the word with the 'unk' vector. */
  method GenerateGloveFile(vocabFile: Option<seq<string>>, commands: seq<string>, gloveLines: seq<string>)
    returns (vocab: seq<string>, err: Option<GloveError>, out: seq<string>, unkCount: nat)
    ensures vocab == CrimVocab(vocabFile, commands)
    ensures var pairs := GlovePairs(gloveLines);
      err.None? <==>
        AllUnpack(pairs) && (LastEmb(pairs, UNK).Some? || BareCount(Merged(vocab, pairs)) == 0)
    ensures var pairs := GlovePairs(gloveLines);
      err.Some? ==>
        err.value == if AllUnpack(pairs) then UnkUndefined else CannotUnpack(FirstBad(pairs).value)
    ensures err.None? ==> |out| == |vocab| && unkCount == BareCount(Merged(vocab, GlovePairs(gloveLines)))
    ensures err.None? ==> forall j :: 0 <= j < |out| ==> !IsBare(out[j])
    ensures var pairs := GlovePairs(gloveLines);
      err.None? ==> forall j :: 0 <= j < |out| && IsBare(Merged(vocab, pairs)[j]) ==>
        LastEmb(pairs, UNK).Some? && out[j] == Merged(vocab, pairs)[j] + " " + LastEmb(pairs, UNK).value
    ensures var pairs := GlovePairs(gloveLines);
      err.None? ==> forall j :: 0 <= j < |out| && !IsBare(Merged(vocab, pairs)[j]) ==>
        out[j] == Merged(vocab, pairs)[j]
    ensures err.None? && vocabFile.None? ==>
      forall j :: 0 <= j < |vocab| ==> out[j] == FinalEntry(vocab[j], GlovePairs(gloveLines))
  {
    if vocabFile.None? {
      vocab := CommandVocab(commands);
      StrictlySortedIsDistinct(vocab);
    } else {
      vocab := VocabWords(vocabFile.value);
    }
    var pairs := GlovePairs(gloveLines);
    err, out, unkCount := Embed(vocab, pairs);
  }

  /** With a vocabulary built from commands, a word with no GloVe line is
      given the 'unk' vector and a word with one is given the first such line's
      vector. */
  lemma CommandWordEntry(commands: seq<string>, gloveLines: seq<string>, j: nat)
    requires var vocab := SortedSet(AllCommandWords(commands)); j < |vocab|
    requires AllUnpack(GlovePairs(gloveLines))
    ensures var w, pairs := SortedSet(AllCommandWords(commands))[j], GlovePairs(gloveLines);
      (FirstEmb(pairs, w).Some? ==> FinalEntry(w, pairs) == w + " " + FirstEmb(pairs, w).value) &&
      (FirstEmb(pairs, w).None? && LastEmb(pairs, UNK).Some? ==>
        FinalEntry(w, pairs) == w + " " + LastEmb(pairs, UNK).value)
  {
    CommandVocabWords(commands);
    FinalEntryOfBare(SortedSet(AllCommandWords(commands))[j], GlovePairs(gloveLines));
  }
}
