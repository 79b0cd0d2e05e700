/**
 * The Python string and list primitives that the packaging scripts are built
 * from, stated over `seq<char>` and `seq<T>`: `str.strip()`, `str.split(c)`,
 * `str.split()`, `str.split(c, 1)`, `str.rsplit(c, 1)[0]`, the substring test
 * `p in s`, `list.index(x)` and `sorted(set(l))`.
 */
module PyStr {

  datatype Option<T> = None | Some(value: T)

  /** The outcome of a step that can raise: its value, or the exception it raises. */
  datatype Result<T, E> = Ok(value: T) | Err(error: E)

  /** The ASCII characters `str.strip()` and `str.split()` treat as whitespace:
      space, tab, newline, carriage return, vertical tab, form feed and the four
      separators U+001C to U+001F. */
  predicate IsSpace(c: char) {
    c == ' ' || c == '\t' || c == '\n' || c == '\r' || c == '\U{000B}' || c == '\U{000C}' ||
    ('\U{001C}' <= c <= '\U{001F}')
  }

  /** A string with no whitespace at either end (the empty string included), so
      stripping leaves it alone. */
  predicate Trimmed(s: string) {
    s == [] || (!IsSpace(s[0]) && !IsSpace(s[|s| - 1]))
  }

  /** A word in the sense of `str.split()`: non-empty and free of whitespace. */
  predicate IsWord(s: string) {
    |s| > 0 && forall i :: 0 <= i < |s| ==> !IsSpace(s[i])
  }

  // ---------------------------------------------------------------------------
  // str.strip()

  function TrimLeft(s: string): (r: string)
    ensures |r| <= |s| && r == s[|s| - |r|..]
    ensures r == [] || !IsSpace(r[0])
    ensures forall i :: 0 <= i < |s| - |r| ==> IsSpace(s[i])
  {
    if |s| > 0 && IsSpace(s[0]) then TrimLeft(s[1..]) else s
  }

  function TrimRight(s: string): (r: string)
    ensures |r| <= |s| && r == s[..|r|]
    ensures r == [] || !IsSpace(r[|r| - 1])
    ensures forall i :: |r| <= i < |s| ==> IsSpace(s[i])
  {
    if |s| > 0 && IsSpace(s[|s| - 1]) then TrimRight(s[..|s| - 1]) else s
  }

  /** `s.strip()`: the longest infix of `s` with no whitespace at either end;
      only whitespace is cut off, and only at the two ends. */
  function Strip(s: string): (r: string)
    ensures Trimmed(r)
    ensures |r| <= |s|
    ensures Trimmed(s) ==> r == s
    ensures exists i, j ::
              0 <= i <= j <= |s| && r == s[i..j] &&
              (forall k :: 0 <= k < i ==> IsSpace(s[k])) && (forall k :: j <= k < |s| ==> IsSpace(s[k]))
  {
    var t := TrimRight(s);
    var r := TrimLeft(t);
    assert r == s[|t| - |r|..|t|];
    r
  }

  /** `s.strip()` is an infix of `s`, so it holds no character `s` lacks. */
  lemma StripKeepsOut(s: string, c: char)
    ensures c !in s ==> c !in Strip(s)
  {
    var t := TrimRight(s);
    var r := TrimLeft(t);
    if c in r {
      var i :| 0 <= i < |r| && r[i] == c;
      assert t[|t| - |r| + i] == c;
      assert s[|t| - |r| + i] == c;
    }
  }

  /** Stripping a line read back from a file removes the trailing newline and nothing else. */
  lemma StripLine(s: string)
    requires Trimmed(s)
    ensures Strip(s + "\n") == s
  {
    var line := s + "\n";
    assert TrimRight([]) == [];
    if s != [] {
      assert line[..|line| - 1] == s;
      assert TrimRight(line) == TrimRight(s) == s;
    } else {
      assert line[..0] == [];
    }
  }

  // ---------------------------------------------------------------------------
  // str.split(c) and its inverse c.join(parts)

  /** `c.join(parts)` for a one-character separator. */
  function Join(parts: seq<string>, c: char): string
  {
    if |parts| == 0 then ""
    else if |parts| == 1 then parts[0]
    else parts[0] + [c] + Join(parts[1..], c)
  }

  /** `s.split(c)`: the pieces between occurrences of `c`, empty pieces kept. */
  function Split(s: string, c: char): (r: seq<string>)
    ensures |r| >= 1
    ensures forall k :: 0 <= k < |r| ==> c !in r[k]
    ensures Join(r, c) == s
  {
    if |s| == 0 then [""]
    else
      var rest := Split(s[1..], c);
      if s[0] == c then
        assert ([""] + rest)[1..] == rest;
        [""] + rest
      else
        var r := [[s[0]] + rest[0]] + rest[1..];
        assert r[1..] == rest[1..];
        assert s == [s[0]] + s[1..];
        r
  }

  /** Splitting a joined list gives the list back when no part holds the separator. */
  lemma {:induction false} SplitJoin(parts: seq<string>, c: char)
    requires |parts| >= 1
    requires forall k :: 0 <= k < |parts| ==> c !in parts[k]
    ensures Split(Join(parts, c), c) == parts
    decreases |Join(parts, c)|
  {
    var s := Join(parts, c);
    var p0 := parts[0];
    if |parts| == 1 {
      if p0 != "" {
        var tail := [p0[1..]];
        assert Join(tail, c) == s[1..];
        SplitJoin(tail, c);
      }
    } else if p0 == "" {
      assert s == [c] + Join(parts[1..], c);
      assert s[1..] == Join(parts[1..], c);
      SplitJoin(parts[1..], c);
      assert [""] + parts[1..] == parts;
    } else {
      var tail := [p0[1..]] + parts[1..];
      assert tail[1..] == parts[1..];
      assert Join(tail, c) == s[1..];
      SplitJoin(tail, c);
      assert [p0[0]] + p0[1..] == p0;
      assert [[p0[0]] + p0[1..]] + parts[1..] == parts;
    }
  }

  /** `len(s.split(c)) == 1` exactly when `c` does not occur in `s`. */
  lemma SplitIsWhole(s: string, c: char)
    ensures |Split(s, c)| == 1 <==> c !in s
  {
    var r := Split(s, c);
    if |r| > 1 {
      assert s == r[0] + [c] + Join(r[1..], c);
      assert s[|r[0]|] == c;
    }
  }

  /** `s.split(c)[0]`: the text before the first `c`. */
  function BeforeFirst(s: string, c: char): (r: string)
    ensures c !in r && r <= s
    ensures |r| < |s| ==> s[|r|] == c
  {
    var parts := Split(s, c);
    assert |parts| > 1 ==> s == parts[0] + [c] + Join(parts[1..], c);
    parts[0]
  }

  // ---------------------------------------------------------------------------
  // str.split(c, 1) and str.rsplit(c, 1)

  /** Position of the first `c` in `s`. */
  function FirstIndex(s: string, c: char): (r: Option<nat>)
    ensures r.None? <==> c !in s
    ensures r.Some? ==> r.value < |s| && s[r.value] == c && c !in s[..r.value]
  {
    if |s| == 0 then None
    else if s[0] == c then Some(0)
    else
      match FirstIndex(s[1..], c)
      case None => None
      case Some(i) =>
        assert s[..i + 1] == [s[0]] + s[1..][..i];
        Some(i + 1)
  }

  /** Position of the last `c` in `s`. */
  function LastIndex(s: string, c: char): (r: Option<nat>)
    ensures r.None? <==> c !in s
    ensures r.Some? ==> r.value < |s| && s[r.value] == c && c !in s[r.value + 1..]
  {
    if |s| == 0 then None
    else if s[|s| - 1] == c then Some(|s| - 1)
    else
      var r := LastIndex(s[..|s| - 1], c);
      assert r.None? ==> s == s[..|s| - 1] + [s[|s| - 1]];
      r
  }

  /** `s.rsplit(c, 1)[0]`: everything before the last `c`, or all of `s` when there is none. */
  function BeforeLast(s: string, c: char): (r: string)
    ensures r <= s
    ensures r == s <==> c !in s
    ensures c in s ==> s[|r|] == c && c !in s[|r| + 1..]
  {
    match LastIndex(s, c)
    case None => s
    case Some(i) => s[..i]
  }

  /** `s.split(c, 1)`: one piece when `c` does not occur, else the text around the first `c`. */
  function SplitOnce(s: string, c: char): (r: seq<string>)
    ensures |r| == 1 <==> c !in s
    ensures |r| == 1 ==> r[0] == s
    ensures |r| != 1 ==> |r| == 2 && c !in r[0] && s == r[0] + [c] + r[1]
  {
    match FirstIndex(s, c)
    case None => [s]
    case Some(i) =>
      assert s == s[..i] + [c] + s[i + 1..];
      [s[..i], s[i + 1..]]
  }

  /** The first `c` of `a + [c] + rest` when `a` has none. */
  lemma FirstIndexAt(a: string, c: char, rest: string)
    requires c !in a
    ensures FirstIndex(a + [c] + rest, c) == Some(|a|)
  {
    var s := a + [c] + rest;
    assert s[|a|] == c;
    assert s[..|a|] == a;
  }

  /** Splitting once at a `c` that is the first one. */
  lemma SplitOnceAt(a: string, c: char, rest: string)
    requires c !in a
    ensures SplitOnce(a + [c] + rest, c) == [a, rest]
  {
    var s := a + [c] + rest;
    FirstIndexAt(a, c, rest);
    assert s[..|a|] == a;
    assert s[|a| + 1..] == rest;
  }

  // ---------------------------------------------------------------------------
  // str.split() with no argument

  /** The longest prefix of `s` free of whitespace. */
  function WordPrefix(s: string): (r: string)
    ensures r <= s
    ensures forall i :: 0 <= i < |r| ==> !IsSpace(r[i])
    ensures |r| < |s| ==> IsSpace(s[|r|])
  {
    if |s| == 0 || IsSpace(s[0]) then ""
    else
      var w := WordPrefix(s[1..]);
      assert [s[0]] + w <= s;
      [s[0]] + w
  }

  /** `s.split()`: the maximal runs of non-whitespace characters. */
  function Fields(s: string): (r: seq<string>)
    ensures forall k :: 0 <= k < |r| ==> IsWord(r[k])
    decreases |s|
  {
    if |s| == 0 then []
    else if IsSpace(s[0]) then Fields(s[1..])
    else
      var w := WordPrefix(s);
      [w] + Fields(s[|w|..])
  }

  lemma {:induction false} FieldsOfWordThen(w: string, rest: string)
    requires IsWord(w)
    requires rest == [] || IsSpace(rest[0])
    ensures Fields(w + rest) == [w] + Fields(rest)
    decreases |w|
  {
    var s := w + rest;
    if |w| == 1 {
      assert s[1..] == rest;
    } else {
      FieldsOfWordThen(w[1..], rest);
      assert s[1..] == w[1..] + rest;
    }
    assert WordPrefix(s) == w by {
      WordPrefixOf(w, rest);
    }
    assert s[|w|..] == rest;
  }

  lemma {:induction false} WordPrefixOf(w: string, rest: string)
    requires forall i :: 0 <= i < |w| ==> !IsSpace(w[i])
    requires rest == [] || IsSpace(rest[0])
    ensures WordPrefix(w + rest) == w
    decreases |w|
  {
    if |w| > 0 {
      WordPrefixOf(w[1..], rest);
      assert (w + rest)[1..] == w[1..] + rest;
      assert [w[0]] + w[1..] == w;
    }
  }

  /** `" ".join(words).split()` gives the words back, whatever whitespace follows. */
  lemma {:induction false} FieldsOfJoin(words: seq<string>, tail: string)
    requires |words| >= 1
    requires forall k :: 0 <= k < |words| ==> IsWord(words[k])
    requires forall i :: 0 <= i < |tail| ==> IsSpace(tail[i])
    ensures Fields(Join(words, ' ') + tail) == words
    decreases |words|
  {
    if |words| == 1 {
      FieldsOfWordThen(words[0], tail);
      AllSpace(tail);
    } else {
      FieldsOfJoin(words[1..], tail);
      FieldsOfJoinStep(words, tail);
    }
  }

  /** One more word in front: its field comes first, then the fields of the rest. */
  lemma FieldsOfJoinStep(words: seq<string>, tail: string)
    requires |words| >= 2 && IsWord(words[0])
    requires Fields(Join(words[1..], ' ') + tail) == words[1..]
    ensures Fields(Join(words, ' ') + tail) == words
  {
    var more := Join(words[1..], ' ') + tail;
    JoinConsTail(words, tail);
    FieldsOfWordThen(words[0], [' '] + more);
    FieldsSkipSpace(more);
    assert [words[0]] + words[1..] == words;
  }

  lemma JoinConsTail(words: seq<string>, tail: string)
    requires |words| >= 2
    ensures Join(words, ' ') + tail == words[0] + ([' '] + (Join(words[1..], ' ') + tail))
  {
  }

  lemma FieldsSkipSpace(s: string)
    ensures Fields([' '] + s) == Fields(s)
  {
    assert ([' '] + s)[1..] == s;
  }

  lemma {:induction false} AllSpace(tail: string)
    requires forall i :: 0 <= i < |tail| ==> IsSpace(tail[i])
    ensures Fields(tail) == []
    decreases |tail|
  {
    if |tail| > 0 {
      AllSpace(tail[1..]);
    }
  }

  // The fields are exactly the maximal runs: `s` is its fields, in order, with
  // whitespace gaps around them and a non-empty gap between any two.

  predicate AllSpaces(g: string) {
    forall i :: 0 <= i < |g| ==> IsSpace(g[i])
  }

  /** Whitespace runs that can surround `|gaps| - 1` words: the inner ones non-empty. */
  predicate Gaps(gaps: seq<string>) {
    |gaps| >= 1 &&
    (forall k :: 0 <= k < |gaps| ==> AllSpaces(gaps[k])) &&
    (forall k :: 0 < k < |gaps| - 1 ==> |gaps[k]| > 0)
  }

  /** Gap `k` before word `k`, and the last gap after the last word. */
  function Interleave(gaps: seq<string>, words: seq<string>): string
    requires |gaps| == |words| + 1
  {
    if |words| == 0 then gaps[0] else gaps[0] + words[0] + Interleave(gaps[1..], words[1..])
  }

  /** Leading whitespace adds no field. */
  lemma {:induction false} SkipSpaces(g: string, s: string)
    requires AllSpaces(g)
    ensures Fields(g + s) == Fields(s)
    decreases |g|
  {
    if |g| > 0 {
      assert (g + s)[0] == g[0];
      assert (g + s)[1..] == g[1..] + s;
      SkipSpaces(g[1..], s);
    } else {
      assert g + s == s;
    }
  }

  /** Words separated by whitespace gaps split back into those words. */
  lemma {:induction false} FieldsOfInterleave(gaps: seq<string>, words: seq<string>)
    requires |gaps| == |words| + 1 && Gaps(gaps)
    requires forall k :: 0 <= k < |words| ==> IsWord(words[k])
    ensures Fields(Interleave(gaps, words)) == words
    decreases |words|
  {
    if |words| == 0 {
      AllSpace(gaps[0]);
    } else {
      var gs, ws := gaps[1..], words[1..];
      var rest := Interleave(gs, ws);
      GapsTail(gaps, words);
      assert forall k :: 0 <= k < |ws| ==> ws[k] == words[k + 1];
      calc {
        Fields(Interleave(gaps, words));
        { assert Interleave(gaps, words) == gaps[0] + (words[0] + rest); }
        Fields(gaps[0] + (words[0] + rest));
        { SkipSpaces(gaps[0], words[0] + rest); }
        Fields(words[0] + rest);
        { FieldsOfWordThen(words[0], rest); }
        [words[0]] + Fields(rest);
        { FieldsOfInterleave(gs, ws); }
        [words[0]] + ws;
        words;
      }
    }
  }

  /** After the first gap and word, the rest is again gaps around words, and
      it starts with whitespace unless it is empty. */
  lemma GapsTail(gaps: seq<string>, words: seq<string>)
    requires |gaps| == |words| + 1 && |words| > 0 && Gaps(gaps)
    ensures Gaps(gaps[1..])
    ensures var rest := Interleave(gaps[1..], words[1..]);
      rest == [] || IsSpace(rest[0])
  {
    var gs, ws := gaps[1..], words[1..];
    assert forall k :: 0 <= k < |gs| ==> gs[k] == gaps[k + 1];
    var rest := Interleave(gs, ws);
    if |ws| > 0 {
      assert |gs[0]| > 0;
      assert rest[0] == gs[0][0];
    } else {
      assert rest == gs[0];
    }
  }

  /** The whitespace gaps around the fields of `s`: nothing but whitespace is
      dropped by the split. */
  function FieldGaps(s: string): (gaps: seq<string>)
    ensures |gaps| == |Fields(s)| + 1 && Gaps(gaps)
    ensures Interleave(gaps, Fields(s)) == s
    ensures |s| > 0 && IsSpace(s[0]) ==> |gaps[0]| > 0
    decreases |s|
  {
    if |s| == 0 then [""]
    else if IsSpace(s[0]) then
      var g := FieldGaps(s[1..]);
      GapsSpaceStep(s[0], g, Fields(s[1..]));
      assert s == [s[0]] + s[1..];
      [[s[0]] + g[0]] + g[1..]
    else
      var w := WordPrefix(s);
      var g := FieldGaps(s[|w|..]);
      GapsWordStep(w, g, Fields(s[|w|..]));
      assert s == w + s[|w|..];
      [""] + g
  }

  /** A whitespace character in front joins the first gap. */
  lemma GapsSpaceStep(c: char, g: seq<string>, words: seq<string>)
    requires IsSpace(c) && |g| == |words| + 1 && Gaps(g)
    ensures Gaps([[c] + g[0]] + g[1..])
    ensures Interleave([[c] + g[0]] + g[1..], words) == [c] + Interleave(g, words)
  {
    var gaps := [[c] + g[0]] + g[1..];
    assert AllSpaces(gaps[0]) by {
      forall i | 0 <= i < |gaps[0]| ensures IsSpace(gaps[0][i]) {
        if i > 0 {
          assert gaps[0][i] == g[0][i - 1];
        }
      }
    }
    assert forall k :: 0 < k < |gaps| ==> gaps[k] == g[k];
    InterleaveFront(c, g, words);
  }

  /** Prefixing the first gap prefixes the whole text. */
  lemma InterleaveFront(c: char, g: seq<string>, words: seq<string>)
    requires |g| == |words| + 1
    ensures Interleave([[c] + g[0]] + g[1..], words) == [c] + Interleave(g, words)
  {
    var gaps := [[c] + g[0]] + g[1..];
    if |words| > 0 {
      var rest := Interleave(g[1..], words[1..]);
      assert gaps[1..] == g[1..];
      calc {
        Interleave(gaps, words);
        ([c] + g[0]) + words[0] + rest;
        [c] + (g[0] + words[0] + rest);
        [c] + Interleave(g, words);
      }
    }
  }

  /** A word in front comes after an empty first gap, before the old first gap. */
  lemma GapsWordStep(w: string, g: seq<string>, words: seq<string>)
    requires |g| == |words| + 1 && Gaps(g)
    requires |words| > 0 ==> |g[0]| > 0
    ensures Gaps([""] + g)
    ensures Interleave([""] + g, [w] + words) == w + Interleave(g, words)
  {
    var gaps := [""] + g;
    assert gaps[1..] == g;
    assert ([w] + words)[1..] == words;
    assert gaps[0] + ([w] + words)[0] == w;
    assert Gaps(gaps) by {
      assert AllSpaces(gaps[0]);
      assert forall k :: 0 < k < |gaps| ==> gaps[k] == g[k - 1];
    }
  }

  /** Whitespace added to the last gap ends up after the last word. */
  lemma {:induction false} InterleaveAppend(gaps: seq<string>, words: seq<string>, c: string)
    requires |gaps| == |words| + 1
    ensures Interleave(gaps[|gaps| - 1 := gaps[|gaps| - 1] + c], words) == Interleave(gaps, words) + c
    decreases |words|
  {
    if |words| > 0 {
      var gaps' := gaps[|gaps| - 1 := gaps[|gaps| - 1] + c];
      assert gaps'[1..] == gaps[1..][|gaps| - 2 := gaps[|gaps| - 1] + c];
      InterleaveAppend(gaps[1..], words[1..], c);
    }
  }

  /** Trailing whitespace adds no field. */
  lemma FieldsTrailing(b: string, c: string)
    requires AllSpaces(c)
    ensures Fields(b + c) == Fields(b)
  {
    var g := FieldGaps(b);
    var g' := g[|g| - 1 := g[|g| - 1] + c];
    InterleaveAppend(g, Fields(b), c);
    assert Gaps(g') by {
      assert AllSpaces(g[|g| - 1] + c);
    }
    FieldsOfInterleave(g', Fields(b));
  }

  /** Stripping before `split()` changes nothing. */
  lemma StripFields(s: string)
    ensures Fields(Strip(s)) == Fields(s)
  {
    var i, j :| 0 <= i <= j <= |s| && Strip(s) == s[i..j] &&
      (forall k :: 0 <= k < i ==> IsSpace(s[k])) && (forall k :: j <= k < |s| ==> IsSpace(s[k]));
    assert s == s[..i] + (s[i..j] + s[j..]);
    SkipSpaces(s[..i], s[i..j] + s[j..]);
    FieldsTrailing(s[i..j], s[j..]);
  }

  // ---------------------------------------------------------------------------
  // The substring test `p in s`

  /** `p in s` for strings: `p` occurs in `s` as a contiguous run, at some position. */
  predicate IsSubstring(p: string, s: string)
    decreases |s|
  {
    p <= s || (|s| > 0 && IsSubstring(p, s[1..]))
  }

  /** The recursive test agrees with "occurs at some position". */
  lemma {:induction false} IsSubstringAt(p: string, s: string, k: nat)
    requires k + |p| <= |s| && s[k..k + |p|] == p
    ensures IsSubstring(p, s)
    decreases k
  {
    if k > 0 {
      assert s[1..][k - 1..k - 1 + |p|] == s[k..k + |p|];
      IsSubstringAt(p, s[1..], k - 1);
    }
  }

  /** `p` occurs in `s` starting at position `k`. */
  predicate OccursAt(p: string, s: string, k: nat) {
    k + |p| <= |s| && s[k..k + |p|] == p
  }

  /** The recursive test holds only where `p` occurs at some position. */
  lemma {:induction false} SubstringOccurs(p: string, s: string)
    requires IsSubstring(p, s)
    ensures exists k: nat :: OccursAt(p, s, k)
    decreases |s|
  {
    if p <= s {
      assert OccursAt(p, s, 0);
    } else {
      SubstringOccurs(p, s[1..]);
      var k: nat :| OccursAt(p, s[1..], k);
      assert s[1..][k..k + |p|] == s[k + 1..k + 1 + |p|];
      assert OccursAt(p, s, k + 1);
    }
  }

  /** `p in s` exactly when `p` occurs in `s` at some position. */
  lemma IsSubstringIff(p: string, s: string)
    ensures IsSubstring(p, s) <==> exists k: nat :: OccursAt(p, s, k)
  {
    if IsSubstring(p, s) {
      SubstringOccurs(p, s);
    } else if k: nat :| OccursAt(p, s, k) {
      IsSubstringAt(p, s, k);
    }
  }

  // ---------------------------------------------------------------------------
  // list.index(x)

  /** `xs.index(x)`: the first position holding `x`, or `None` where Python raises ValueError. */
  function IndexOf<T(==)>(xs: seq<T>, x: T): (r: Option<nat>)
    ensures r.None? <==> x !in xs
    ensures r.Some? ==> r.value < |xs| && xs[r.value] == x && x !in xs[..r.value]
  {
    if |xs| == 0 then None
    else if xs[0] == x then Some(0)
    else
      match IndexOf(xs[1..], x)
      case None => None
      case Some(i) =>
        assert xs[..i + 1] == [xs[0]] + xs[1..][..i];
        Some(i + 1)
  }

  /** In a list without repeats, `list.index` finds each element at its own position. */
  lemma IndexOfDistinct<T>(xs: seq<T>, i: nat)
    requires Distinct(xs) && i < |xs|
    ensures IndexOf(xs, xs[i]) == Some(i)
  {
  }

  // ---------------------------------------------------------------------------
  // Python's ordering of str values and sorted(set(l))

  /** `a < b` on Python strings: lexicographic by code point. */
  predicate Less(a: string, b: string)
    decreases |a|
  {
    if |a| == 0 then |b| > 0
    else |b| > 0 && (a[0] < b[0] || (a[0] == b[0] && Less(a[1..], b[1..])))
  }

  lemma {:induction false} LessIrreflexive(a: string)
    ensures !Less(a, a)
    decreases |a|
  {
    if |a| > 0 {
      LessIrreflexive(a[1..]);
    }
  }

  lemma {:induction false} LessTransitive(a: string, b: string, c: string)
    requires Less(a, b) && Less(b, c)
    ensures Less(a, c)
    decreases |a|
  {
    if |a| > 0 && a[0] == b[0] && b[0] == c[0] {
      LessTransitive(a[1..], b[1..], c[1..]);
    }
  }

  lemma {:induction false} LessTotal(a: string, b: string)
    requires a != b
    ensures Less(a, b) || Less(b, a)
    decreases |a|
  {
    if |a| > 0 && |b| > 0 && a[0] == b[0] {
      assert a == [a[0]] + a[1..] && b == [b[0]] + b[1..];
      LessTotal(a[1..], b[1..]);
    }
  }

  predicate StrictlySorted(s: seq<string>) {
    forall i, j :: 0 <= i < j < |s| ==> Less(s[i], s[j])
  }

  predicate Distinct<T(==)>(s: seq<T>) {
    forall i, j :: 0 <= i < j < |s| ==> s[i] != s[j]
  }

  lemma StrictlySortedIsDistinct(s: seq<string>)
    requires StrictlySorted(s)
    ensures Distinct(s)
  {
    forall i, j | 0 <= i < j < |s| ensures s[i] != s[j] {
      LessIrreflexive(s[i]);
    }
  }

  /** Inserts `x` into a strictly increasing list unless it is already there. */
  function Insert(x: string, s: seq<string>): (r: seq<string>)
    requires StrictlySorted(s)
    ensures StrictlySorted(r)
    ensures forall y :: y in r <==> y == x || y in s
    decreases |s|
  {
    if |s| == 0 then [x]
    else if x == s[0] then s
    else if Less(x, s[0]) then
      forall j | 0 < j < |s| ensures Less(x, s[j]) {
        LessTransitive(x, s[0], s[j]);
      }
      [x] + s
    else
      LessTotal(x, s[0]);
      var tail := Insert(x, s[1..]);
      assert forall y :: y in tail ==> Less(s[0], y);
      [s[0]] + tail
  }

  /** `sorted(set(l))`: the distinct elements of `l` in ascending order. */
  function SortedSet(l: seq<string>): (r: seq<string>)
    ensures StrictlySorted(r)
    ensures forall y :: y in r <==> y in l
  {
    if |l| == 0 then []
    else
      var r := Insert(l[|l| - 1], SortedSet(l[..|l| - 1]));
      assert l == l[..|l| - 1] + [l[|l| - 1]];
      r
  }

  /** A strictly increasing list is determined by its elements, so `sorted(set(l))` is unique. */
  lemma {:induction false} SortedUnique(a: seq<string>, b: seq<string>)
    requires StrictlySorted(a) && StrictlySorted(b)
    requires forall y :: y in a <==> y in b
    ensures a == b
    decreases |a|
  {
    if |a| > 0 {
      assert a[0] in a;
      HeadsAgree(a, b);
      HeadsAgree(b, a);
      forall y ensures y in a[1..] <==> y in b[1..] {
        if y in a[1..] { TailMember(a, b, y); }
        if y in b[1..] { TailMember(b, a, y); }
      }
      SortedUnique(a[1..], b[1..]);
      assert a == [a[0]] + a[1..] && b == [b[0]] + b[1..];
    } else if |b| > 0 {
      HeadIsMember(b);
      assert false;
    }
  }

  lemma HeadIsMember(b: seq<string>)
    requires |b| > 0
    ensures b[0] in b
  {
  }

  /** The head of a non-empty strictly sorted list is its least element. */
  lemma HeadsAgree(a: seq<string>, b: seq<string>)
    requires StrictlySorted(a) && StrictlySorted(b)
    requires forall y :: y in a <==> y in b
    requires |a| > 0 && |b| > 0
    ensures !Less(a[0], b[0])
  {
    if Less(a[0], b[0]) {
      assert a[0] in a;
      var j :| 0 <= j < |b| && b[j] == a[0];
      if j > 0 {
        LessTransitive(a[0], b[0], b[j]);
      }
      LessIrreflexive(a[0]);
    }
  }

  lemma TailMember(a: seq<string>, b: seq<string>, y: string)
    requires StrictlySorted(a) && StrictlySorted(b)
    requires forall y :: y in a <==> y in b
    requires |a| > 0 && |b| > 0 && a[0] == b[0]
    requires y in a[1..]
    ensures y in b[1..]
  {
    var i :| 0 <= i < |a| - 1 && a[1..][i] == y;
    assert Less(a[0], a[i + 1]);
    LessIrreflexive(y);
    assert y in a;
    var j :| 0 <= j < |b| && b[j] == y;
    assert b[1..][j - 1] == y;
  }
}
