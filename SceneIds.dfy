// Scene identifiers: the HDF5 group name under which one command sample is
// stored. CRIM names a sample by the middle of its scene-2 file name,
// i-CLEVR by the whole file name.

module SceneIds {
  import opened PyStr

  /** `os.path.basename(p)` on POSIX paths: everything after the last '/'. */
  function Basename(p: string): (r: string)
    ensures '/' !in r
    ensures |r| <= |p| && r == p[|p| - |r|..]
    ensures |r| < |p| ==> p[|p| - |r| - 1] == '/'
  {
    match LastIndex(p, '/')
    case None => assert p == p[0..]; p
    case Some(i) => p[i + 1..]
  }

  /** The basename of `dir/name` is `name` when the name holds no '/'. */
  lemma BasenameOfJoin(dir: string, name: string)
    requires '/' !in name
    ensures Basename(dir + "/" + name) == name
  {
    var p := dir + "/" + name;
    assert p[|dir|] == '/';
    assert p[|dir| + 1..] == name;
  }

  /** `s.count(c)` for a single character. */
  function Count(s: string, c: char): (n: nat)
    ensures n <= |s|
  {
    if |s| == 0 then 0 else (if s[0] == c then 1 else 0) + Count(s[1..], c)
  }

  /** `s.split('_', n)[n]`: the text after the `n`-th underscore, or `None` where
      the index raises IndexError because `s` has fewer than `n` underscores. The
      prefix cut off holds exactly `n` underscores and ends with the last of them. */
  function AfterUnderscores(s: string, n: nat): (r: Option<string>)
    ensures r.None? <==> Count(s, '_') < n
    ensures n == 0 ==> r == Some(s)
    ensures r.Some? ==> |r.value| <= |s| && s[|s| - |r.value|..] == r.value
    ensures r.Some? ==> Count(s[..|s| - |r.value|], '_') == n
    ensures r.Some? && n > 0 ==> |r.value| < |s| && s[|s| - |r.value| - 1] == '_'
    decreases |s|
  {
    if n == 0 then Some(s)
    else if |s| == 0 then None
    else
      var r := AfterUnderscores(s[1..], if s[0] == '_' then n - 1 else n);
      assert r.Some? ==> s[..|s| - |r.value|][1..] == s[1..][..|s| - 1 - |r.value|];
      r
  }

  /** Skipping an underscore-free part and the underscore after it. */
  lemma {:induction false} SkipPart(x: string, rest: string, n: nat)
    requires '_' !in x
    ensures AfterUnderscores(x + "_" + rest, n + 1) == AfterUnderscores(rest, n)
  {
    if |x| > 0 {
      assert (x + "_" + rest)[1..] == x[1..] + "_" + rest;
      SkipPart(x[1..], rest, n);
    } else {
      assert (x + "_" + rest)[1..] == rest;
    }
  }

  /** `t[:-n]`: all but the last `n` characters, empty when `t` is no longer
      than `n`, and empty for `n == 0` too, since `-0` is `0` and `t[:0]` is empty. */
  function DropLast(t: string, n: nat): (r: string)
    ensures |r| == if n == 0 || |t| <= n then 0 else |t| - n
    ensures r <= t
  {
    if n == 0 || |t| <= n then "" else t[..|t| - n]
  }

  /** Dropping five characters removes a ".json" extension. */
  lemma DropJson(x: string)
    ensures DropLast(x + ".json", 5) == x
  {
    assert (x + ".json")[..|x|] == x;
  }

  /** The CRIM sample name: the basename of the scene-2 path after its second
      underscore, less its last five characters (the ".json" suffix). */
  function CrimSceneId(path: string): (r: Option<string>)
    ensures r.None? <==> Count(Basename(path), '_') < 2
  {
    match AfterUnderscores(Basename(path), 2)
    case None => None
    case Some(t) => Some(DropLast(t, 5))
  }

  /** The i-CLEVR sample name: the whole basename of the scene-2 path. */
  function IclevrSceneId(path: string): (r: string)
    ensures '/' !in r
  {
    Basename(path)
  }

  /** The shape of a canonical scene file name `<a>_<b>_<tail>`. */
  lemma CanonicalName(a: string, b: string, tail: string)
    requires '/' !in a && '/' !in b && '/' !in tail
    ensures a + "_" + b + "_" + tail == a + "_" + (b + "_" + tail)
    ensures '/' !in a + "_" + b + "_" + tail
  {
  }

  /** A scene file named `<a>_<b>_<tail>` with underscore-free `a` and `b`,
      found in any directory, is stored in CRIM under `tail` less its last five
      characters: `CLEVR_new_001991_0_c1.json` is stored as `001991_0_c1`. */
  lemma CrimSceneIdOfCanonical(dir: string, a: string, b: string, tail: string)
    requires '_' !in a && '_' !in b
    requires '/' !in a && '/' !in b && '/' !in tail
    ensures CrimSceneId(dir + "/" + (a + "_" + b + "_" + tail)) == Some(DropLast(tail, 5))
  {
    CanonicalName(a, b, tail);
    BasenameOfJoin(dir, a + "_" + b + "_" + tail);
    SkipPart(a, b + "_" + tail, 1);
    SkipPart(b, tail, 0);
  }

  /** In i-CLEVR the same file is stored under its whole name. */
  lemma IclevrSceneIdOfName(dir: string, name: string)
    requires '/' !in name
    ensures IclevrSceneId(dir + "/" + name) == name
  {
    BasenameOfJoin(dir, name);
  }
}
