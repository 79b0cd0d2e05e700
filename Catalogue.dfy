/**
 * The object catalogue: `create_vocab` writes every object kind, one per line,
 * as "shape color material"; `create_h5` reads the lines back as tuples of
 * whitespace-separated fields and re-serialises them as the `entities` list.
 * A tuple is modelled as the sequence of its fields.
 */
module Catalogue {
  import opened PyStr

  const COLORS: seq<string> := ["gray", "red", "blue", "green", "brown", "purple", "cyan", "yellow"]
  const SHAPES: seq<string> := ["cube", "sphere", "cylinder"]
  const MATERIALS: seq<string> := ["metal", "rubber"]

  // ---------------------------------------------------------------------------
  // itertools.product(xs, ys, zs)

  /** The triples `(x, y, z)` for one fixed `x`, `z` varying fastest. */
  function Row(x: string, ys: seq<string>, zs: seq<string>): seq<seq<string>>
  {
    if |ys| == 0 then []
    else seq(|zs|, k requires 0 <= k < |zs| => [x, ys[0], zs[k]]) + Row(x, ys[1..], zs)
  }

  /** `itertools.product(xs, ys, zs)`: lexicographic over positions, the last list varying fastest. */
  function Product3(xs: seq<string>, ys: seq<string>, zs: seq<string>): seq<seq<string>>
  {
    if |xs| == 0 then [] else Row(xs[0], ys, zs) + Product3(xs[1..], ys, zs)
  }

  /** The rows of a concatenated colour list are the rows of each part in turn. */
  lemma {:induction false} RowAppend(x: string, a: seq<string>, b: seq<string>, zs: seq<string>)
    ensures Row(x, a + b, zs) == Row(x, a, zs) + Row(x, b, zs)
  {
    if |a| > 0 {
      assert (a + b)[1..] == a[1..] + b;
      RowAppend(x, a[1..], b, zs);
    } else {
      assert a + b == b;
    }
  }

  /** `product(a + b, ys, zs)` is `product(a, ys, zs)` followed by `product(b, ys, zs)`. */
  lemma {:induction false} ProductAppend(a: seq<string>, b: seq<string>, ys: seq<string>, zs: seq<string>)
    ensures Product3(a + b, ys, zs) == Product3(a, ys, zs) + Product3(b, ys, zs)
  {
    if |a| > 0 {
      assert (a + b)[1..] == a[1..] + b;
      ProductAppend(a[1..], b, ys, zs);
    } else {
      assert a + b == b;
    }
  }

  /** Indexing into the middle part of a three-part concatenation. */
  lemma MiddleAt<T>(a: seq<T>, b: seq<T>, c: seq<T>, off: nat)
    requires off < |b|
    ensures |a| + off < |a + (b + c)|
    ensures (a + (b + c))[|a| + off] == b[off]
  {
  }

  /** The product over a single first item is its row. */
  lemma ProductSingle(x: string, ys: seq<string>, zs: seq<string>)
    ensures Product3([x], ys, zs) == Row(x, ys, zs)
  {
    assert [x][1..] == [];
    assert Row(x, ys, zs) + [] == Row(x, ys, zs);
  }

  lemma {:induction false} RowAt(x: string, ys: seq<string>, zs: seq<string>, j: nat, k: nat)
    requires j < |ys| && k < |zs|
    ensures |Row(x, ys[..j], zs)| + k < |Row(x, ys, zs)|
    ensures Row(x, ys, zs)[|Row(x, ys[..j], zs)| + k] == [x, ys[j], zs[k]]
  {
    var here := Row(x, [ys[j]], zs);
    assert ys == ys[..j] + ([ys[j]] + ys[j + 1..]);
    RowAppend(x, ys[..j], [ys[j]] + ys[j + 1..], zs);
    RowAppend(x, [ys[j]], ys[j + 1..], zs);
    MiddleAt(Row(x, ys[..j], zs), here, Row(x, ys[j + 1..], zs), k);
    assert here[k] == [x, ys[j], zs[k]];
  }

  /** Triple `(xs[i], ys[j], zs[k])` sits after every triple with a smaller first index, then after those of `xs[i]` with a smaller second index. */
  lemma {:induction false} ProductAt(xs: seq<string>, ys: seq<string>, zs: seq<string>, i: nat, j: nat, k: nat)
    requires i < |xs| && j < |ys| && k < |zs|
    ensures |Product3(xs[..i], ys, zs)| + |Row(xs[i], ys[..j], zs)| + k < |Product3(xs, ys, zs)|
    ensures Product3(xs, ys, zs)[|Product3(xs[..i], ys, zs)| + |Row(xs[i], ys[..j], zs)| + k] == [xs[i], ys[j], zs[k]]
  {
    var before, row, after := Product3(xs[..i], ys, zs), Row(xs[i], ys, zs), Product3(xs[i + 1..], ys, zs);
    assert Product3(xs, ys, zs) == before + (row + after) by {
      assert xs == xs[..i] + ([xs[i]] + xs[i + 1..]);
      ProductAppend(xs[..i], [xs[i]] + xs[i + 1..], ys, zs);
      ProductAppend([xs[i]], xs[i + 1..], ys, zs);
      ProductSingle(xs[i], ys, zs);
    }
    var off := |Row(xs[i], ys[..j], zs)| + k;
    RowAt(xs[i], ys, zs, j, k);
    MiddleAt(before, row, after, off);
    assert (before + (row + after))[|before| + off] == [xs[i], ys[j], zs[k]];
  }

  /** With two materials, each colour contributes two triples to a row. */
  lemma {:induction false} RowLength2(x: string, ys: seq<string>, zs: seq<string>)
    requires |zs| == 2
    ensures |Row(x, ys, zs)| == 2 * |ys|
  {
    if |ys| > 0 {
      RowLength2(x, ys[1..], zs);
    }
  }

  /** With eight colours and two materials, each shape contributes sixteen triples. */
  lemma {:induction false} ProductLength16(xs: seq<string>, ys: seq<string>, zs: seq<string>)
    requires |ys| == 8 && |zs| == 2
    ensures |Product3(xs, ys, zs)| == 16 * |xs|
  {
    if |xs| > 0 {
      RowLength2(xs[0], ys, zs);
      ProductLength16(xs[1..], ys, zs);
    }
  }

  /** Every triple in the product is drawn from the three lists, position by position. */
  lemma {:induction false} ProductMembers(xs: seq<string>, ys: seq<string>, zs: seq<string>, t: seq<string>)
    requires t in Product3(xs, ys, zs)
    ensures |t| == 3 && t[0] in xs && t[1] in ys && t[2] in zs
  {
    if |xs| > 0 {
      if t in Row(xs[0], ys, zs) {
        RowMembers(xs[0], ys, zs, t);
      } else {
        ProductMembers(xs[1..], ys, zs, t);
      }
    }
  }

  lemma {:induction false} RowMembers(x: string, ys: seq<string>, zs: seq<string>, t: seq<string>)
    requires t in Row(x, ys, zs)
    ensures |t| == 3 && t[0] == x && t[1] in ys && t[2] in zs
  {
    if |ys| > 0 {
      var head := seq(|zs|, k requires 0 <= k < |zs| => [x, ys[0], zs[k]]);
      if t !in head {
        RowMembers(x, ys[1..], zs, t);
      }
    }
  }

  lemma DistinctConcat<T>(a: seq<T>, b: seq<T>)
    requires Distinct(a) && Distinct(b)
    requires forall t :: t in a ==> t !in b
    ensures Distinct(a + b)
  {
    forall i, j | 0 <= i < j < |a + b| ensures (a + b)[i] != (a + b)[j] {
      if i < |a| && j >= |a| {
        assert (a + b)[i] in a && (a + b)[j] == b[j - |a|];
      }
    }
  }

  lemma {:induction false} RowDistinct(x: string, ys: seq<string>, zs: seq<string>)
    requires Distinct(ys) && Distinct(zs)
    ensures Distinct(Row(x, ys, zs))
  {
    if |ys| > 0 {
      var head := seq(|zs|, k requires 0 <= k < |zs| => [x, ys[0], zs[k]]);
      RowDistinct(x, ys[1..], zs);
      assert ys[0] !in ys[1..];
      forall t | t in head ensures t !in Row(x, ys[1..], zs) {
        if t in Row(x, ys[1..], zs) {
          RowMembers(x, ys[1..], zs, t);
          assert false;
        }
      }
      DistinctConcat(head, Row(x, ys[1..], zs));
    }
  }

  /** With repetition-free input lists the product has no repeated triple. */
  lemma {:induction false} ProductDistinct(xs: seq<string>, ys: seq<string>, zs: seq<string>)
    requires Distinct(xs) && Distinct(ys) && Distinct(zs)
    ensures Distinct(Product3(xs, ys, zs))
  {
    if |xs| > 0 {
      RowDistinct(xs[0], ys, zs);
      ProductDistinct(xs[1..], ys, zs);
      assert xs[0] !in xs[1..];
      forall t | t in Row(xs[0], ys, zs) ensures t !in Product3(xs[1..], ys, zs) {
        RowMembers(xs[0], ys, zs, t);
        if t in Product3(xs[1..], ys, zs) {
          ProductMembers(xs[1..], ys, zs, t);
          assert false;
        }
      }
      DistinctConcat(Row(xs[0], ys, zs), Product3(xs[1..], ys, zs));
    }
  }

  // ---------------------------------------------------------------------------
  // create_vocab

  predicate AllWords(xs: seq<string>) {
    forall k :: 0 <= k < |xs| ==> IsWord(xs[k])
  }

  /** Each kind's fields joined with single spaces. */
  function JoinEach(kinds: seq<seq<string>>): (names: seq<string>)
  {
    seq(|kinds|, i requires 0 <= i < |kinds| => Join(kinds[i], ' '))
  }

  /** The catalogue lines: every shape, colour and material combination, space-joined. */
  function CreateVocab(): seq<string>
  {
    JoinEach(Product3(SHAPES, COLORS, MATERIALS))
  }

  /** The lines of the catalogue file as `readlines()` returns them. */
  function WrittenLines(items: seq<string>): (lines: seq<string>)
  {
    seq(|items|, i requires 0 <= i < |items| => items[i] + "\n")
  }

  lemma JoinThree(a: string, b: string, c: string)
    ensures Join([a, b, c], ' ') == a + " " + b + " " + c
  {
    assert [a, b, c][1..] == [b, c];
    assert [b, c][1..] == [c];
    assert Join([b, c], ' ') == b + [' '] + c;
    assert Join([a, b, c], ' ') == a + [' '] + (b + [' '] + c);
  }

  /** A product entry written out and split on whitespace gives back its triple. */
  lemma ProductEntryFields(xs: seq<string>, ys: seq<string>, zs: seq<string>, i: nat)
    requires AllWords(xs) && AllWords(ys) && AllWords(zs)
    requires i < |Product3(xs, ys, zs)|
    ensures |Product3(xs, ys, zs)[i]| == 3
    ensures Fields(JoinEach(Product3(xs, ys, zs))[i]) == Product3(xs, ys, zs)[i]
    ensures Trimmed(JoinEach(Product3(xs, ys, zs))[i])
  {
    var t := Product3(xs, ys, zs)[i];
    ProductMembers(xs, ys, zs, t);
    TripleFields(t);
  }

  lemma TripleFields(t: seq<string>)
    requires |t| == 3 && IsWord(t[0]) && IsWord(t[1]) && IsWord(t[2])
    ensures Fields(Join(t, ' ')) == t
    ensures Trimmed(Join(t, ' '))
  {
    FieldsOfJoin(t, "");
    assert Join(t, ' ') + "" == Join(t, ' ');
    assert t == [t[0], t[1], t[2]];
    JoinThree(t[0], t[1], t[2]);
  }

  /** Distinct word lists give distinct catalogue names. */
  lemma ProductNamesDistinct(xs: seq<string>, ys: seq<string>, zs: seq<string>)
    requires AllWords(xs) && AllWords(ys) && AllWords(zs)
    requires Distinct(xs) && Distinct(ys) && Distinct(zs)
    ensures Distinct(JoinEach(Product3(xs, ys, zs)))
  {
    ProductDistinct(xs, ys, zs);
    var v := JoinEach(Product3(xs, ys, zs));
    forall i, j | 0 <= i < j < |v| ensures v[i] != v[j] {
      ProductEntryFields(xs, ys, zs, i);
      ProductEntryFields(xs, ys, zs, j);
    }
  }

  lemma ConstantsAreWords()
    ensures AllWords(SHAPES) && AllWords(COLORS) && AllWords(MATERIALS)
    ensures Distinct(SHAPES) && Distinct(COLORS) && Distinct(MATERIALS)
  {
    ShapesAreWords();
    ColorsAreWords();
    MaterialsAreWords();
  }

  lemma ShapesAreWords()
    ensures AllWords(SHAPES) && Distinct(SHAPES)
  {
  }

  lemma ColorsAreWords()
    ensures AllWords(COLORS) && Distinct(COLORS)
  {
  }

  lemma MaterialsAreWords()
    ensures AllWords(MATERIALS) && Distinct(MATERIALS)
  {
  }

  /** For lists of 3, 8 and 2 items the product has 48 triples, triple `(s, c, m)` at `16s + 2c + m`. */
  lemma ProductLayout382(xs: seq<string>, ys: seq<string>, zs: seq<string>, s: nat, c: nat, m: nat)
    requires |xs| == 3 && |ys| == 8 && |zs| == 2
    requires s < 3 && c < 8 && m < 2
    ensures |Product3(xs, ys, zs)| == 48
    ensures Product3(xs, ys, zs)[16 * s + 2 * c + m] == [xs[s], ys[c], zs[m]]
  {
    var before, left := xs[..s], ys[..c];
    ProductLength16(xs, ys, zs);
    ProductLength16(before, ys, zs);
    RowLength2(xs[s], left, zs);
    var i := |Product3(before, ys, zs)| + |Row(xs[s], left, zs)| + m;
    assert i == 16 * s + 2 * c + m;
    ProductAt(xs, ys, zs, s, c, m);
  }

  /** The product triples in catalogue order: shape-major, then colour, material fastest. */
  lemma CatalogueTriple(s: nat, c: nat, m: nat)
    requires s < 3 && c < 8 && m < 2
    ensures |Product3(SHAPES, COLORS, MATERIALS)| == 48
    ensures Product3(SHAPES, COLORS, MATERIALS)[16 * s + 2 * c + m] == [SHAPES[s], COLORS[c], MATERIALS[m]]
  {
    ProductLayout382(SHAPES, COLORS, MATERIALS, s, c, m);
  }

  /** The catalogue has 48 entries, entry `16s + 2c + m` naming shape `s`, colour `c` and material `m`. */
  lemma CatalogueLayout(s: nat, c: nat, m: nat)
    requires s < 3 && c < 8 && m < 2
    ensures |CreateVocab()| == 48
    ensures CreateVocab()[16 * s + 2 * c + m] == SHAPES[s] + " " + COLORS[c] + " " + MATERIALS[m]
  {
    CatalogueTriple(s, c, m);
    JoinThree(SHAPES[s], COLORS[c], MATERIALS[m]);
  }

  lemma CatalogueEnds()
    ensures |CreateVocab()| == 48
    ensures CreateVocab()[0] == "cube gray metal"
    ensures CreateVocab()[47] == "cylinder yellow rubber"
  {
    CatalogueLayout(0, 0, 0);
    CatalogueLayout(2, 7, 1);
    EndNames();
  }

  lemma EndNames()
    ensures SHAPES[0] + " " + COLORS[0] + " " + MATERIALS[0] == "cube gray metal"
    ensures SHAPES[2] + " " + COLORS[7] + " " + MATERIALS[1] == "cylinder yellow rubber"
  {
  }

  /** All 48 catalogue entries are different. */
  lemma CatalogueDistinct()
    ensures Distinct(CreateVocab())
  {
    ConstantsAreWords();
    ProductNamesDistinct(SHAPES, COLORS, MATERIALS);
  }

  /** Splitting an entry on whitespace gives back its (shape, color, material) triple. */
  lemma EntryFields(i: nat)
    requires i < |CreateVocab()|
    ensures var t := Fields(CreateVocab()[i]);
      |t| == 3 && t[0] in SHAPES && t[1] in COLORS && t[2] in MATERIALS
  {
    ConstantsAreWords();
    ProductEntryFields(SHAPES, COLORS, MATERIALS, i);
    ProductMembers(SHAPES, COLORS, MATERIALS, Product3(SHAPES, COLORS, MATERIALS)[i]);
  }

  // ---------------------------------------------------------------------------
  // create_h5: reading the catalogue back

  /** Each line stripped and split on whitespace into its fields. */
  function ParseCatalogue(lines: seq<string>): (objects: seq<seq<string>>)
    ensures |objects| == |lines|
    ensures forall i, k :: 0 <= i < |lines| && 0 <= k < |objects[i]| ==> IsWord(objects[i][k])
  {
    seq(|lines|, i requires 0 <= i < |lines| => Fields(Strip(lines[i])))
  }

  /** Each tuple holds the whitespace-separated words of its line; the strip
      before the split changes nothing. */
  lemma ParseCatalogueFields(lines: seq<string>, i: nat)
    requires i < |lines|
    ensures ParseCatalogue(lines)[i] == Fields(lines[i])
  {
    StripFields(lines[i]);
  }

  /** The first three fields of every tuple, space-joined; `None` where a tuple is too short and Python raises IndexError. */
  function Entities3(objects: seq<seq<string>>): (r: Option<seq<string>>)
    ensures r.Some? <==> forall i :: 0 <= i < |objects| ==> |objects[i]| >= 3
    ensures r.Some? ==> |r.value| == |objects|
    ensures r.Some? ==> forall i :: 0 <= i < |objects| ==>
      r.value[i] == objects[i][0] + " " + objects[i][1] + " " + objects[i][2]
  {
    if forall i :: 0 <= i < |objects| ==> |objects[i]| >= 3 then
      var names := seq(|objects|, i requires 0 <= i < |objects| => Join(objects[i][..3], ' '));
      assert forall i :: 0 <= i < |objects| ==>
        names[i] == objects[i][0] + " " + objects[i][1] + " " + objects[i][2] by {
        forall i | 0 <= i < |objects|
          ensures names[i] == objects[i][0] + " " + objects[i][1] + " " + objects[i][2]
        {
          JoinThree(objects[i][0], objects[i][1], objects[i][2]);
          assert objects[i][..3] == [objects[i][0], objects[i][1], objects[i][2]];
        }
      }
      Some(names)
    else None
  }

  /** The i-CLEVR form: the first two fields of every tuple, space-joined. */
  function Entities2(objects: seq<seq<string>>): (r: Option<seq<string>>)
    ensures r.Some? <==> forall i :: 0 <= i < |objects| ==> |objects[i]| >= 2
    ensures r.Some? ==> |r.value| == |objects|
    ensures r.Some? ==> forall i :: 0 <= i < |objects| ==> r.value[i] == objects[i][0] + " " + objects[i][1]
  {
    if forall i :: 0 <= i < |objects| ==> |objects[i]| >= 2 then
      var names := seq(|objects|, i requires 0 <= i < |objects| => Join(objects[i][..2], ' '));
      assert forall i :: 0 <= i < |objects| ==> names[i] == objects[i][0] + " " + objects[i][1] by {
        forall i | 0 <= i < |objects|
          ensures names[i] == objects[i][0] + " " + objects[i][1]
        {
          JoinTwo(objects[i][0], objects[i][1]);
          assert objects[i][..2] == [objects[i][0], objects[i][1]];
        }
      }
      Some(names)
    else None
  }

  /** Reading a written product catalogue back yields exactly the product triples. */
  lemma ParseWrittenProduct(xs: seq<string>, ys: seq<string>, zs: seq<string>)
    requires AllWords(xs) && AllWords(ys) && AllWords(zs)
    ensures ParseCatalogue(WrittenLines(JoinEach(Product3(xs, ys, zs)))) == Product3(xs, ys, zs)
  {
    var kinds := Product3(xs, ys, zs);
    var v := JoinEach(kinds);
    var parsed := ParseCatalogue(WrittenLines(v));
    forall i | 0 <= i < |v| ensures parsed[i] == kinds[i] {
      ProductEntryFields(xs, ys, zs, i);
      StripLine(v[i]);
    }
  }

  /** The `entities` list re-serialised from a read-back product catalogue is the catalogue itself. */
  lemma ProductRoundTrip(xs: seq<string>, ys: seq<string>, zs: seq<string>)
    requires AllWords(xs) && AllWords(ys) && AllWords(zs)
    ensures Entities3(ParseCatalogue(WrittenLines(JoinEach(Product3(xs, ys, zs))))) == Some(JoinEach(Product3(xs, ys, zs)))
  {
    ParseWrittenProduct(xs, ys, zs);
    var kinds := Product3(xs, ys, zs);
    forall i | 0 <= i < |kinds| ensures |kinds[i]| == 3 {
      ProductMembers(xs, ys, zs, kinds[i]);
    }
    EntitiesOfTriples(kinds);
  }

  /** On a catalogue of triples, the three-field `entities` are just the space-joined triples. */
  lemma EntitiesOfTriples(kinds: seq<seq<string>>)
    requires forall i :: 0 <= i < |kinds| ==> |kinds[i]| == 3
    ensures Entities3(kinds) == Some(JoinEach(kinds))
  {
    var e := Entities3(kinds);
    assert e.Some?;
    var names := JoinEach(kinds);
    assert |e.value| == |names|;
    forall i | 0 <= i < |kinds| ensures e.value[i] == names[i] {
      assert kinds[i][..3] == kinds[i];
    }
    assert e.value == names;
  }

  /** The three steps agree: the `entities` list `create_h5` stores is the catalogue `create_vocab` wrote. */
  lemma CatalogueRoundTrip()
    ensures ParseCatalogue(WrittenLines(CreateVocab())) == Product3(SHAPES, COLORS, MATERIALS)
    ensures Entities3(ParseCatalogue(WrittenLines(CreateVocab()))) == Some(CreateVocab())
  {
    ConstantsAreWords();
    ParseWrittenProduct(SHAPES, COLORS, MATERIALS);
    ProductRoundTrip(SHAPES, COLORS, MATERIALS);
  }

  lemma JoinTwo(a: string, b: string)
    ensures Join([a, b], ' ') == a + " " + b
  {
    assert [a, b][1..] == [b];
  }

  /** Two consecutive triples that differ only in their third field give the same two-field entity. */
  lemma {:induction false} Entities2Repeat(objects: seq<seq<string>>, n: nat, a: string, b: string, m0: string, m1: string)
    requires forall i :: 0 <= i < |objects| ==> |objects[i]| == 3
    requires n + 1 < |objects| && objects[n] == [a, b, m0] && objects[n + 1] == [a, b, m1]
    ensures Entities2(objects).Some?
    ensures Entities2(objects).value[n] == Entities2(objects).value[n + 1] == a + " " + b
  {
    var e := Entities2(objects).value;
    assert objects[n][..2] == [a, b] && objects[n + 1][..2] == [a, b];
    JoinTwo(a, b);
  }

  /** Over a written 3 x 8 x 2 product, the two-field entities at `16s + 2c` and `16s + 2c + 1` coincide. */
  lemma TwoFieldRepeat382(xs: seq<string>, ys: seq<string>, zs: seq<string>, s: nat, c: nat)
    requires |xs| == 3 && |ys| == 8 && |zs| == 2
    requires AllWords(xs) && AllWords(ys) && AllWords(zs)
    requires s < 3 && c < 8
    ensures Entities2(ParseCatalogue(WrittenLines(JoinEach(Product3(xs, ys, zs))))).Some?
    ensures var e := Entities2(ParseCatalogue(WrittenLines(JoinEach(Product3(xs, ys, zs))))).value;
      |e| == 48 && e[16 * s + 2 * c] == e[16 * s + 2 * c + 1] == xs[s] + " " + ys[c]
  {
    var objects := Product3(xs, ys, zs);
    ParseWrittenProduct(xs, ys, zs);
    ProductLayout382(xs, ys, zs, s, c, 0);
    ProductLayout382(xs, ys, zs, s, c, 1);
    forall i | 0 <= i < |objects| ensures |objects[i]| == 3 {
      ProductMembers(xs, ys, zs, objects[i]);
    }
    Entities2Repeat(objects, 16 * s + 2 * c, xs[s], ys[c], zs[0], zs[1]);
  }

  /** Fed the CRIM catalogue, the i-CLEVR entities drop the material, so each name appears twice in a row. */
  lemma TwoFieldEntitiesRepeat(s: nat, c: nat)
    requires s < 3 && c < 8
    ensures Entities2(ParseCatalogue(WrittenLines(CreateVocab()))).Some?
    ensures var e := Entities2(ParseCatalogue(WrittenLines(CreateVocab()))).value;
      |e| == 48 && e[16 * s + 2 * c] == e[16 * s + 2 * c + 1] == SHAPES[s] + " " + COLORS[c]
  {
    ConstantsAreWords();
    TwoFieldRepeat382(SHAPES, COLORS, MATERIALS, s, c);
  }
}
