/**
 * The object tensors of one sample. Each object of a scene file is looked up
 * in the catalogue by its kind; the slot found is set to 1 in a multi-hot
 * vector and receives the object's rescaled pixel position. CRIM stores one
 * 48-wide row per scene of the pair; i-CLEVR appends the same 24-wide vector
 * once per object and stacks the list.
 */
module Encoding {
  import opened PyStr
  import Catalogue

  /** A pixel position: x and y in image pixels, then the depth. */
  datatype Pixel = Pixel(x: real, y: real, depth: real)

  /** The value every coordinate slot starts from. */
  const ORIGIN: Pixel := Pixel(0.0, 0.0, 0.0)

  /** One entry of a scene file's `objects` list. */
  datatype SceneObject = SceneObject(shape: string, color: string, material: string, pixel: Pixel)

  /** The two scripts: CRIM keys objects by three fields, i-CLEVR by two. */
  datatype Variant = Crim | Iclevr

  /** The exception that stops a sample. */
  datatype EncodeError =
    | UnknownKind(key: seq<string>)  // `list.index` raises ValueError
    | SlotOutOfRange(slot: nat)      // writing past the vector raises IndexError
    | NothingToStack                 // `np.stack([])` raises ValueError

  /** The tuple looked up in the catalogue for an object. */
  function Key(v: Variant, o: SceneObject): (key: seq<string>)
    ensures |key| == (if v == Crim then 3 else 2)
    ensures key[0] == o.shape && key[1] == o.color
    ensures v == Crim ==> key[2] == o.material
  {
    if v == Crim then [o.shape, o.color, o.material] else [o.shape, o.color]
  }

  /** The multi-hot vector length: 48 kinds for CRIM, 24 for i-CLEVR. */
  function Width(v: Variant): nat {
    if v == Crim then 48 else 24
  }

  /** The stored position: x and y rescaled to a 128-pixel image (CRIM renders
      480x320, i-CLEVR 320x240), the depth kept. */
  function Scaled(v: Variant, p: Pixel): (q: Pixel)
    ensures q.depth == p.depth
    ensures q.x == 0.0 <==> p.x == 0.0
    ensures q.y == 0.0 <==> p.y == 0.0
  {
    if v == Crim then Pixel(p.x / 480.0 * 128.0, p.y / 320.0 * 128.0, p.depth)
    else Pixel(p.x / 320.0 * 128.0, p.y / 240.0 * 128.0, p.depth)
  }

  /** The rendered image size in pixels: 480x320 for CRIM, 320x240 for i-CLEVR. */
  function ImageWidth(v: Variant): real {
    if v == Crim then 480.0 else 320.0
  }

  function ImageHeight(v: Variant): real {
    if v == Crim then 320.0 else 240.0
  }

  /** A position inside the rendered image lands inside the 128x128 frame, at
      the same fraction of its width and height. */
  lemma ScaledInFrame(v: Variant, p: Pixel)
    requires 0.0 <= p.x <= ImageWidth(v) && 0.0 <= p.y <= ImageHeight(v)
    ensures var q := Scaled(v, p);
      0.0 <= q.x <= 128.0 && 0.0 <= q.y <= 128.0 &&
      q.x * ImageWidth(v) == p.x * 128.0 && q.y * ImageHeight(v) == p.y * 128.0
  {
  }

  /** The slot of one object: the first catalogue position holding its key,
      which must also lie inside the vector. */
  function SlotOf(v: Variant, catalogue: seq<seq<string>>, o: SceneObject): (r: Result<nat, EncodeError>)
    ensures r == Err(UnknownKind(Key(v, o))) <==> Key(v, o) !in catalogue
    ensures r.Ok? ==> r.value < Width(v) && r.value < |catalogue|
    ensures r.Ok? ==> catalogue[r.value] == Key(v, o) && Key(v, o) !in catalogue[..r.value]
    ensures r.Err? && r.error.SlotOutOfRange? ==>
      Width(v) <= r.error.slot < |catalogue| && catalogue[r.error.slot] == Key(v, o) &&
      Key(v, o) !in catalogue[..r.error.slot]
    ensures r.Err? ==> r.error.UnknownKind? || r.error.SlotOutOfRange?
  {
    match IndexOf(catalogue, Key(v, o))
    case None => Err(UnknownKind(Key(v, o)))
    case Some(i) => if i < Width(v) then Ok(i) else Err(SlotOutOfRange(i))
  }

  /** The slots of a scene's objects in order, or the error of the first object
      that has none. */
  function Slots(v: Variant, catalogue: seq<seq<string>>, scene: seq<SceneObject>): (r: Result<seq<nat>, EncodeError>)
    ensures r.Ok? <==> forall t :: 0 <= t < |scene| ==> SlotOf(v, catalogue, scene[t]).Ok?
    ensures r.Ok? ==> |r.value| == |scene|
    ensures r.Ok? ==> forall t :: 0 <= t < |scene| ==> SlotOf(v, catalogue, scene[t]) == Ok(r.value[t])
    decreases |scene|
  {
    if |scene| == 0 then Ok([])
    else
      var front := scene[..|scene| - 1];
      assert forall t :: 0 <= t < |front| ==> front[t] == scene[t];
      match Slots(v, catalogue, front)
      case Err(e) => Err(e)
      case Ok(s) =>
        match SlotOf(v, catalogue, scene[|scene| - 1])
        case Err(e) => Err(e)
        case Ok(i) => Ok(s + [i])
  }

  /** The error of a failing scene is the one of its first object without a slot. */
  lemma {:induction false} FirstFailure(v: Variant, catalogue: seq<seq<string>>, scene: seq<SceneObject>, t: nat)
    requires t < |scene| && SlotOf(v, catalogue, scene[t]).Err?
    requires forall u :: 0 <= u < t ==> SlotOf(v, catalogue, scene[u]).Ok?
    ensures Slots(v, catalogue, scene) == Err(SlotOf(v, catalogue, scene[t]).error)
    decreases |scene|
  {
    var front := scene[..|scene| - 1];
    if t < |scene| - 1 {
      assert front[t] == scene[t];
      assert forall u :: 0 <= u < t ==> front[u] == scene[u];
      FirstFailure(v, catalogue, front, t);
    } else {
      assert forall u :: 0 <= u < |front| ==> front[u] == scene[u];
    }
  }

  /** A scene that fails on a prefix fails with the same error as a whole. */
  lemma {:induction false} FailingPrefix(v: Variant, catalogue: seq<seq<string>>, scene: seq<SceneObject>, n: nat)
    requires n <= |scene| && Slots(v, catalogue, scene[..n]).Err?
    ensures Slots(v, catalogue, scene) == Slots(v, catalogue, scene[..n])
    decreases |scene|
  {
    if n < |scene| {
      var front := scene[..|scene| - 1];
      assert front[..n] == scene[..n];
      FailingPrefix(v, catalogue, front, n);
    } else {
      assert scene[..n] == scene;
    }
  }

  /** The multi-hot entry of slot `k`. */
  function Hot(slots: seq<nat>, k: nat): (b: int)
    ensures b == 1 <==> k in slots
    ensures b == 0 <==> k !in slots
  {
    if k in slots then 1 else 0
  }

  /** The coordinates in slot `k`: those of the last object with that slot, or
      the origin when no object has it. */
  function LastPixel(v: Variant, scene: seq<SceneObject>, slots: seq<nat>, k: nat): (p: Pixel)
    requires |slots| == |scene|
    ensures k !in slots ==> p == ORIGIN
    decreases |scene|
  {
    if |scene| == 0 then ORIGIN
    else if slots[|slots| - 1] == k then Scaled(v, scene[|scene| - 1].pixel)
    else LastPixel(v, scene[..|scene| - 1], slots[..|slots| - 1], k)
  }

  /** Slot `k` holds the position of object `t` when no later object shares it. */
  lemma {:induction false} LastPixelIsLast(v: Variant, scene: seq<SceneObject>, slots: seq<nat>, k: nat, t: nat)
    requires |slots| == |scene| && t < |scene| && slots[t] == k
    requires forall u :: t < u < |slots| ==> slots[u] != k
    ensures LastPixel(v, scene, slots, k) == Scaled(v, scene[t].pixel)
    decreases |scene|
  {
    if t < |scene| - 1 {
      var n := |scene| - 1;
      assert slots[..n][t] == slots[t];
      assert forall u :: t < u < n ==> slots[..n][u] == slots[u];
      LastPixelIsLast(v, scene[..n], slots[..n], k, t);
    }
  }

  /** Slot `k` is hot exactly when some object's key is catalogue entry `k`,
      for a catalogue without repeated entries. */
  lemma HotIffPresent(v: Variant, catalogue: seq<seq<string>>, scene: seq<SceneObject>, k: nat)
    requires Distinct(catalogue) && k < |catalogue|
    requires Slots(v, catalogue, scene).Ok?
    ensures Hot(Slots(v, catalogue, scene).value, k) == 1 <==>
      exists t :: 0 <= t < |scene| && Key(v, scene[t]) == catalogue[k]
  {
    var slots := Slots(v, catalogue, scene).value;
    if k in slots {
      var t :| 0 <= t < |slots| && slots[t] == k;
      assert SlotOf(v, catalogue, scene[t]).value == k;
    }
    if t :| 0 <= t < |scene| && Key(v, scene[t]) == catalogue[k] {
      var i := slots[t];
      assert SlotOf(v, catalogue, scene[t]).Ok?;
      assert catalogue[i] == catalogue[k];
      assert i == k;
    }
  }

  /** `new_row[:] = a` into row `row` of a matrix; the other rows are unchanged. */
  method CopyRow<T>(m: array2<T>, row: nat, a: array<T>)
    requires row < m.Length0 && a.Length == m.Length1
    modifies m
    ensures forall j :: 0 <= j < m.Length1 ==> m[row, j] == a[j]
    ensures forall i, j :: 0 <= i < m.Length0 && 0 <= j < m.Length1 && i != row ==> m[i, j] == old(m[i, j])
  {
    for j := 0 to a.Length
      invariant forall i, j' :: 0 <= i < m.Length0 && 0 <= j' < m.Length1 ==>
        m[i, j'] == (if i == row && j' < j then a[j'] else old(m[i, j']))
    {
      m[row, j] := a[j];
    }
  }

  /** One more object with a slot extends the slots and overwrites one
      coordinate slot. */
  lemma ExtendScene(v: Variant, catalogue: seq<seq<string>>, scene: seq<SceneObject>, t: nat, slots: seq<nat>, i: nat)
    requires t < |scene| && Slots(v, catalogue, scene[..t]) == Ok(slots)
    requires SlotOf(v, catalogue, scene[t]) == Ok(i)
    ensures Slots(v, catalogue, scene[..t + 1]) == Ok(slots + [i])
    ensures forall k :: Hot(slots + [i], k) == if k == i then 1 else Hot(slots, k)
    ensures forall k :: (LastPixel(v, scene[..t + 1], slots + [i], k) ==
                         if k == i then Scaled(v, scene[t].pixel) else LastPixel(v, scene[..t], slots, k))
  {
    assert |slots| == t;
    var scene', slots' := scene[..t + 1], slots + [i];
    assert scene'[..|scene'| - 1] == scene[..t];
    assert slots'[..|slots'| - 1] == slots;
    assert slots'[|slots'| - 1] == i && scene'[|scene'| - 1] == scene[t];
    forall k
      ensures LastPixel(v, scene', slots', k) ==
              if k == i then Scaled(v, scene[t].pixel) else LastPixel(v, scene[..t], slots, k)
    {
    }
  }

  /** An object without a slot stops the scene with its error. */
  lemma StopScene(v: Variant, catalogue: seq<seq<string>>, scene: seq<SceneObject>, t: nat, slots: seq<nat>)
    requires t < |scene| && Slots(v, catalogue, scene[..t]) == Ok(slots)
    requires SlotOf(v, catalogue, scene[t]).Err?
    ensures Slots(v, catalogue, scene) == Err(SlotOf(v, catalogue, scene[t]).error)
  {
    assert scene[..t + 1][..t] == scene[..t];
    FailingPrefix(v, catalogue, scene, t + 1);
  }

  /** One scene into a fresh multi-hot vector and coordinate vector, object by
      object: the slot of the object is looked up, set to 1, and given the
      object's rescaled position. */
  method EncodeScene(v: Variant, catalogue: seq<seq<string>>, scene: seq<SceneObject>)
    returns (err: Option<EncodeError>, hot: array<int>, coords: array<Pixel>)
    ensures hot.Length == Width(v) && coords.Length == Width(v)
    ensures err.None? <==> Slots(v, catalogue, scene).Ok?
    ensures err.Some? ==> err.value == Slots(v, catalogue, scene).error
    ensures err.None? ==> forall k :: 0 <= k < Width(v) ==>
      hot[k] == Hot(Slots(v, catalogue, scene).value, k) &&
      coords[k] == LastPixel(v, scene, Slots(v, catalogue, scene).value, k)
  {
    hot := new int[Width(v)](_ => 0);
    coords := new Pixel[Width(v)](_ => ORIGIN);
    ghost var slots: seq<nat> := [];
    assert scene[..0] == [];
    for t := 0 to |scene|
      invariant Slots(v, catalogue, scene[..t]) == Ok(slots)
      invariant Encoded(v, scene[..t], slots, hot[..], coords[..])
    {
      var found := IndexOf(catalogue, Key(v, scene[t]));
      if found.None? {
        assert SlotOf(v, catalogue, scene[t]) == Err(UnknownKind(Key(v, scene[t])));
        StopScene(v, catalogue, scene, t, slots);
        return Some(UnknownKind(Key(v, scene[t]))), hot, coords;
      }
      var i := found.value;
      if i >= hot.Length {
        assert SlotOf(v, catalogue, scene[t]) == Err(SlotOutOfRange(i));
        StopScene(v, catalogue, scene, t, slots);
        return Some(SlotOutOfRange(i)), hot, coords;
      }
      assert SlotOf(v, catalogue, scene[t]) == Ok(i);
      EncodedStep(v, catalogue, scene, t, slots, i, hot[..], coords[..]);
      hot[i] := 1;
      coords[i] := Scaled(v, scene[t].pixel);
      slots := slots + [i];
    }
    assert scene[..|scene|] == scene;
    return None, hot, coords;
  }

  /** The vectors `EncodeScene` has filled after the objects of `scene`, whose
      slots are `slots`. */
  ghost predicate Encoded(v: Variant, scene: seq<SceneObject>, slots: seq<nat>, hot: seq<int>, coords: seq<Pixel>) {
    && |slots| == |scene| && |hot| == Width(v) && |coords| == Width(v)
    && (forall k :: 0 <= k < |hot| ==> hot[k] == Hot(slots, k))
    && (forall k :: 0 <= k < |coords| ==> coords[k] == LastPixel(v, scene, slots, k))
  }

  /** Setting slot `i` of an object with slot `i` keeps the vectors filled. */
  lemma EncodedStep(v: Variant, catalogue: seq<seq<string>>, scene: seq<SceneObject>, t: nat, slots: seq<nat>, i: nat,
                    hot: seq<int>, coords: seq<Pixel>)
    requires t < |scene| && Slots(v, catalogue, scene[..t]) == Ok(slots)
    requires SlotOf(v, catalogue, scene[t]) == Ok(i)
    requires Encoded(v, scene[..t], slots, hot, coords) && i < |hot|
    ensures Slots(v, catalogue, scene[..t + 1]) == Ok(slots + [i])
    ensures Encoded(v, scene[..t + 1], slots + [i], hot[i := 1], coords[i := Scaled(v, scene[t].pixel)])
  {
    ExtendScene(v, catalogue, scene, t, slots, i);
  }

  // ---------------------------------------------------------------------------
  // CRIM: two scenes into two rows

  /** One scene block of the CRIM script: the scene is encoded into fresh
      vectors, which are then copied into row `objRow` of the multi-hot matrix
      and row `coordRow` of the coordinate matrix; no other row changes. */
  method StoreScene(catalogue: seq<seq<string>>, scene: seq<SceneObject>,
                    objects: array2<int>, objRow: nat, coords: array2<Pixel>, coordRow: nat)
    returns (err: Option<EncodeError>)
    requires objRow < objects.Length0 && objects.Length1 == 48
    requires coordRow < coords.Length0 && coords.Length1 == 48
    modifies objects, coords
    ensures err.None? <==> Slots(Crim, catalogue, scene).Ok?
    ensures err.Some? ==> err.value == Slots(Crim, catalogue, scene).error
    ensures err.None? ==> forall k :: 0 <= k < 48 ==>
      objects[objRow, k] == Hot(Slots(Crim, catalogue, scene).value, k) &&
      coords[coordRow, k] == LastPixel(Crim, scene, Slots(Crim, catalogue, scene).value, k)
    ensures forall i, k :: 0 <= i < objects.Length0 && i != objRow && 0 <= k < 48 ==> objects[i, k] == old(objects[i, k])
    ensures forall i, k :: 0 <= i < coords.Length0 && i != coordRow && 0 <= k < 48 ==> coords[i, k] == old(coords[i, k])
  {
    var hot, vec;
    err, hot, vec := EncodeScene(Crim, catalogue, scene);
    if err.Some? {
      return;
    }
    CopyRow(coords, coordRow, vec);
    CopyRow(objects, objRow, hot);
  }

  /** One CRIM command: scene 1 and scene 2 into a 2x48 multi-hot matrix and a
      2x48 coordinate matrix. As written, the coordinates of scene 1 are put in
      row 1 and then overwritten by those of scene 2, so row 0 keeps the origin. */
  method EncodeCrimPair(catalogue: seq<seq<string>>, scene1: seq<SceneObject>, scene2: seq<SceneObject>)
    returns (err: Option<EncodeError>, objects: array2<int>, coords: array2<Pixel>)
    ensures objects.Length0 == 2 && objects.Length1 == 48 && coords.Length0 == 2 && coords.Length1 == 48
    ensures err.None? <==> Slots(Crim, catalogue, scene1).Ok? && Slots(Crim, catalogue, scene2).Ok?
    ensures err.Some? ==> err.value ==
                          (if Slots(Crim, catalogue, scene1).Err? then Slots(Crim, catalogue, scene1).error
                           else Slots(Crim, catalogue, scene2).error)
    ensures err.None? ==> forall k :: 0 <= k < 48 ==>
      objects[0, k] == Hot(Slots(Crim, catalogue, scene1).value, k) &&
      objects[1, k] == Hot(Slots(Crim, catalogue, scene2).value, k) &&
      coords[0, k] == ORIGIN &&
      coords[1, k] == LastPixel(Crim, scene2, Slots(Crim, catalogue, scene2).value, k)
  {
    objects := new int[2, 48]((_, _) => 0);
    coords := new Pixel[2, 48]((_, _) => ORIGIN);
    err := StoreScene(catalogue, scene1, objects, 0, coords, 1);
    if err.Some? {
      return;
    }
    err := StoreScene(catalogue, scene2, objects, 1, coords, 1);
  }

  /** The same with the coordinates of scene 1 in row 0, beside its multi-hot row. */
  method EncodeCrimPairIntended(catalogue: seq<seq<string>>, scene1: seq<SceneObject>, scene2: seq<SceneObject>)
    returns (err: Option<EncodeError>, objects: array2<int>, coords: array2<Pixel>)
    ensures objects.Length0 == 2 && objects.Length1 == 48 && coords.Length0 == 2 && coords.Length1 == 48
    ensures err.None? <==> Slots(Crim, catalogue, scene1).Ok? && Slots(Crim, catalogue, scene2).Ok?
    ensures err.Some? ==> err.value ==
                          (if Slots(Crim, catalogue, scene1).Err? then Slots(Crim, catalogue, scene1).error
                           else Slots(Crim, catalogue, scene2).error)
    ensures err.None? ==> forall k :: 0 <= k < 48 ==>
      objects[0, k] == Hot(Slots(Crim, catalogue, scene1).value, k) &&
      objects[1, k] == Hot(Slots(Crim, catalogue, scene2).value, k) &&
      coords[0, k] == LastPixel(Crim, scene1, Slots(Crim, catalogue, scene1).value, k) &&
      coords[1, k] == LastPixel(Crim, scene2, Slots(Crim, catalogue, scene2).value, k)
  {
    objects := new int[2, 48]((_, _) => 0);
    coords := new Pixel[2, 48]((_, _) => ORIGIN);
    err := StoreScene(catalogue, scene1, objects, 0, coords, 0);
    if err.Some? {
      return;
    }
    err := StoreScene(catalogue, scene2, objects, 1, coords, 1);
  }

  /** What row 0 loses: when the last object of scene 1 is not at x = 0, its
      slot holds coordinates other than the origin, which row 0 never shows. */
  lemma SceneOneCoordinatesLost(catalogue: seq<seq<string>>, scene1: seq<SceneObject>)
    requires Slots(Crim, catalogue, scene1).Ok?
    requires |scene1| > 0 && scene1[|scene1| - 1].pixel.x != 0.0
    ensures var slots := Slots(Crim, catalogue, scene1).value;
      exists k :: 0 <= k < 48 && LastPixel(Crim, scene1, slots, k) != ORIGIN
  {
    var slots := Slots(Crim, catalogue, scene1).value;
    var k := slots[|slots| - 1];
    assert SlotOf(Crim, catalogue, scene1[|scene1| - 1]).value == k;
    assert LastPixel(Crim, scene1, slots, k).x != 0.0;
  }

  // ---------------------------------------------------------------------------
  // i-CLEVR: one row per object, stacked

  /** `np.stack(rows)` for rows of width `w`: row `r` of the result holds the
      contents of `rows[r]` at stacking time. */
  method Stack<T>(rows: seq<array<T>>, w: nat, fill: T) returns (m: array2<T>)
    requires forall r :: 0 <= r < |rows| ==> rows[r].Length == w
    ensures m.Length0 == |rows| && m.Length1 == w
    ensures forall r, k :: 0 <= r < |rows| && 0 <= k < w ==> m[r, k] == rows[r][k]
  {
    m := new T[|rows|, w]((_, _) => fill);
    for r := 0 to |rows|
      invariant forall r', k :: 0 <= r' < r && 0 <= k < w ==> m[r', k] == rows[r'][k]
    {
      CopyRow(m, r, rows[r]);
    }
  }

  /** `n` references to the same object, as `list.append(x)` repeated `n` times leaves them. */
  function Copies<T>(x: T, n: nat): (r: seq<T>)
    ensures |r| == n && forall j :: 0 <= j < n ==> r[j] == x
  {
    seq(n, _ => x)
  }

  lemma CopiesStep<T>(x: T, n: nat)
    ensures Copies(x, n) + [x] == Copies(x, n + 1)
  {
  }

  /** The object loop of the i-CLEVR script: after each object, the one
      multi-hot array and the one coordinate array are appended to two lists,
      so every entry of each list is that same array. */
  method CollectRows(catalogue: seq<seq<string>>, scene: seq<SceneObject>)
    returns (err: Option<EncodeError>, agg: array<int>, aggCoords: array<Pixel>,
             rows: seq<array<int>>, coordRows: seq<array<Pixel>>)
    ensures agg.Length == 24 && aggCoords.Length == 24
    ensures err.None? <==> Slots(Iclevr, catalogue, scene).Ok?
    ensures err.Some? ==> err.value == Slots(Iclevr, catalogue, scene).error
    ensures err.None? ==> |rows| == |scene| && forall r :: 0 <= r < |rows| ==> rows[r] == agg
    ensures err.None? ==> |coordRows| == |scene| && forall r :: 0 <= r < |coordRows| ==> coordRows[r] == aggCoords
    ensures err.None? ==> forall k :: 0 <= k < 24 ==>
      agg[k] == Hot(Slots(Iclevr, catalogue, scene).value, k) &&
      aggCoords[k] == LastPixel(Iclevr, scene, Slots(Iclevr, catalogue, scene).value, k)
  {
    agg := new int[24](_ => 0);
    aggCoords := new Pixel[24](_ => ORIGIN);
    rows, coordRows := [], [];
    ghost var slots: seq<nat> := [];
    assert scene[..0] == [];
    for t := 0 to |scene|
      invariant Slots(Iclevr, catalogue, scene[..t]) == Ok(slots)
      invariant Encoded(Iclevr, scene[..t], slots, agg[..], aggCoords[..])
      invariant rows == Copies(agg, t) && coordRows == Copies(aggCoords, t)
    {
      var found := IndexOf(catalogue, Key(Iclevr, scene[t]));
      if found.None? {
        assert SlotOf(Iclevr, catalogue, scene[t]) == Err(UnknownKind(Key(Iclevr, scene[t])));
        StopScene(Iclevr, catalogue, scene, t, slots);
        return Some(UnknownKind(Key(Iclevr, scene[t]))), agg, aggCoords, rows, coordRows;
      }
      var i := found.value;
      if i >= agg.Length {
        assert SlotOf(Iclevr, catalogue, scene[t]) == Err(SlotOutOfRange(i));
        StopScene(Iclevr, catalogue, scene, t, slots);
        return Some(SlotOutOfRange(i)), agg, aggCoords, rows, coordRows;
      }
      assert SlotOf(Iclevr, catalogue, scene[t]) == Ok(i);
      EncodedStep(Iclevr, catalogue, scene, t, slots, i, agg[..], aggCoords[..]);
      agg[i] := 1;
      CopiesStep(agg, t);
      rows := rows + [agg];
      aggCoords[i] := Scaled(Iclevr, scene[t].pixel);
      CopiesStep(aggCoords, t);
      coordRows := coordRows + [aggCoords];
      slots := slots + [i];
    }
    assert scene[..|scene|] == scene;
    err := None;
  }

  /** One i-CLEVR scene: the collected lists are stacked. Since both lists hold
      one array many times, every row of the result equals the vectors of the
      whole scene. An empty scene leaves nothing to stack. */
  method EncodeIclevrScene(catalogue: seq<seq<string>>, scene: seq<SceneObject>)
    returns (err: Option<EncodeError>, objects: array2<int>, coords: array2<Pixel>)
    ensures err.None? <==> Slots(Iclevr, catalogue, scene).Ok? && |scene| > 0
    ensures err.Some? ==> err.value ==
                          (if Slots(Iclevr, catalogue, scene).Err? then Slots(Iclevr, catalogue, scene).error
                           else NothingToStack)
    ensures err.None? ==> objects.Length0 == |scene| && objects.Length1 == 24
    ensures err.None? ==> coords.Length0 == |scene| && coords.Length1 == 24
    ensures err.None? ==> forall t, k :: 0 <= t < |scene| && 0 <= k < 24 ==>
      objects[t, k] == Hot(Slots(Iclevr, catalogue, scene).value, k) &&
      coords[t, k] == LastPixel(Iclevr, scene, Slots(Iclevr, catalogue, scene).value, k)
  {
    objects := new int[0, 0];
    coords := new Pixel[0, 0];
    var agg, aggCoords, rows, coordRows;
    err, agg, aggCoords, rows, coordRows := CollectRows(catalogue, scene);
    if err.Some? {
      return;
    }
    if |rows| == 0 {
      return Some(NothingToStack), objects, coords;
    }
    objects := Stack(rows, 24, 0);
    coords := Stack(coordRows, 24, ORIGIN);
  }

  /** `np.stack` over rows held as values (the copies taken by `agg.copy()`). */
  method StackCopies<T>(rows: seq<seq<T>>, w: nat) returns (m: array2<T>)
    requires forall r :: 0 <= r < |rows| ==> |rows[r]| == w
    ensures m.Length0 == |rows| && m.Length1 == w
    ensures forall r, k :: 0 <= r < |rows| && 0 <= k < w ==> m[r, k] == rows[r][k]
  {
    m := new T[|rows|, w]((r, k) requires 0 <= r < |rows| && 0 <= k < w => rows[r][k]);
  }

  /** Appending to a list keeps its prefixes. */
  lemma PrefixesKept(slots: seq<nat>, i: nat)
    ensures forall r :: 0 <= r <= |slots| ==> (slots + [i])[..r] == slots[..r]
  {
  }

  /** Row `r` of `hotRows` is the multi-hot vector of the first `r + 1` slots. */
  ghost predicate HotRows(slots: seq<nat>, hotRows: seq<seq<int>>)
  {
    |hotRows| == |slots| &&
    forall r :: 0 <= r < |slots| ==>
      |hotRows[r]| == 24 && forall k :: 0 <= k < 24 ==> hotRows[r][k] == Hot(slots[..r + 1], k)
  }

  /** Row `r` of `pixelRows` holds the coordinates of the first `r + 1` objects. */
  ghost predicate PixelRows(scene: seq<SceneObject>, slots: seq<nat>, pixelRows: seq<seq<Pixel>>)
  {
    |pixelRows| == |slots| <= |scene| &&
    forall r :: 0 <= r < |slots| ==>
      |pixelRows[r]| == 24 &&
      forall k :: 0 <= k < 24 ==> pixelRows[r][k] == LastPixel(Iclevr, scene[..r + 1], slots[..r + 1], k)
  }

  /** Appending the vector of all the slots keeps `HotRows`. */
  lemma HotRowsStep(slots: seq<nat>, i: nat, hotRows: seq<seq<int>>, row: seq<int>)
    requires HotRows(slots, hotRows) && |row| == 24
    requires forall k :: 0 <= k < 24 ==> row[k] == Hot(slots + [i], k)
    ensures HotRows(slots + [i], hotRows + [row])
  {
    assert (slots + [i])[..|slots| + 1] == slots + [i];
    PrefixesKept(slots, i);
  }

  /** Appending the coordinates of the first `t + 1` objects keeps `PixelRows`. */
  lemma PixelRowsStep(scene: seq<SceneObject>, t: nat, slots: seq<nat>, i: nat,
                      pixelRows: seq<seq<Pixel>>, row: seq<Pixel>)
    requires t < |scene| && |slots| == t && |row| == 24
    requires PixelRows(scene, slots, pixelRows)
    requires forall k :: 0 <= k < 24 ==> row[k] == LastPixel(Iclevr, scene[..t + 1], slots + [i], k)
    ensures PixelRows(scene, slots + [i], pixelRows + [row])
  {
    assert (slots + [i])[..t + 1] == slots + [i];
    PrefixesKept(slots, i);
  }

  /** The object loop with `agg.copy()` appended after each object: entry `r`
      of each list holds the vectors of the first `r + 1` objects. */
  method CollectSnapshots(catalogue: seq<seq<string>>, scene: seq<SceneObject>)
    returns (err: Option<EncodeError>, rows: seq<seq<int>>, coordRows: seq<seq<Pixel>>)
    ensures err.None? <==> Slots(Iclevr, catalogue, scene).Ok?
    ensures err.Some? ==> err.value == Slots(Iclevr, catalogue, scene).error
    ensures err.None? ==> |rows| == |scene| && |coordRows| == |scene|
    ensures err.None? ==> forall r :: 0 <= r < |scene| ==> |rows[r]| == 24 && |coordRows[r]| == 24
    ensures err.None? ==> forall r, k :: 0 <= r < |scene| && 0 <= k < 24 ==>
      rows[r][k] == Hot(Slots(Iclevr, catalogue, scene).value[..r + 1], k)
    ensures err.None? ==> forall r, k :: 0 <= r < |scene| && 0 <= k < 24 ==>
      coordRows[r][k] == LastPixel(Iclevr, scene[..r + 1], Slots(Iclevr, catalogue, scene).value[..r + 1], k)
  {
    var agg := new int[24](_ => 0);
    var aggCoords := new Pixel[24](_ => ORIGIN);
    rows, coordRows := [], [];
    ghost var slots: seq<nat> := [];
    assert scene[..0] == [];
    for t := 0 to |scene|
      invariant Slots(Iclevr, catalogue, scene[..t]) == Ok(slots)
      invariant Encoded(Iclevr, scene[..t], slots, agg[..], aggCoords[..])
      invariant HotRows(slots, rows) && PixelRows(scene, slots, coordRows)
    {
      var found := IndexOf(catalogue, Key(Iclevr, scene[t]));
      if found.None? {
        assert SlotOf(Iclevr, catalogue, scene[t]) == Err(UnknownKind(Key(Iclevr, scene[t])));
        StopScene(Iclevr, catalogue, scene, t, slots);
        return Some(UnknownKind(Key(Iclevr, scene[t]))), rows, coordRows;
      }
      var i := found.value;
      if i >= agg.Length {
        assert SlotOf(Iclevr, catalogue, scene[t]) == Err(SlotOutOfRange(i));
        StopScene(Iclevr, catalogue, scene, t, slots);
        return Some(SlotOutOfRange(i)), rows, coordRows;
      }
      assert SlotOf(Iclevr, catalogue, scene[t]) == Ok(i);
      EncodedStep(Iclevr, catalogue, scene, t, slots, i, agg[..], aggCoords[..]);
      agg[i] := 1;
      HotRowsStep(slots, i, rows, agg[..]);
      rows := rows + [agg[..]];
      aggCoords[i] := Scaled(Iclevr, scene[t].pixel);
      PixelRowsStep(scene, t, slots, i, coordRows, aggCoords[..]);
      coordRows := coordRows + [aggCoords[..]];
      slots := slots + [i];
    }
    assert scene[..|scene|] == scene;
    err := None;
  }

  /** One i-CLEVR scene with a copy of the vectors taken after each object:
      row `t` of the result is the multi-hot vector and the coordinates of the
      first `t + 1` objects. */
  method EncodeIclevrSceneSnapshots(catalogue: seq<seq<string>>, scene: seq<SceneObject>)
    returns (err: Option<EncodeError>, objects: array2<int>, coords: array2<Pixel>)
    ensures err.None? <==> Slots(Iclevr, catalogue, scene).Ok? && |scene| > 0
    ensures err.Some? ==> err.value ==
                          (if Slots(Iclevr, catalogue, scene).Err? then Slots(Iclevr, catalogue, scene).error
                           else NothingToStack)
    ensures err.None? ==> objects.Length0 == |scene| && objects.Length1 == 24
    ensures err.None? ==> coords.Length0 == |scene| && coords.Length1 == 24
    ensures err.None? ==> forall t, k :: 0 <= t < |scene| && 0 <= k < 24 ==>
      objects[t, k] == Hot(Slots(Iclevr, catalogue, scene).value[..t + 1], k)
    ensures err.None? ==> forall t, k :: 0 <= t < |scene| && 0 <= k < 24 ==>
      coords[t, k] == LastPixel(Iclevr, scene[..t + 1], Slots(Iclevr, catalogue, scene).value[..t + 1], k)
  {
    objects := new int[0, 0];
    coords := new Pixel[0, 0];
    var rows, coordRows;
    err, rows, coordRows := CollectSnapshots(catalogue, scene);
    if err.Some? {
      return;
    }
    if |rows| == 0 {
      return Some(NothingToStack), objects, coords;
    }
    objects := StackCopies(rows, 24);
    coords := StackCopies(coordRows, 24);
  }

  /** Where the two i-CLEVR encoders part: when the second object has another
      kind than the first, row 0 as written already marks the second object's
      slot, while the snapshot row 0 marks the first object's slot only. */
  lemma FirstRowSeesLaterObjects(catalogue: seq<seq<string>>, scene: seq<SceneObject>)
    requires Slots(Iclevr, catalogue, scene).Ok? && |scene| >= 2
    requires Key(Iclevr, scene[1]) != Key(Iclevr, scene[0])
    ensures var slots := Slots(Iclevr, catalogue, scene).value;
      Hot(slots, slots[1]) == 1 && Hot(slots[..1], slots[1]) == 0
  {
    var slots := Slots(Iclevr, catalogue, scene).value;
    assert catalogue[slots[0]] == Key(Iclevr, scene[0]);
    assert catalogue[slots[1]] == Key(Iclevr, scene[1]);
    assert slots[..1] == [slots[0]];
  }

  // ---------------------------------------------------------------------------
  // The catalogue written by `create_vocab`

  /** For a product of 3 shapes, 8 colours and 2 materials without repeats, the
      object of kind (s, c, m) has slot 16s + 2c + m. */
  lemma SlotInProduct(xs: seq<string>, ys: seq<string>, zs: seq<string>, o: SceneObject, s: nat, c: nat, m: nat)
    requires |xs| == 3 && |ys| == 8 && |zs| == 2
    requires Distinct(xs) && Distinct(ys) && Distinct(zs)
    requires s < 3 && c < 8 && m < 2
    requires o.shape == xs[s] && o.color == ys[c] && o.material == zs[m]
    ensures SlotOf(Crim, Catalogue.Product3(xs, ys, zs), o) == Ok(16 * s + 2 * c + m)
  {
    var p := Catalogue.Product3(xs, ys, zs);
    Catalogue.ProductLayout382(xs, ys, zs, s, c, m);
    Catalogue.ProductDistinct(xs, ys, zs);
    assert p[16 * s + 2 * c + m] == Key(Crim, o);
    IndexOfDistinct(p, 16 * s + 2 * c + m);
  }

  /** Read back from the catalogue file, the CRIM key of shape `s`, colour `c`
      and material `m` has slot 16s + 2c + m. */
  lemma CrimSlotOfKind(o: SceneObject, s: nat, c: nat, m: nat)
    requires s < 3 && c < 8 && m < 2
    requires o.shape == Catalogue.SHAPES[s] && o.color == Catalogue.COLORS[c] && o.material == Catalogue.MATERIALS[m]
    ensures SlotOf(Crim, Catalogue.ParseCatalogue(Catalogue.WrittenLines(Catalogue.CreateVocab())), o) == Ok(16 * s + 2 * c + m)
  {
    Catalogue.CatalogueRoundTrip();
    Catalogue.ConstantsAreWords();
    SlotInProduct(Catalogue.SHAPES, Catalogue.COLORS, Catalogue.MATERIALS, o, s, c, m);
  }

  /** A two-field key is never an entry of a product of three lists. */
  lemma PairKeyNotInProduct(xs: seq<string>, ys: seq<string>, zs: seq<string>, o: SceneObject)
    ensures SlotOf(Iclevr, Catalogue.Product3(xs, ys, zs), o) == Err(UnknownKind(Key(Iclevr, o)))
  {
    if Key(Iclevr, o) in Catalogue.Product3(xs, ys, zs) {
      Catalogue.ProductMembers(xs, ys, zs, Key(Iclevr, o));
      assert false;
    }
  }

  /** If the i-CLEVR script is given the CRIM catalogue file, its first object
      always raises: no i-CLEVR scene can be encoded against it. */
  lemma IclevrNeverEncodes(scene: seq<SceneObject>)
    requires |scene| > 0
    ensures Slots(Iclevr, Catalogue.ParseCatalogue(Catalogue.WrittenLines(Catalogue.CreateVocab())), scene)
            == Err(UnknownKind(Key(Iclevr, scene[0])))
  {
    Catalogue.CatalogueRoundTrip();
    var catalogue := Catalogue.Product3(Catalogue.SHAPES, Catalogue.COLORS, Catalogue.MATERIALS);
    PairKeyNotInProduct(Catalogue.SHAPES, Catalogue.COLORS, Catalogue.MATERIALS, scene[0]);
    FirstFailure(Iclevr, catalogue, scene, 0);
  }
}
