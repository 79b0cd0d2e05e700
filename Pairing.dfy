/**
 * The pairing step of `create_h5`: the command lookup built from the question
 * records, and the two-pointer scan that attaches every "after" image
 * (`images_c1`) to the "before" image (`images`) whose stem it contains.
 * Both listings are taken as given (sorted) sequences of file names.
 *
 * The CRIM script guards the scan with a bounds test; the i-CLEVR copy does not,
 * and compares a count with a list afterwards, so it always stops with an error.
 */
module Pairing {
  import opened PyStr

  /** One entry of the question file: `image_output_filename` and `question`. */
  datatype Question = Question(imageOutputFilename: string, question: string)

  /** One element of `command_data`. */
  datatype Record = Record(im1: string, im2: string, scene1: string, scene2: string, command: string)

  /** The exceptions that can stop `create_h5` during pairing. */
  datatype ScanError =
    | ImagesScenesMismatch                   // assert len(images) == len(scenes)
    | ChangedScenesMismatch                  // assert len(images_c1) == len(scenes_c1)
    | MissingCommand(name: string)           // KeyError from im2comm[changed_image]
    | CountMismatch(paired: nat, changed: nat) // assert len(command_data) == len(images_c1)
    | ChangedIndexOutOfRange                 // IndexError from images_c1[images_c1_counter]
    | CountComparedWithList                  // assert len(command_data) == images_c1 (i-CLEVR)

  // ---------------------------------------------------------------------------
  // im2comm

  /** No later question names the same image as question `j`. */
  predicate IsLastFor(questions: seq<Question>, j: nat)
    requires j < |questions|
  {
    forall l :: j < l < |questions| ==> questions[l].imageOutputFilename != questions[j].imageOutputFilename
  }

  /**
   * The dictionary from output file name to question: the keys are the
   * named images, and later entries overwrite earlier ones, so each image maps to the
   * question of the last entry naming it.
   */
  function CommandMap(questions: seq<Question>): (m: map<string, string>)
    ensures forall name :: name in m <==> exists q :: q in questions && q.imageOutputFilename == name
    ensures forall j :: 0 <= j < |questions| && IsLastFor(questions, j) ==>
      questions[j].imageOutputFilename in m && m[questions[j].imageOutputFilename] == questions[j].question
  {
    if |questions| == 0 then map[]
    else
      var init := questions[..|questions| - 1];
      var last := questions[|questions| - 1];
      var m := CommandMap(init)[last.imageOutputFilename := last.question];
      assert questions == init + [last];
      forall j | 0 <= j < |questions| - 1 && IsLastFor(questions, j)
        ensures questions[j].imageOutputFilename in m && m[questions[j].imageOutputFilename] == questions[j].question
      {
        assert questions[j] == init[j];
        assert IsLastFor(init, j);
      }
      m
  }

  // ---------------------------------------------------------------------------
  // The greedy scan, stated declaratively

  /** `img.split('.')[0]`, e.g. CLEVR_new_000041 for CLEVR_new_000041.png. */
  function Stem(image: string): (r: string)
    ensures '.' !in r && r <= image
    ensures |r| < |image| ==> image[|r|] == '.'
  {
    BeforeFirst(image, '.')
  }

  /** The scan's test `image_name in images_c1[k]` for base image `i`. */
  predicate Attaches(images: seq<string>, changed: seq<string>, i: nat, k: nat)
    requires i < |images| && k < |changed|
  {
    IsSubstring(Stem(images[i]), changed[k])
  }

  /** `lo <= hi`, and no base image in `[lo, hi)` has its stem in changed image `j`. */
  ghost predicate Gap(images: seq<string>, changed: seq<string>, lo: nat, hi: nat, j: nat)
    requires hi <= |images| && j < |changed|
  {
    lo <= hi && forall i :: lo <= i < hi ==> !Attaches(images, changed, i, j)
  }

  /** The base image the scan is positioned at once changed images `0..|owners|` are attached. */
  function Start(owners: seq<nat>): nat
  {
    if |owners| == 0 then 0 else owners[|owners| - 1]
  }

  /**
   * `owners[j]` is the base image changed image `j` is attached to: each is the
   * first base image, from the previous owner on, whose stem occurs in changed
   * image `j`, so owners never go backwards.
   */
  ghost predicate GreedyPrefix(images: seq<string>, changed: seq<string>, owners: seq<nat>)
  {
    && |owners| <= |changed|
    && (forall j :: 0 <= j < |owners| ==> owners[j] < |images| && Attaches(images, changed, owners[j], j))
    && (|owners| > 0 ==> Gap(images, changed, 0, owners[0], 0))
    && (forall j :: 0 < j < |owners| ==> Gap(images, changed, owners[j - 1], owners[j], j))
  }

  /** The scan stops: every changed image is taken, or no remaining base image takes the next one. */
  ghost predicate Stopped(images: seq<string>, changed: seq<string>, owners: seq<nat>)
  {
    && |owners| <= |changed|
    && Start(owners) <= |images|
    && (|owners| == |changed| || Gap(images, changed, Start(owners), |images|, |owners|))
  }

  /** The loop state while base image `i` is being examined. */
  ghost predicate Scanning(images: seq<string>, changed: seq<string>, owners: seq<nat>, i: nat)
  {
    && GreedyPrefix(images, changed, owners)
    && Start(owners) <= i <= |images|
    && (|owners| < |changed| ==> Gap(images, changed, Start(owners), i, |owners|))
  }

  /** The records the scan emits for the attachment `owners`. */
  ghost predicate RecordsFor(images: seq<string>, changed: seq<string>, scenes: seq<string>, changedScenes: seq<string>,
                             commands: map<string, string>, owners: seq<nat>, records: seq<Record>)
  {
    && |records| == |owners| <= |changed| <= |changedScenes|
    && |images| <= |scenes|
    && (forall j :: 0 <= j < |owners| ==> owners[j] < |images| && changed[j] in commands)
    && (forall j :: 0 <= j < |owners| ==>
          records[j] == Record(images[owners[j]], changed[j], scenes[owners[j]], changedScenes[j], commands[changed[j]]))
  }

  /** Attaching changed image `|owners|` to base image `i` keeps the attachment greedy. */
  lemma Attach(images: seq<string>, changed: seq<string>, owners: seq<nat>, i: nat)
    requires Scanning(images, changed, owners, i) && i < |images|
    requires |owners| < |changed| && Attaches(images, changed, i, |owners|)
    ensures Scanning(images, changed, owners + [i], i)
  {
    var o := owners + [i];
    assert forall j :: 0 <= j < |owners| ==> o[j] == owners[j];
  }

  /** Emitting the record for changed image `|owners|` attached to base image `i`. */
  lemma Emit(images: seq<string>, changed: seq<string>, scenes: seq<string>, changedScenes: seq<string>,
             commands: map<string, string>, owners: seq<nat>, records: seq<Record>, i: nat)
    requires RecordsFor(images, changed, scenes, changedScenes, commands, owners, records)
    requires i < |images| && |owners| < |changed| && changed[|owners|] in commands
    ensures RecordsFor(images, changed, scenes, changedScenes, commands, owners + [i],
                       records + [Record(images[i], changed[|owners|], scenes[i], changedScenes[|owners|], commands[changed[|owners|]])])
  {
  }

  /** Moving past base image `i` when it does not take changed image `|owners|`. */
  lemma Advance(images: seq<string>, changed: seq<string>, owners: seq<nat>, i: nat)
    requires Scanning(images, changed, owners, i) && i < |images|
    requires |owners| < |changed| ==> !Attaches(images, changed, i, |owners|)
    ensures Scanning(images, changed, owners, i + 1)
  {
  }

  /** A greedy owner is the first base image, from the previous owner on, that takes its changed image. */
  lemma FirstAttach(images: seq<string>, changed: seq<string>, owners: seq<nat>, j: nat, i: nat)
    requires GreedyPrefix(images, changed, owners)
    requires j < |owners| && (j == 0 || owners[j - 1] <= i) && i < |images|
    requires Attaches(images, changed, i, j)
    ensures owners[j] <= i
  {
    assert j == 0 ==> Gap(images, changed, 0, owners[0], 0);
    assert j > 0 ==> Gap(images, changed, owners[j - 1], owners[j], j);
  }

  lemma {:induction false} GreedyAgree(images: seq<string>, changed: seq<string>, o1: seq<nat>, o2: seq<nat>, n: nat)
    requires GreedyPrefix(images, changed, o1) && GreedyPrefix(images, changed, o2)
    requires n <= |o1| && n <= |o2|
    ensures o1[..n] == o2[..n]
  {
    if n > 0 {
      var j := n - 1;
      GreedyAgree(images, changed, o1, o2, j);
      if j > 0 {
        assert o1[j - 1] == o1[..j][j - 1] == o2[..j][j - 1] == o2[j - 1];
        assert o1[j - 1] <= o1[j] && o2[j - 1] <= o2[j];
      }
      FirstAttach(images, changed, o1, j, o2[j]);
      FirstAttach(images, changed, o2, j, o1[j]);
      assert o1[..n] == o1[..j] + [o1[j]] && o2[..n] == o2[..j] + [o2[j]];
    }
  }

  /** The owner of the next changed image of a longer greedy attachment lies at or past `Start(o1)`. */
  lemma NextOwner(images: seq<string>, changed: seq<string>, o1: seq<nat>, o2: seq<nat>)
    requires GreedyPrefix(images, changed, o2)
    requires |o1| < |o2| && o2[..|o1|] == o1
    ensures Start(o1) <= o2[|o1|] < |images| && Attaches(images, changed, o2[|o1|], |o1|)
  {
    var k := |o1|;
    if k > 0 {
      assert o1[k - 1] == o2[..k][k - 1] == o2[k - 1];
    }
  }

  /** A stopped scan cannot be extended by a greedy attachment. */
  lemma StoppedIsMaximal(images: seq<string>, changed: seq<string>, o1: seq<nat>, o2: seq<nat>)
    requires GreedyPrefix(images, changed, o2) && Stopped(images, changed, o1)
    requires |o1| <= |o2| && o2[..|o1|] == o1
    ensures |o2| == |o1|
  {
    if |o1| < |o2| {
      NextOwner(images, changed, o1, o2);
      assert false;
    }
  }

  /** The greedy attachment is unique: a scan that stops has exactly one possible outcome. */
  lemma GreedyUnique(images: seq<string>, changed: seq<string>, o1: seq<nat>, o2: seq<nat>)
    requires GreedyPrefix(images, changed, o1) && Stopped(images, changed, o1)
    requires GreedyPrefix(images, changed, o2) && Stopped(images, changed, o2)
    ensures o1 == o2
  {
    if |o1| <= |o2| {
      GreedyAgree(images, changed, o1, o2, |o1|);
      assert o1[..|o1|] == o1;
      StoppedIsMaximal(images, changed, o1, o2);
      assert o2[..|o2|] == o2;
    } else {
      GreedyAgree(images, changed, o1, o2, |o2|);
      assert o2[..|o2|] == o2;
      StoppedIsMaximal(images, changed, o2, o1);
    }
  }

  // ---------------------------------------------------------------------------
  // CRIM: the guarded scan

  /** How one pass of the inner loop ends. */
  datatype RunEnd =
    | NextImage               // the inner loop finished normally
    | KeyMissing(name: string) // `im2comm[changed_image]` raised KeyError
    | PastEnd                 // `images_c1[images_c1_counter]` raised IndexError

  /** The state after the lookup for changed image `name` failed: the earlier ones all had a command. */
  ghost predicate MissingAt(images: seq<string>, changed: seq<string>, commands: map<string, string>,
                            owners: seq<nat>, name: string)
  {
    && GreedyPrefix(images, changed, owners) && |owners| > 0
    && name == changed[|owners| - 1] && name !in commands
    && forall j :: 0 <= j < |owners| - 1 ==> changed[j] in commands
  }

  /** The lookup for changed image `|owners|`, just attached to base image `i`, fails. */
  lemma Missing(images: seq<string>, changed: seq<string>, scenes: seq<string>, changedScenes: seq<string>,
                commands: map<string, string>, owners: seq<nat>, records: seq<Record>, i: nat)
    requires Scanning(images, changed, owners + [i], i)
    requires RecordsFor(images, changed, scenes, changedScenes, commands, owners, records)
    requires |owners| < |changed| && changed[|owners|] !in commands
    ensures MissingAt(images, changed, commands, owners + [i], changed[|owners|])
  {
  }

  /** Every changed image consumed so far had a command. */
  ghost predicate AllCommanded(changed: seq<string>, commands: map<string, string>, owners: seq<nat>)
    requires |owners| <= |changed|
  {
    forall j :: 0 <= j < |owners| ==> changed[j] in commands
  }

  /**
   * The inner loop of the CRIM scan for base image `i`: while changed images remain
   * and the next one contains the stem of `images[i]`, look up its command and emit
   * its record.
   */
  method AttachGuarded(images: seq<string>, changed: seq<string>, scenes: seq<string>, changedScenes: seq<string>,
                       commands: map<string, string>, i: nat, counter0: nat,
                       ghost owners0: seq<nat>, records0: seq<Record>)
    returns (end: RunEnd, counter: nat, ghost owners: seq<nat>, records: seq<Record>)
    requires i < |images| && counter0 == |owners0|
    requires Scanning(images, changed, owners0, i)
    requires RecordsFor(images, changed, scenes, changedScenes, commands, owners0, records0)
    ensures end.NextImage? || end.KeyMissing?
    ensures end.KeyMissing? ==> MissingAt(images, changed, commands, owners, end.name)
    ensures end.NextImage? ==>
      && counter == |owners| && Scanning(images, changed, owners, i)
      && RecordsFor(images, changed, scenes, changedScenes, commands, owners, records)
      && (counter < |changed| ==> !Attaches(images, changed, i, counter))
  {
    counter, owners, records := counter0, owners0, records0;
    var stem := Stem(images[i]);
    while counter < |changed| && IsSubstring(stem, changed[counter])
      invariant counter == |owners|
      invariant Scanning(images, changed, owners, i)
      invariant RecordsFor(images, changed, scenes, changedScenes, commands, owners, records)
      decreases |changed| - counter
    {
      var name := changed[counter];
      Attach(images, changed, owners, i);
      if name !in commands {
        Missing(images, changed, scenes, changedScenes, commands, owners, records, i);
        return KeyMissing(name), counter, owners + [i], records;
      }
      Emit(images, changed, scenes, changedScenes, commands, owners, records, i);
      owners := owners + [i];
      records := records + [Record(images[i], name, scenes[i], changedScenes[counter], commands[name])];
      counter := counter + 1;
    }
    end := NextImage;
  }

  /**
   * The pairing of the CRIM `create_h5`: the two listing assertions, the guarded
   * two-pointer scan with its command lookup, and the final count assertion.
   * `owners` records, for each emitted record, the index of its base image.
   */
  method PairScan(images: seq<string>, changed: seq<string>, scenes: seq<string>, changedScenes: seq<string>,
                  commands: map<string, string>)
    returns (r: Result<seq<Record>, ScanError>, ghost owners: seq<nat>)
    ensures r == Err(ImagesScenesMismatch) <==> |images| != |scenes|
    ensures r == Err(ChangedScenesMismatch) <==> |images| == |scenes| && |changed| != |changedScenes|
    ensures r.Ok? ==>
      && GreedyPrefix(images, changed, owners) && |owners| == |changed|
      && RecordsFor(images, changed, scenes, changedScenes, commands, owners, r.value)
    ensures r.Err? && r.error.MissingCommand? ==>
      |images| == |scenes| && |changed| == |changedScenes| && MissingAt(images, changed, commands, owners, r.error.name)
    ensures r.Err? && r.error.CountMismatch? ==>
      && |images| == |scenes| && |changed| == |changedScenes|
      && GreedyPrefix(images, changed, owners) && Stopped(images, changed, owners)
      && r.error == CountMismatch(|owners|, |changed|) && |owners| < |changed|
      && AllCommanded(changed, commands, owners)
    ensures r.Err? ==> r.error.ImagesScenesMismatch? || r.error.ChangedScenesMismatch?
                       || r.error.MissingCommand? || r.error.CountMismatch?
  {
    owners := [];
    if |images| != |scenes| {
      return Err(ImagesScenesMismatch), owners;
    }
    if |changed| != |changedScenes| {
      return Err(ChangedScenesMismatch), owners;
    }
    var records: seq<Record> := [];
    var counter := 0;
    var i := 0;
    while i < |images|
      invariant counter == |owners|
      invariant Scanning(images, changed, owners, i)
      invariant RecordsFor(images, changed, scenes, changedScenes, commands, owners, records)
    {
      var end;
      end, counter, owners, records := AttachGuarded(images, changed, scenes, changedScenes, commands, i, counter, owners, records);
      if end.KeyMissing? {
        return Err(MissingCommand(end.name)), owners;
      }
      Advance(images, changed, owners, i);
      i := i + 1;
    }
    if counter != |changed| {
      return Err(CountMismatch(counter, |changed|)), owners;
    }
    r := Ok(records);
  }

  // ---------------------------------------------------------------------------
  // i-CLEVR: the unguarded scan

  /** The two kinds of value compared by the i-CLEVR count assertion. */
  datatype PyValue = PyInt(n: int) | PyList(items: seq<string>)

  /** Python `==`: an int never equals a list. */
  predicate PyEquals(a: PyValue, b: PyValue)
  {
    match (a, b)
    case (PyInt(x), PyInt(y)) => x == y
    case (PyList(x), PyList(y)) => x == y
    case _ => false
  }

  /** `len(command_data) == images_c1` never holds, whatever was paired. */
  lemma CountNeverEqualsList(paired: nat, changed: seq<string>)
    ensures !PyEquals(PyInt(paired), PyList(changed))
  {
  }

  /**
   * The inner loop of the i-CLEVR scan: the same as the CRIM one but without the
   * bounds test, so once every changed image is taken the next index is past the end.
   */
  method AttachUnguarded(images: seq<string>, changed: seq<string>, scenes: seq<string>, changedScenes: seq<string>,
                         commands: map<string, string>, i: nat, counter0: nat,
                         ghost owners0: seq<nat>, records0: seq<Record>)
    returns (end: RunEnd, counter: nat, ghost owners: seq<nat>, records: seq<Record>)
    requires i < |images| && counter0 == |owners0|
    requires Scanning(images, changed, owners0, i)
    requires RecordsFor(images, changed, scenes, changedScenes, commands, owners0, records0)
    ensures end.KeyMissing? ==> MissingAt(images, changed, commands, owners, end.name)
    ensures end.PastEnd? ==>
      && counter == |owners| == |changed| && Scanning(images, changed, owners, i)
      && RecordsFor(images, changed, scenes, changedScenes, commands, owners, records)
    ensures end.NextImage? ==>
      && counter == |owners| < |changed| && Scanning(images, changed, owners, i)
      && RecordsFor(images, changed, scenes, changedScenes, commands, owners, records)
      && !Attaches(images, changed, i, counter)
  {
    counter, owners, records := counter0, owners0, records0;
    var stem := Stem(images[i]);
    while true
      invariant counter == |owners|
      invariant Scanning(images, changed, owners, i)
      invariant RecordsFor(images, changed, scenes, changedScenes, commands, owners, records)
      decreases |changed| - counter
    {
      if counter >= |changed| {
        return PastEnd, counter, owners, records;
      }
      if !IsSubstring(stem, changed[counter]) {
        return NextImage, counter, owners, records;
      }
      var name := changed[counter];
      Attach(images, changed, owners, i);
      if name !in commands {
        Missing(images, changed, scenes, changedScenes, commands, owners, records, i);
        return KeyMissing(name), counter, owners + [i], records;
      }
      Emit(images, changed, scenes, changedScenes, commands, owners, records, i);
      owners := owners + [i];
      records := records + [Record(images[i], name, scenes[i], changedScenes[counter], commands[name])];
      counter := counter + 1;
    }
  }

  /**
   * The pairing of the i-CLEVR `create_h5`: the same scan without the bounds test,
   * so indexing `images_c1` past its end raises IndexError, followed by an
   * assertion that compares a count with a list. Every run ends in an error.
   */
  method PairScanUnguarded(images: seq<string>, changed: seq<string>, scenes: seq<string>, changedScenes: seq<string>,
                           commands: map<string, string>)
    returns (r: Result<seq<Record>, ScanError>, ghost owners: seq<nat>)
    ensures r.Err?
    ensures r.error == ImagesScenesMismatch <==> |images| != |scenes|
    ensures r.error == ChangedScenesMismatch <==> |images| == |scenes| && |changed| != |changedScenes|
    ensures r.error.MissingCommand? ==> MissingAt(images, changed, commands, owners, r.error.name)
    ensures r.error == ChangedIndexOutOfRange ==>
      && |images| == |scenes| && |changed| == |changedScenes| && |images| > 0
      && GreedyPrefix(images, changed, owners) && |owners| == |changed|
      && AllCommanded(changed, commands, owners)
    ensures r.error == CountComparedWithList ==>
      && |images| == |scenes| && |changed| == |changedScenes|
      && GreedyPrefix(images, changed, owners) && Stopped(images, changed, owners)
      && (|owners| < |changed| || |images| == 0)
      && AllCommanded(changed, commands, owners)
    ensures !r.error.CountMismatch?
  {
    owners := [];
    if |images| != |scenes| {
      return Err(ImagesScenesMismatch), owners;
    }
    if |changed| != |changedScenes| {
      return Err(ChangedScenesMismatch), owners;
    }
    var records: seq<Record> := [];
    var counter := 0;
    var i := 0;
    while i < |images|
      invariant counter == |owners|
      invariant i > 0 ==> counter < |changed|
      invariant Scanning(images, changed, owners, i)
      invariant RecordsFor(images, changed, scenes, changedScenes, commands, owners, records)
    {
      var end;
      end, counter, owners, records := AttachUnguarded(images, changed, scenes, changedScenes, commands, i, counter, owners, records);
      if end.KeyMissing? {
        return Err(MissingCommand(end.name)), owners;
      }
      if end.PastEnd? {
        return Err(ChangedIndexOutOfRange), owners;
      }
      Advance(images, changed, owners, i);
      i := i + 1;
    }
    CountNeverEqualsList(|records|, changed);
    r := Err(CountComparedWithList);
  }

  // ---------------------------------------------------------------------------
  // The split loop

  const SPLITS: seq<string> := ["train", "valid", "test"]

  /** The split name -> output file table of the CRIM script (its line 41). */
  const CRIM_SPLIT_FILES: set<string> := {"train", "valid", "test"}

  /** The split name -> output file table of the i-CLEVR script, which says "val". */
  const ICLEVR_SPLIT_FILES: set<string> := {"train", "val", "test"}

  /** Every split the CRIM loop visits has an output file. */
  lemma CrimSplitsHaveFiles()
    ensures forall s :: s in SPLITS ==> s in CRIM_SPLIT_FILES
  {
  }

  /** The i-CLEVR loop visits "valid", which its file table does not hold. */
  lemma IclevrValidSplitMissing()
    ensures SPLITS[1] == "valid" && SPLITS[1] !in ICLEVR_SPLIT_FILES
  {
  }
}
