# GeNeVA CRIM / i-CLEVR data preparation, modelled in Dafny

This project models the data-preparation scripts that turn raw CRIM and i-CLEVR
renders into training input for GeNeVA-GAN. They do four things:

- **The object catalogue.** `create_vocab` writes every shape × colour × material
  combination, one per line. `create_h5` reads the lines back and stores them as
  the `entities` list.
- **Pairing.** `create_h5` pairs every "before" image with the changed images whose
  file names contain its stem, and attaches the command for each pair. The command
  comes from the question file.
- **Encoding.** Each scene's objects are encoded as a multi-hot vector over the
  catalogue, plus a per-slot coordinate table. CRIM uses 48 slots and a 2-row matrix
  per command. i-CLEVR uses 24 slots and one row per object.
- **Embeddings.** `generate_glove_file` builds a vocabulary, either from the commands
  or from a vocabulary file. It then gives each word its GloVe vector, or the `unk`
  vector when the word has none.

The modules:

- `PyStr`: the Python string and list primitives the scripts rely on. These are
  `strip`, `split(c)`, `split()`, `split(c, 1)`, `rsplit(c, 1)[0]`, substring `in`,
  `list.index` and `sorted(set(..))`.
- `Catalogue`: `itertools.product`, the written catalogue, its parse, and the entity
  lists.
- `Pairing`: the command dictionary and the two-pointer pairing scan, in its CRIM
  form (guarded) and its i-CLEVR form (unguarded). It also covers the
  split-to-file mapping.
- `SceneIds`: the sample names stored in HDF5.
- `Encoding`: the encoders, written over `array` and `array2` as NumPy updates them
  in place. The i-CLEVR row list is modelled together with its aliasing.
- `Glove`: the embedding-file parse, the in-place merge and the `unk` fallback, all
  shared by both generators.
- `GloveCrim`: the CRIM generator.
- `GloveJoint`: the joint CoDraw/i-CLEVR generator.

Every Python exception the modelled code can raise is an error value: `Result`,
`Option`, or an error datatype. Examples are `IndexError`, `KeyError`, `ValueError`
from `list.index`, a failed unpacking, an `unk_embedding` read before it is
assigned, and a failed `assert`. Preconditions exclude no input the scripts accept.

## Model

| member | source | states |
|---|---|---|
| PyStr.Strip | scripts/crim_dataset_generation/CRIM_raw_to_hdf5.py:28 | `str.strip()`: the result is the input with a run of whitespace removed at the front and a run at the back, and nothing else; it has no whitespace at either end, and an already-trimmed string is unchanged |
| PyStr.StripKeepsOut | scripts/crim_dataset_generation/generate_glove_file_clevr.py:33 | stripping never introduces a character the input lacked |
| PyStr.StripLine | scripts/crim_dataset_generation/CRIM_raw_to_hdf5.py:27-28 | stripping a line written as `item + "\n"` gives back the trimmed item |
| PyStr.Split | scripts/crim_dataset_generation/generate_glove_file_clevr.py:32 | `str.split(c)`: at least one piece, no piece contains `c`, and joining the pieces with `c` rebuilds the input |
| PyStr.SplitJoin | scripts/crim_dataset_generation/generate_glove_file_clevr.py:32 | splitting a `c`-join of `c`-free pieces gives the pieces back (the inverse of `Split`'s join property) |
| PyStr.SplitIsWhole | scripts/crim_dataset_generation/generate_glove_file_clevr.py:73 | `len(s.split(c)) == 1` exactly when `c` does not occur in `s` |
| PyStr.BeforeFirst | scripts/crim_dataset_generation/generate_glove_file_clevr.py:34-35 | `s.split(c)[0]`: a prefix of `s` free of `c`, ended by a `c` in `s` when it is shorter than `s` |
| PyStr.FirstIndex | scripts/crim_dataset_generation/generate_glove_file_clevr.py:57 | absent exactly when `c` does not occur; otherwise it holds `c`, and no earlier position does |
| PyStr.LastIndex | scripts/crim_dataset_generation/generate_glove_file_clevr.py:33 | absent exactly when `c` does not occur; otherwise it holds `c`, and no later position does |
| PyStr.BeforeLast | scripts/crim_dataset_generation/generate_glove_file_clevr.py:51 | `s.rsplit(c, 1)[0]`: a prefix of `s`, equal to `s` exactly when `c` does not occur, otherwise ended by the last `c` |
| PyStr.SplitOnce | scripts/crim_dataset_generation/generate_glove_file_clevr.py:57 | `s.split(c, 1)`: one piece (`s` itself) exactly when `c` does not occur, otherwise two pieces around the first `c` |
| PyStr.SplitOnceAt | scripts/crim_dataset_generation/generate_glove_file_clevr.py:57 | splitting `a + c + rest` once, where `a` holds no `c`, gives `[a, rest]` |
| PyStr.WordPrefix | scripts/crim_dataset_generation/CRIM_raw_to_hdf5.py:28 | the longest whitespace-free prefix: free of whitespace, and followed by whitespace if shorter than the input |
| PyStr.Fields | scripts/crim_dataset_generation/CRIM_raw_to_hdf5.py:28 | `str.split()`: every field is a non-empty, whitespace-free word (that the fields are the maximal runs, in order, is `FieldGaps` with `FieldsOfInterleave`) |
| PyStr.FieldsOfJoin | scripts/crim_dataset_generation/CRIM_raw_to_hdf5.py:28 | the fields of words joined with single spaces, followed by trailing whitespace, are the words themselves |
| PyStr.AllSpace | scripts/crim_dataset_generation/CRIM_raw_to_hdf5.py:28 | an all-whitespace string has no fields |
| PyStr.FieldsOfInterleave | scripts/crim_dataset_generation/CRIM_raw_to_hdf5.py:28 | words separated by whitespace gaps, with non-empty inner gaps, split back into exactly those words, in order |
| PyStr.FieldGaps | scripts/crim_dataset_generation/CRIM_raw_to_hdf5.py:28 | every string is its fields interleaved with whitespace-only gaps, the inner gaps non-empty: the fields are its maximal whitespace-free runs, in order, and only whitespace is dropped |
| PyStr.StripFields | scripts/crim_dataset_generation/CRIM_raw_to_hdf5.py:28 | `line.strip().split()` gives the same fields as `line.split()` |
| PyStr.IsSubstringAt | scripts/crim_dataset_generation/CRIM_raw_to_hdf5.py:64 | `p in s` holds when `p` occurs at some position of `s` |
| PyStr.SubstringOccurs | scripts/crim_dataset_generation/CRIM_raw_to_hdf5.py:64 | when `p in s` holds, `p` occurs at some position of `s` |
| PyStr.IsSubstringIff | scripts/crim_dataset_generation/CRIM_raw_to_hdf5.py:64 | `p in s` holds exactly when `p` occurs at some position of `s` |
| PyStr.IndexOf | scripts/crim_dataset_generation/CRIM_raw_to_hdf5.py:106 | `list.index`: fails exactly when `x` is absent, and otherwise returns the first position holding `x` |
| PyStr.IndexOfDistinct | scripts/crim_dataset_generation/generate_glove_file_clevr.py:64 | in a list without repeats, `index` of element `i` is `i` |
| PyStr.LessTransitive | scripts/crim_dataset_generation/generate_glove_file_clevr.py:40 | Python's string order is transitive |
| PyStr.LessTotal | scripts/crim_dataset_generation/generate_glove_file_clevr.py:40 | Python's string order is total on distinct strings |
| PyStr.LessIrreflexive | scripts/crim_dataset_generation/generate_glove_file_clevr.py:40 | Python's string order is irreflexive |
| PyStr.StrictlySortedIsDistinct | scripts/crim_dataset_generation/generate_glove_file_clevr.py:39-40 | a strictly sorted list has no repeats |
| PyStr.Insert | scripts/crim_dataset_generation/generate_glove_file_clevr.py:39-40 | inserting into a strictly sorted list keeps it strictly sorted and adds exactly `x` to its members |
| PyStr.SortedSet | scripts/crim_dataset_generation/generate_glove_file_clevr.py:39-40 | `sorted(set(l))`: strictly ascending, with exactly the members of `l` |
| PyStr.SortedUnique | scripts/crim_dataset_generation/generate_glove_file_clevr.py:39-40 | two strictly sorted lists with the same members are equal, so `sorted(set(l))` is determined by the members of `l` |
| SceneIds.Basename | scripts/crim_dataset_generation/CRIM_raw_to_hdf5.py:52 | `os.path.basename`: the longest '/'-free suffix of the path (a suffix with no '/', preceded by a '/' when shorter than the path) |
| SceneIds.BasenameOfJoin | scripts/crim_dataset_generation/CRIM_raw_to_hdf5.py:52 | the basename of `dir/name` is `name` |
| SceneIds.AfterUnderscores | scripts/crim_dataset_generation/CRIM_raw_to_hdf5.py:83 | `s.split('_', n)[n]`: fails (IndexError) exactly when `s` has fewer than `n` underscores; it is `s` itself for `n = 0`, and otherwise the suffix after the `n`-th underscore |
| SceneIds.SkipPart | scripts/crim_dataset_generation/CRIM_raw_to_hdf5.py:83 | an underscore-free leading part is skipped by one split |
| SceneIds.DropLast | scripts/crim_dataset_generation/CRIM_raw_to_hdf5.py:83 | `t[:-n]`: a prefix of `t`, `n` characters shorter, empty when `t` has at most `n` characters, and empty for `n = 0` since `-0` is `0` |
| SceneIds.DropJson | scripts/crim_dataset_generation/CRIM_raw_to_hdf5.py:83 | `[:-5]` removes exactly a trailing ".json" |
| SceneIds.CrimSceneId | scripts/crim_dataset_generation/CRIM_raw_to_hdf5.py:83 | the CRIM sample name fails exactly when the file name has fewer than two underscores |
| SceneIds.CrimSceneIdOfCanonical | scripts/crim_dataset_generation/CRIM_raw_to_hdf5.py:83 | a scene file `a_b_tail` is stored under `tail` minus its last five characters, e.g. `001991_0_c1` |
| SceneIds.IclevrSceneId | scripts/iclevr_dataset_generation/CRIM_raw_to_hdf5.py:79 | the i-CLEVR sample name is a '/'-free basename |
| SceneIds.IclevrSceneIdOfName | scripts/iclevr_dataset_generation/CRIM_raw_to_hdf5.py:79 | the i-CLEVR sample name is the whole scene file name, extension included |
| Catalogue.RowAppend | scripts/crim_dataset_generation/CRIM_add_data_to_raw.py:19 | one row of the product distributes over concatenation of the middle list |
| Catalogue.ProductAppend | scripts/crim_dataset_generation/CRIM_add_data_to_raw.py:19 | `product(a + b, ys, zs)` is `product(a, ys, zs)` followed by `product(b, ys, zs)` |
| Catalogue.ProductAt | scripts/crim_dataset_generation/CRIM_add_data_to_raw.py:19 | triple `(xs[i], ys[j], zs[k])` sits at its lexicographic position, the last list varying fastest |
| Catalogue.ProductLength16 | scripts/crim_dataset_generation/CRIM_add_data_to_raw.py:19 | with 8 colours and 2 materials, the product has 16 triples per shape |
| Catalogue.ProductMembers | scripts/crim_dataset_generation/CRIM_add_data_to_raw.py:19 | every product member is a triple drawn from the three lists |
| Catalogue.ProductDistinct | scripts/crim_dataset_generation/CRIM_add_data_to_raw.py:19 | lists without repeats give a product without repeats |
| Catalogue.ProductEntryFields | scripts/crim_dataset_generation/CRIM_add_data_to_raw.py:20 | each space-joined triple of words is trimmed and splits back into that triple |
| Catalogue.ProductNamesDistinct | scripts/crim_dataset_generation/CRIM_add_data_to_raw.py:20 | the space-joined catalogue names have no repeats |
| Catalogue.ConstantsAreWords | scripts/crim_dataset_generation/CRIM_add_data_to_raw.py:14-16 | the shape, colour and material constants are whitespace-free words without repeats |
| Catalogue.ProductLayout382 | scripts/crim_dataset_generation/CRIM_add_data_to_raw.py:19 | for 3 × 8 × 2 lists, the product has 48 triples, with triple `(s, c, m)` at index `16s + 2c + m` |
| Catalogue.CatalogueLayout | scripts/crim_dataset_generation/CRIM_add_data_to_raw.py:14-20 | the catalogue has 48 names, the one at `16s + 2c + m` being "shape colour material" |
| Catalogue.CatalogueEnds | scripts/crim_dataset_generation/CRIM_add_data_to_raw.py:14-20 | the first name is "cube gray metal" and the last is "cylinder yellow rubber" |
| Catalogue.CatalogueDistinct | scripts/crim_dataset_generation/CRIM_add_data_to_raw.py:19-20 | no catalogue name repeats |
| Catalogue.EntryFields | scripts/crim_dataset_generation/CRIM_add_data_to_raw.py:19-20 | each catalogue name splits into a shape, a colour and a material |
| Catalogue.ParseCatalogue | scripts/crim_dataset_generation/CRIM_raw_to_hdf5.py:26-28 | one tuple per line, each field a non-empty word |
| Catalogue.ParseCatalogueFields | scripts/crim_dataset_generation/CRIM_raw_to_hdf5.py:26-28 | tuple `i` is exactly the whitespace fields of line `i`, so by `FieldGaps` its maximal runs in order |
| Catalogue.Entities3 | scripts/crim_dataset_generation/CRIM_raw_to_hdf5.py:36 | defined (no IndexError) exactly when every tuple has at least 3 fields; entity `i` is then the first three fields of tuple `i` joined by single spaces |
| Catalogue.Entities2 | scripts/iclevr_dataset_generation/CRIM_raw_to_hdf5.py:36 | defined exactly when every tuple has at least 2 fields; entity `i` is then the first two fields of tuple `i` joined by a space |
| Catalogue.ParseWrittenProduct | scripts/crim_dataset_generation/CRIM_add_data_to_raw.py:19-26 | reading back a written product of words gives the product's triples |
| Catalogue.ProductRoundTrip | scripts/crim_dataset_generation/CRIM_raw_to_hdf5.py:26-36 | the entities re-serialised from a read-back product are the written names |
| Catalogue.EntitiesOfTriples | scripts/crim_dataset_generation/CRIM_raw_to_hdf5.py:36 | on 3-field tuples, the entities are the space-joined tuples |
| Catalogue.CatalogueRoundTrip | scripts/crim_dataset_generation/CRIM_raw_to_hdf5.py:26-36 | `create_h5` parses the written catalogue back into the product, and its `entities` list is exactly what `create_vocab` wrote |
| Catalogue.Entities2Repeat | scripts/iclevr_dataset_generation/CRIM_raw_to_hdf5.py:36 | two adjacent triples that differ only in the third field give the same two-field entity |
| Catalogue.TwoFieldRepeat382 | scripts/iclevr_dataset_generation/CRIM_raw_to_hdf5.py:28-36 | over a written 3 × 8 × 2 product, entities `16s + 2c` and `16s + 2c + 1` coincide |
| Catalogue.TwoFieldEntitiesRepeat | scripts/iclevr_dataset_generation/CRIM_raw_to_hdf5.py:26-36 | reading the CRIM catalogue, i-CLEVR's 48 entities come in equal pairs "shape colour" |
| Pairing.CommandMap | scripts/crim_dataset_generation/CRIM_raw_to_hdf5.py:49 | the keys are exactly the named images, and each maps to the question of the last entry naming it |
| Pairing.Stem | scripts/crim_dataset_generation/CRIM_raw_to_hdf5.py:63 | `img.split('.')[0]`: the prefix of the file name before its first '.', the whole name when it has none |
| Pairing.Attach | scripts/crim_dataset_generation/CRIM_raw_to_hdf5.py:64-67 | attaching the next changed image to the current base image keeps the scan greedy |
| Pairing.Emit | scripts/crim_dataset_generation/CRIM_raw_to_hdf5.py:66 | the record emitted for an attached changed image has the right images, scenes and command |
| Pairing.Advance | scripts/crim_dataset_generation/CRIM_raw_to_hdf5.py:62-64 | moving to the next base image when the current one takes no more images keeps the scan greedy |
| Pairing.GreedyAgree | scripts/crim_dataset_generation/CRIM_raw_to_hdf5.py:61-67 | two greedy attachments agree on their common prefix |
| Pairing.StoppedIsMaximal | scripts/crim_dataset_generation/CRIM_raw_to_hdf5.py:61-67 | once the scan stops, no greedy attachment extends further |
| Pairing.GreedyUnique | scripts/crim_dataset_generation/CRIM_raw_to_hdf5.py:61-67 | the stopped greedy attachment is unique, so the scan's pairing is determined by the listings |
| Pairing.Missing | scripts/crim_dataset_generation/CRIM_raw_to_hdf5.py:66 | a failed command lookup happens at a greedily attached changed image, after every earlier one had a command |
| Pairing.AttachGuarded | scripts/crim_dataset_generation/CRIM_raw_to_hdf5.py:64-67 | the guarded inner loop attaches every following changed image that contains the base stem, or stops at a missing command |
| Pairing.PairScan | scripts/crim_dataset_generation/CRIM_raw_to_hdf5.py:56-70 | the two listing asserts fail exactly on mismatched lengths. On success, the records follow the unique greedy attachment and every changed image is paired. A `KeyError` names the first command-less attached image. The count assert fails exactly when the scan stops early |
| Pairing.CountNeverEqualsList | scripts/iclevr_dataset_generation/CRIM_raw_to_hdf5.py:69 | an int never equals a list, so i-CLEVR's count assert always fails |
| Pairing.AttachUnguarded | scripts/iclevr_dataset_generation/CRIM_raw_to_hdf5.py:64-67 | the unguarded inner loop either attaches, stops at a missing command, or indexes past the changed list (IndexError) |
| Pairing.PairScanUnguarded | scripts/iclevr_dataset_generation/CRIM_raw_to_hdf5.py:56-69 | the i-CLEVR pairing always ends in an error: a listing mismatch, a `KeyError`, an `IndexError` once every changed image is consumed, or the failing count assert |
| Pairing.CrimSplitsHaveFiles | scripts/crim_dataset_generation/CRIM_raw_to_hdf5.py:41-43 | every CRIM split name has an HDF5 file |
| Pairing.IclevrValidSplitMissing | scripts/iclevr_dataset_generation/CRIM_raw_to_hdf5.py:41-43 | i-CLEVR's 'valid' split has no HDF5 file (the map has 'val') |
| Encoding.Scaled | scripts/crim_dataset_generation/CRIM_raw_to_hdf5.py:109 | scaling keeps depth and keeps a zero coordinate zero, and only a zero one |
| Encoding.ScaledInFrame | scripts/crim_dataset_generation/CRIM_raw_to_hdf5.py:109 | a position inside the rendered image (480 × 320 for CRIM, 320 × 240 for i-CLEVR) lands inside the 128 × 128 frame, at the same fraction of width and height |
| Encoding.SlotOf | scripts/crim_dataset_generation/CRIM_raw_to_hdf5.py:106-107 | `ValueError` exactly when the key is not in the catalogue. Otherwise the slot is the key's first position, and when that first position is past the vector's width it is an `IndexError` |
| Encoding.Slots | scripts/crim_dataset_generation/CRIM_raw_to_hdf5.py:102-107 | succeeds exactly when every object has a slot, with one slot per object, in order |
| Encoding.FirstFailure | scripts/crim_dataset_generation/CRIM_raw_to_hdf5.py:102-107 | the scene fails with the error of its first failing object |
| Encoding.FailingPrefix | scripts/crim_dataset_generation/CRIM_raw_to_hdf5.py:102-107 | objects after a failure do not change the error |
| Encoding.LastPixel | scripts/crim_dataset_generation/CRIM_raw_to_hdf5.py:109 | a slot no object takes keeps the origin |
| Encoding.LastPixelIsLast | scripts/crim_dataset_generation/CRIM_raw_to_hdf5.py:109 | a slot holds the scaled position of the last object with that slot |
| Encoding.HotIffPresent | scripts/crim_dataset_generation/CRIM_raw_to_hdf5.py:106-107 | over a catalogue without repeats, slot `k` is hot exactly when some object's key is catalogue entry `k` |
| Encoding.CopyRow | scripts/crim_dataset_generation/CRIM_raw_to_hdf5.py:111-112 | row assignment sets the row to the vector and leaves the other rows unchanged |
| Encoding.EncodeScene | scripts/crim_dataset_generation/CRIM_raw_to_hdf5.py:100-109 | the object loop fails exactly when `Slots` fails, with its error. Otherwise the vectors hold `Hot` and `LastPixel` for every slot |
| Encoding.StoreScene | scripts/crim_dataset_generation/CRIM_raw_to_hdf5.py:99-112 | one scene block writes its multi-hot and coordinate rows, and leaves all other rows unchanged |
| Encoding.EncodeCrimPair | scripts/crim_dataset_generation/CRIM_raw_to_hdf5.py:96-127 | as written: the rows hold both scenes' multi-hot vectors, coordinate row 0 stays at the origin, and row 1 holds scene 2's coordinates |
| Encoding.EncodeCrimPairIntended | scripts/crim_dataset_generation/CRIM_raw_to_hdf5.py:96-127 | corrected: coordinate row 0 holds scene 1's coordinates and row 1 holds scene 2's |
| Encoding.SceneOneCoordinatesLost | scripts/crim_dataset_generation/CRIM_raw_to_hdf5.py:111 | when scene 1's last object is not at x = 0, some slot's coordinates differ from the origin that row 0 keeps |
| Encoding.Stack | scripts/iclevr_dataset_generation/CRIM_raw_to_hdf5.py:103-104 | `np.stack`: row `r` holds the contents of the `r`-th array at stacking time |
| Encoding.CollectRows | scripts/iclevr_dataset_generation/CRIM_raw_to_hdf5.py:90-101 | the object loop as written: every list entry is the same array, and that array ends holding the vectors of the whole scene |
| Encoding.EncodeIclevrScene | scripts/iclevr_dataset_generation/CRIM_raw_to_hdf5.py:90-104 | as written: fails on a missing slot or an empty scene, and otherwise every row of both matrices is the final vector of the whole scene |
| Encoding.CollectSnapshots | scripts/iclevr_dataset_generation/CRIM_raw_to_hdf5.py:90-101 | corrected loop, with a copy per append: entry `r` holds the vectors of the first `r + 1` objects |
| Encoding.EncodeIclevrSceneSnapshots | scripts/iclevr_dataset_generation/CRIM_raw_to_hdf5.py:90-104 | corrected: row `t` holds the multi-hot vector and coordinates of the first `t + 1` objects |
| Encoding.FirstRowSeesLaterObjects | scripts/iclevr_dataset_generation/CRIM_raw_to_hdf5.py:99 | when the second object differs in kind from the first, row 0 as written already marks the second object, which the intended row 0 does not |
| Encoding.SlotInProduct | scripts/crim_dataset_generation/CRIM_raw_to_hdf5.py:106 | in a 3 × 8 × 2 product, an object of shape `s`, colour `c` and material `m` has slot `16s + 2c + m` |
| Encoding.CrimSlotOfKind | scripts/crim_dataset_generation/CRIM_raw_to_hdf5.py:26-28 | read back from the written catalogue, each CRIM object kind has slot `16s + 2c + m` |
| Encoding.PairKeyNotInProduct | scripts/iclevr_dataset_generation/CRIM_raw_to_hdf5.py:97 | a two-field key is never found among three-field tuples |
| Encoding.IclevrNeverEncodes | scripts/iclevr_dataset_generation/CRIM_raw_to_hdf5.py:26-28 | if i-CLEVR is given the three-field CRIM catalogue, it fails with `ValueError` on any non-empty scene |
| Glove.Pieces | scripts/crim_dataset_generation/generate_glove_file_clevr.py:57 | `x.strip().split(' ', 1)`: the stripped line itself when it has no space, and otherwise a space-free token and its vector that rebuild the stripped line around its first space |
| Glove.GlovePairs | scripts/crim_dataset_generation/generate_glove_file_clevr.py:55-57 | one piece list per line: the stripped line itself when it holds no space, and otherwise the token and vector whose space-join is the stripped line, the token space-free |
| Glove.FirstBad | scripts/crim_dataset_generation/generate_glove_file_clevr.py:60 | the first line whose pieces do not unpack into token and vector, if any |
| Glove.LastEmb | scripts/crim_dataset_generation/generate_glove_file_clevr.py:60-62 | the vector of the last line for a token, used for `unk` |
| Glove.FirstEmb | scripts/crim_dataset_generation/generate_glove_file_clevr.py:60-68 | the vector of the first line for a token |
| Glove.Fill | scripts/crim_dataset_generation/generate_glove_file_clevr.py:63-68 | one merge step changes only the first entry equal to the token, and leaves the vocabulary alone when there is none |
| Glove.MergedExtends | scripts/crim_dataset_generation/generate_glove_file_clevr.py:60-68 | merging only extends entries, and leaves unmatched ones unchanged |
| Glove.MergedEntry | scripts/crim_dataset_generation/generate_glove_file_clevr.py:60-68 | an entry extends its word, and stays the word exactly when the word has a space or no line carries it |
| Glove.MergedDistinct | scripts/crim_dataset_generation/generate_glove_file_clevr.py:60-68 | on a vocabulary without repeats, each word receives the vector of its first line |
| Glove.MergeEmbeddings | scripts/crim_dataset_generation/generate_glove_file_clevr.py:60-68 | the merge loop fails at the first line that cannot unpack. Otherwise it yields `Merged` and the last `unk` vector |
| Glove.BareCountZero | scripts/crim_dataset_generation/generate_glove_file_clevr.py:71-75 | no entry is bare exactly when the bare count is 0 |
| Glove.AssignUnk | scripts/crim_dataset_generation/generate_glove_file_clevr.py:71-75 | fails (`NameError`) exactly when bare entries remain and `unk` was never seen. Otherwise it counts the bare entries and gives each the `unk` vector, leaving no entry bare |
| Glove.VocabWords | scripts/crim_dataset_generation/generate_glove_file_clevr.py:51 | each word is a prefix of its stripped line: the whole line exactly when it has no space, and otherwise the text before its last space |
| Glove.FinalEntry | scripts/crim_dataset_generation/generate_glove_file_clevr.py:60-75 | the output line for a word extends its merged entry |
| Glove.FinalEntryOfBare | scripts/crim_dataset_generation/generate_glove_file_clevr.py:60-75 | a bare word gets its first GloVe vector, or else the `unk` vector, or else stays bare |
| Glove.Embed | scripts/crim_dataset_generation/generate_glove_file_clevr.py:57-75 | succeeds exactly when every line unpacks and `unk` is defined or nothing is bare, and reports which error otherwise. On success, the count is the number of bare entries, each bare merged entry gets the last `unk` vector and every other merged entry is kept, so no entry is bare. Over a repeat-free vocabulary, each entry is `FinalEntry` |
| GloveCrim.CleanWord | scripts/crim_dataset_generation/generate_glove_file_clevr.py:33-35 | the piece stripped and cut before its last space, then cut before its first '.' or ';': a prefix of it with neither character, ended by one of them when shorter |
| GloveCrim.CleanWordLongest | scripts/crim_dataset_generation/generate_glove_file_clevr.py:33-35 | every prefix of the stripped, `rsplit` piece free of '.' and ';' is a prefix of the cleaned word, so it is the longest such prefix |
| GloveCrim.CleanWordOfClean | scripts/crim_dataset_generation/generate_glove_file_clevr.py:33-35 | a trimmed word without space, '.' or ';' is left unchanged by cleaning |
| GloveCrim.CommandWords | scripts/crim_dataset_generation/generate_glove_file_clevr.py:32-35 | word `k` is piece `k` of the command split on ' ', cleaned, and it holds no space, '.' or ';' |
| GloveCrim.CommandWordsOfJoin | scripts/crim_dataset_generation/generate_glove_file_clevr.py:32-35 | a command written as clean, trimmed words joined by single spaces yields exactly those words |
| GloveCrim.FlattenMembers | scripts/crim_dataset_generation/generate_glove_file_clevr.py:36 | a word is in the extended list exactly when it is in some command's words |
| GloveCrim.FlattenStep | scripts/crim_dataset_generation/generate_glove_file_clevr.py:36 | each `extend` appends that command's words |
| GloveCrim.CommandVocab | scripts/crim_dataset_generation/generate_glove_file_clevr.py:30-40 | the loop, then set and sort, gives `sorted(set(..))` of all command words |
| GloveCrim.CommandVocabMembers | scripts/crim_dataset_generation/generate_glove_file_clevr.py:30-40 | a word is in the vocabulary exactly when it is a cleaned word of some command |
| GloveCrim.CommandVocabWords | scripts/crim_dataset_generation/generate_glove_file_clevr.py:30-40 | the built vocabulary is sorted, has no repeats, and holds only clean words |
| GloveCrim.CrimVocab | scripts/crim_dataset_generation/generate_glove_file_clevr.py:22-51 | an existing vocabulary file gives `VocabWords` of its lines, one word per line. Otherwise the vocabulary is strictly sorted and holds exactly the command words |
| GloveCrim.GenerateGloveFile | scripts/crim_dataset_generation/generate_glove_file_clevr.py:22-75 | the CRIM generator: `Embed` over the chosen vocabulary, entry by entry (the `unk` vector for each bare merged entry, the merged entry otherwise), and each entry `FinalEntry` when the vocabulary is built from the commands |
| GloveCrim.CommandWordEntry | scripts/crim_dataset_generation/generate_glove_file_clevr.py:30-75 | each command word receives its first GloVe vector, or else the last `unk` vector |
| GloveJoint.JointVocab | scripts/joint_codraw_iclevr/generate_glove_file_clevr.py:20-25 | strictly sorted, without repeats, with exactly the words of the vocabulary lines |
| GloveJoint.GenerateGloveFile | scripts/joint_codraw_iclevr/generate_glove_file_clevr.py:20-48 | `Embed` over the joint vocabulary. On success, every entry is `FinalEntry` of its word |

## Left out

- File and process I/O is not modelled, and its contents become parameters:
  - YAML config loading, `glob`, directory creation;
  - reading and writing the text and JSON files, and the JSON structure of the
    question and scene files;
  - HDF5 file and group creation, and `json.dumps`.
- The vocabulary and GloVe output files are not modelled. Only the list of lines the
  scripts write is.
- `tqdm` progress bars and `print` calls are not modelled, including the final
  counts message of both generators (the count itself is modelled as `unkCount`).
- The debugger breakpoint in the joint generator
  (scripts/joint_codraw_iclevr/generate_glove_file_clevr.py:18) is not modelled.
  It pauses but does not change the computation.
- Image reading and resizing with OpenCV is left out: pixels are never inspected.
- The HDF5 datasets of a CRIM sample that are not modelled:
  - `scene_id` is modelled by `SceneIds.CrimSceneId`;
  - the command text list is left out;
  - the images are left out.
- Floating point is left out:
  - `Encoding.Scaled` uses exact reals for `/ 480. * 128` and the other scale
    factors;
  - rounding is not modelled.
- Whitespace for `strip()` and `split()` is the ASCII whitespace Python recognises:
  space, tab, line feed, carriage return, U+000B, U+000C and U+001C to U+001F.
  Python also counts non-ASCII spaces such as U+0085 and U+00A0; these are left out.
- Python string order is modelled on code points as `Less`. No locale is involved.
- The i-CLEVR sample loop (scripts/iclevr_dataset_generation/CRIM_raw_to_hdf5.py:71-112)
  is modelled only in part:
  - Modelled: the sample name at :79 (`SceneIds.IclevrSceneId`) and the object
    encoding at :90-104 (`Encoding.EncodeIclevrScene`), as they would run on a scene.
  - Not modelled: the JSON and image reads and the group creation.
  - Not modelled either: the paths at :71-74. They are written `'scenes/'. data_dict['im1']`,
    an attribute lookup on a string, which would raise `AttributeError` on the first
    record.
  - The whole loop is unreachable anyway: the `train` split always stops in pairing first
    (`Pairing.PairScanUnguarded`).
- i-CLEVR opens the question file as `CLEVR_questions`, without `.json`
  (scripts/iclevr_dataset_generation/CRIM_raw_to_hdf5.py:47). The file name plays no
  part in the model: the questions are a parameter.
- The dictionary `h5_objects` is modelled only by the split names it holds.
- Pairing.PairScan: the listings are given as already sorted file names. `sorted(glob(..))`
  itself is not modelled.

## Findings

| source | as written | input that shows it | evidently intended | confidence | as-written member | corrected member |
|---|---|---|---|---|---|---|
| scripts/crim_dataset_generation/CRIM_raw_to_hdf5.py:111 | scene 1's coordinates go to `object_coords[1]`, and scene 2 then overwrites that row, so row 0 stays all zeros | a scene 1 whose last object has x ≠ 0 | `object_coords[0]` for scene 1, beside `objects[0]` | high (not executed) | Encoding.EncodeCrimPair, Encoding.SceneOneCoordinatesLost | Encoding.EncodeCrimPairIntended |
| scripts/iclevr_dataset_generation/CRIM_raw_to_hdf5.py:99-101 | the same `agg_object` and `agg_object_coords` arrays are appended after every object, so every stacked row is the final vector | a scene of two objects of different kinds: row 0 marks both | append a copy, so row `t` shows the first `t + 1` objects | high (not executed) | Encoding.EncodeIclevrScene, Encoding.FirstRowSeesLaterObjects | Encoding.EncodeIclevrSceneSnapshots |
| scripts/iclevr_dataset_generation/CRIM_raw_to_hdf5.py:64-69 | the inner loop has no bounds test, and the count assert compares an int with the list itself | any split whose scan reaches the last changed image; any split at all for the assert | the CRIM form: a bounds test, and `len(images_c1)` | high (not executed) | Pairing.PairScanUnguarded, Pairing.CountNeverEqualsList | Pairing.PairScan |
| scripts/iclevr_dataset_generation/CRIM_raw_to_hdf5.py:41-43 | the file map has the key `'val'` while the loop uses `'valid'` | the `valid` split | the key `'valid'`, as in the CRIM script | high (not executed) | Pairing.IclevrValidSplitMissing | Pairing.CrimSplitsHaveFiles |
