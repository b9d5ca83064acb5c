# Hierarchical SMARTS library generator: a Dafny model

This project models `generate_hierarchical_library` in `substruct_generation.py`. The function enumerates five-membered aromatic ring patterns in five layers and writes each layer as a SMARTS string:

1. the generic ring;
2. a four-atom skeleton of `C*` and `N` atoms;
3. a core with one of four centre atoms;
4. a mask that opens two or three marked positions and caps the rest with hydrogen;
5. a final pattern with a catalog substituent in every open position.

Duplicates are removed by symmetry at two points:
- skeletons up to reflection (`canonical_reflect_tuple`);
- masks and final patterns up to rotation and reflection of the ring (`canonical_necklace`).

Rows are keyed by the necklace key of their final pattern. The ancestor strings are cached per mask.

The model follows the program's structure, one module per file:

- `lex.dfy`: Python's `<` on strings and on tuples of strings, proved a total order.
- `canon.dfy`: the two canonicalisers.
  - `canonical_necklace` is an imperative loop proved equal to `NecklaceKey`, the least of the 2n dihedral images.
  - Two tuples share a key exactly when one is an image of the other.
- `vocabulary.dfy`: the atom tokens, `SUBSTITUENT_CATALOG` and the code list.
- `text.dfy`: the `str` operations used (`split('|', 1)`, `replace`, `in`, `join`, `endswith`).
- `render.dfy`: `build_smarts` and `add_ring_label`, with the rendering rules per tag and the layer-3 rendering of the core (C*, C*, N, C*, N).
- `dict.dfy`: Python's insertion-ordered `dict`.
  - A dict comprehension keeps the LAST value per key.
  - The `if key not in d` insert of `final_data` keeps the FIRST.
  - In both, a key keeps the position of its first insertion.
- `enumerate.dfy`: `itertools.product` and `itertools.combinations`, listed in the order they yield, with exact membership.
- `generation.dfy`: layers 1 to 3 and the mask deduplication. The mask loops of lines 80-87 are methods proved equal to specification functions, whose members are then characterised. The two comprehensions of lines 73 and 89 are methods over a `Dict`, specified by what their values hold: one representative per class, the last of its class.
- `assembly.dfy`: layer 4 (`final_hierarchy`) and the table loop with its cache.
- `symmetry.dfy`: rotations and reflections of the ring applied position by position. Applied alike to a core, its mask and a final pattern, they keep a mask a mask of its core and a substitution a substitution of its mask.
- `library.dfy`: the whole pipeline.
  - The table has a row for exactly the necklace classes of the patterns the stages can derive: an admissible skeleton, a centre atom, an opening of two or three marked positions, and a catalog code in each.
  - The two deduplications, of skeletons by reflection and of masks by necklace, lose no class: `symmetry.dfy` moves a dropped pattern onto one that is kept.
  - Each row is the first pattern of its class rendered at every level, and its first two levels are the generic ring.

Three behaviours of the code are easy to misread, and the model states them as the code has them:

- **Layer 2.** `layer2_smarts` equals `layer1_smarts` in every row. Line 114 always passes `('a',) + skeleton`, and line 46 returns the layer-1 constant for every pattern whose first element is `'a'` (`Assembly.AncestryOf`).
- **Open positions.** Line 56 removes `(*)` for every non-empty tag, `*` included, so an open position renders as its bare atom (`Render.RenderPositionRules`).
- **Which representative is kept.** The comprehensions at lines 73 and 89 keep the last value for each key. So each reflection class of skeletons, and each necklace class of masks, is represented by its last member in enumeration order (`Generation.Layer1Skeletons`, `Generation.UniqueMasks`).

## Model

| member | source | states |
|---|---|---|
| Lex.StrLess | substruct_generation.py:28 | Python's `<` on strings: a proper prefix is smaller, and otherwise the first differing character decides (the order lemmas below state its properties) |
| Lex.TupleLess | substruct_generation.py:28 | Python's `<` on tuples of strings: a proper prefix is smaller, and otherwise the first differing element decides by `StrLess` |
| Lex.TupleLeqAntisymmetric | substruct_generation.py:28 | Python's `<=` on tuples of strings is antisymmetric, so `min` has a single least value |
| Lex.TupleLeqTransitive | substruct_generation.py:41 | Python's `<=` on tuples of strings is transitive |
| Lex.TupleLeqTotal | substruct_generation.py:41 | any two tuples of strings are comparable |
| Canon.Reverse | substruct_generation.py:28 | `reversed(seq)`: position `i` holds position `n-1-i` of the input |
| Canon.Rotate | substruct_generation.py:39 | `s[k:] + s[:k]`: position `i` holds position `i+k` of the input, wrapping round the end |
| Canon.ReflectCanonical | substruct_generation.py:26-28 | the reflection key is the tuple or its mirror image, and is no greater than either |
| Canon.ReflectCanonicalIff | substruct_generation.py:26-28 | two tuples share a reflection key exactly when they are equal or mirror images |
| Canon.ReflectCanonicalOfReverse | substruct_generation.py:26-28 | a tuple and its mirror image have the same reflection key |
| Canon.ReflectCanonicalIdempotent | substruct_generation.py:26-28 | canonicalising a reflection key again changes nothing |
| Canon.MinOf | substruct_generation.py:41 | `min` over a non-empty list returns one of its elements that is `<=` every element |
| Canon.ImagesAreImages | substruct_generation.py:32-40 | the list `reps` holds exactly the rotations of the tuple and of its mirror image |
| Canon.NecklaceKey | substruct_generation.py:30-41 | the necklace key is a rotation or reflected rotation of the tuple and is `<=` every such image |
| Canon.CanonicalNecklace | substruct_generation.py:30-41 | the rotate-and-append loop returns the least dihedral image of the tuple |
| Canon.IsImageTransitive | substruct_generation.py:36-40 | an image of an image of a tuple is an image of that tuple |
| Canon.IsImageSymmetric | substruct_generation.py:36-40 | if `t` is an image of `s`, then `s` is an image of `t` |
| Canon.NecklaceKeyInvariant | substruct_generation.py:30-41 | every rotation or reflection of a tuple has the same necklace key |
| Canon.NecklaceKeyIffImage | substruct_generation.py:30-41 | two tuples share a necklace key exactly when one is a rotation or reflected rotation of the other |
| Canon.NecklaceKeyIdempotent | substruct_generation.py:30-41 | canonicalising a necklace key again changes nothing |
| Canon.NecklaceKeyOfRotation | substruct_generation.py:39 | every rotation of a tuple has the tuple's necklace key |
| Canon.NecklaceKeyOfReverse | substruct_generation.py:35 | the mirror image of a tuple has the tuple's necklace key |
| Vocabulary.ApplicableSubstituentsAreCatalog | substruct_generation.py:18-23 | the code list names exactly the catalog's codes |
| Vocabulary.CatalogCodesAreNotReserved | substruct_generation.py:18-22 | no catalog code is "", "H" or "*", so the three tag branches of build_smarts never overlap a code |
| Text.SplitOnce | substruct_generation.py:54 | the atom part holds no `\|`, and atom, separator and tag put back together give the position string |
| Text.SplitOnceOfJoined | substruct_generation.py:54 | splitting `atom\|tag` gives back `atom` and `tag` |
| Text.RemoveAllTrailing | substruct_generation.py:56 | removing `(*)` from a token that ends in it leaves the token's stem |
| Text.ReplaceFirst | substruct_generation.py:50 | `replace(c, r, 1)` rewrites the first occurrence of `c` only, and leaves the string unchanged when `c` is absent |
| Text.Contains | substruct_generation.py:49 | `sub in s`: `sub` occurs at some position of `s` (`Text.ContainsAppend` and `Text.NotContains` state how it behaves) |
| Text.RemoveAll | substruct_generation.py:56 | `replace(pat, "")`: every occurrence of `pat` removed, left to right; the result is never longer than the input |
| Text.Join | substruct_generation.py:64 | `sep.join(parts)`: a single part is returned as it is, and longer lists put `sep` between their parts |
| Text.EndsWith | substruct_generation.py:94 | `s.endswith(suffix)`: the last characters of `s` are `suffix` |
| Render.RenderPositionRules | substruct_generation.py:54-60 | for each tag: an untagged position is copied; any tag removes `(*)`; "H" appends the hydrogen cap; a code appends its catalog pattern |
| Render.RenderPositionReplacesMarker | substruct_generation.py:56-60 | on a token ending in `(*)`, a non-empty tag replaces the marker with nothing, the hydrogen cap or the catalog pattern |
| Render.RenderPosition | substruct_generation.py:54-60 | one position rendered; what it produces for each kind of tag is stated by `Render.RenderPositionRules` |
| Render.AddRingLabel | substruct_generation.py:48-50 | the result always contains `:1`, and a token that already contains `:1` is returned unchanged |
| Render.AddRingLabelIdempotent | substruct_generation.py:48-50 | labelling twice is labelling once |
| Render.AddRingLabelAtBracket | substruct_generation.py:50 | on any token without `:1` (other labels such as `:2` included), `:1` goes just before its first `]`, and nothing else changes |
| Render.BuildSmarts | substruct_generation.py:43-64 | the empty pattern renders as "", a pattern led by `'a'` as the layer-1 ring, and any other pattern as a string that carries the ring label |
| Render.BuildSmartsUntagged | substruct_generation.py:52-64 | an untagged core renders as its own tokens joined by `:`, with the ring label on position 0 only |
| Render.BuildSmartsFive | substruct_generation.py:52-64 | a five-position core renders position by position between `1:` and `:1` |
| Render.RenderRing | substruct_generation.py:61-64 | a pattern not led by `'a'`: the labelled first part, then `1:`, the other parts joined by `:`, and `:1`; `Render.BuildSmarts` states that the result carries the ring label |
| Render.AddRingLabelOfCStar | substruct_generation.py:50 | the `C*` token is labelled inside its bracket, giving `[#6:1](*)` |
| Render.BuildSmartsCoreExample | substruct_generation.py:61-64 | the core (C*, C*, N, C*, N) renders as `[#6:1](*)1:[#6](*):[#7+0]:[#6](*):[#7+0]:1` |
| Dict.Put | substruct_generation.py:119 | `d[k] = v`: a new key goes last in the key order, an existing key keeps its place, and the value is replaced |
| Dict.PutIfAbsent | substruct_generation.py:109 | an insert under a key already present changes nothing; otherwise the key is appended with its value |
| Dict.Values | substruct_generation.py:89 | `list(d.values())`: one value per key, in key order |
| Dict.FirstOccurrences | substruct_generation.py:73 | the key order lists every inserted key once and no other, ordered by where each key first occurs |
| Dict.PutKeepsLast | substruct_generation.py:73 | each assignment in a comprehension keeps every key at its first position, holding the value of its last occurrence |
| Dict.PutIfAbsentKeepsFirst | substruct_generation.py:109-122 | each insert-if-absent keeps every key at its first position, holding the value of its first occurrence |
| Dict.ValuesOfKeepsLast | substruct_generation.py:89 | `.values()` of a comprehension lists, for each key, the last value given for it |
| Enumerate.Product | substruct_generation.py:73 | `product(choices, repeat=n)` listed with the first position varying slowest; `Enumerate.ProductMembers` states its members |
| Enumerate.Combinations | substruct_generation.py:85 | `combinations(xs, k)` listed in the order of the positions chosen; `Enumerate.CombinationsSound` and `Enumerate.CombinationsComplete` state its members |
| Enumerate.ProductMembers | substruct_generation.py:73 | `product(choices, repeat=n)` yields exactly the length-n tuples over `choices` |
| Enumerate.CombinationsTooFew | substruct_generation.py:84 | there are no combinations of more elements than there are |
| Enumerate.CombinationsSound | substruct_generation.py:85 | every combination of an increasing list is an increasing length-k selection of its elements |
| Enumerate.CombinationsComplete | substruct_generation.py:85 | every increasing length-k selection of an increasing list's elements is one of its combinations |
| Generation.Count | substruct_generation.py:73 | `s.count(x)`: how many positions hold `x`, never more than the length |
| Generation.Admissible | substruct_generation.py:73 | the filter keeps exactly the candidates with at most two N atoms |
| Generation.SkeletonCandidatesAreSkeletons | substruct_generation.py:73 | the filtered product holds exactly the four-atom C*/N tuples with at most two N |
| Generation.KeepLastByReflection | substruct_generation.py:73 | the reflection-keyed comprehension keeps one skeleton per reflection class, the last in product order, with keys in first-occurrence order |
| Generation.Layer1Skeletons | substruct_generation.py:72-73 | every admissible skeleton has exactly one kept representative up to reflection, and only admissible skeletons are kept |
| Generation.Layer2Cores | substruct_generation.py:76-77 | entry `4*i+j` is skeleton `i` with centre `j` in front of it |
| Generation.Layer2CoresMembers | substruct_generation.py:77 | the cores are exactly the kept skeletons with a centre atom in front |
| Generation.PositionsWhere | substruct_generation.py:82 | the positions whose token passes a test, increasing, and exactly those; both position lists of lines 82 and 94 are built this way |
| Generation.FreePositions | substruct_generation.py:82 | `free_pos` is increasing and holds exactly the positions whose token contains `(*)` |
| Generation.StarPositions | substruct_generation.py:94 | `star_pos` is increasing and holds exactly the positions ending in `\|*` |
| Generation.TaggedEndsWithStar | substruct_generation.py:86 | of the three mask tags, only `*` makes a position end in `\|*` |
| Generation.MaskOf | substruct_generation.py:86 | the mask of one choice of open positions, as long as the core; `Generation.MaskOfIsMask` states what it holds |
| Generation.MaskOfIsMask | substruct_generation.py:86 | the mask of a chosen opening is a layer-3 mask of its core, and its open positions are exactly the chosen ones |
| Generation.MaskIsMaskOfOpening | substruct_generation.py:86 | conversely, every layer-3 mask of a core is the mask built at line 86 for the opening formed by its open positions |
| Generation.MaskStripsToCore | substruct_generation.py:86 | splitting off every tag of a mask gives back its core, and every mask tag is one build_smarts can render |
| Generation.MasksWithK | substruct_generation.py:85-87 | the masks appended for one core and one `k`, one per combination of `k` free positions; `Generation.MasksWithKSound` and `Generation.MasksWithKComplete` state its members |
| Generation.MasksBelow | substruct_generation.py:83-87 | the masks appended for one core while `k` runs up to a bound; `Generation.MasksOfCoreMembers` states its members |
| Generation.Layer3 | substruct_generation.py:80-87 | `layer3_masks_h` as a value, core by core; `Generation.Layer3Members` states its members |
| Generation.MasksForK | substruct_generation.py:85-87 | the inner loop appends one mask per combination of k free positions, in combination order |
| Generation.MasksOfCore | substruct_generation.py:83-87 | for one core: the masks with two open positions, then those with three |
| Generation.Layer3Masks | substruct_generation.py:80-87 | `layer3_masks_h` is, core by core, the masks of each core |
| Generation.MasksWithKSound | substruct_generation.py:85-86 | every mask for one k comes from an opening of the core |
| Generation.MasksWithKComplete | substruct_generation.py:85-86 | every opening of k free positions yields one of the masks for that k |
| Generation.MasksOfCoreMembers | substruct_generation.py:82-87 | the masks of a core are exactly the masks of its openings of two or three free positions |
| Generation.Layer3Members | substruct_generation.py:80-87 | `layer3_masks_h` holds exactly the masks of the openings of every core |
| Generation.UniqueMasks | substruct_generation.py:89 | one mask per necklace class, the last of its class, keys in first-occurrence order; every class of `layer3_masks_h` is represented |
| Generation.NecklaceComprehensionCovers | substruct_generation.py:89 | every mask's necklace class is among the kept masks |
| Assembly.Substituted | substruct_generation.py:97-99 | the final pattern the loop leaves; `Assembly.SubstitutedAt` states what each position holds |
| Assembly.SubstituteLabels | substruct_generation.py:97-99 | the overwrite loop writes label `i` at open position `i`, with the atom's tag replaced |
| Assembly.SubstitutedAt | substruct_generation.py:98-99 | label `j` lands at the `j`-th open position, and every other position keeps its mask string |
| Assembly.Labelings | substruct_generation.py:95-96 | the label tuples are exactly the tuples of catalog codes, one per open position |
| Assembly.FinalsOfMask | substruct_generation.py:94-100 | for one mask, the loop derives one final pattern per label tuple, in product order |
| Assembly.Derive | substruct_generation.py:100 | the entry appended for one label tuple: the mask's skeleton, core and mask with the substituted final pattern |
| Assembly.DeriveAll | substruct_generation.py:94-100 | the entries appended for one mask, one per label tuple; `Assembly.DeriveAllMembers` states its members |
| Assembly.FinalOf | substruct_generation.py:92-100 | `final_hierarchy` as a value, mask by mask; `Assembly.FinalOfMembers` states its members |
| Assembly.FinalHierarchy | substruct_generation.py:92-100 | `final_hierarchy` is, mask by mask, the final patterns of each unique mask |
| Assembly.DeriveIsSubstitution | substruct_generation.py:97-99 | each derived final pattern puts a catalog code in every open position of the mask and leaves the rest unchanged |
| Assembly.SubstitutionIsDerived | substruct_generation.py:96-99 | every such substitution of the mask comes from some label tuple |
| Assembly.DeriveAllMembers | substruct_generation.py:94-100 | the final patterns of a mask are exactly its substitutions |
| Assembly.FinalOfMembers | substruct_generation.py:92-100 | `final_hierarchy` holds exactly the substitutions of the unique masks, each with its skeleton and core |
| Assembly.AncestryOf | substruct_generation.py:112-117 | the cached ancestors always have layer 1 and layer 2 equal to the generic ring |
| Assembly.TableStep | substruct_generation.py:107-122 | one turn of the table loop: insert the row and fill the cache for a new class, or change nothing; the table stays a well-formed dict |
| Assembly.TableRun | substruct_generation.py:107-122 | the table and cache after the first `n` turns; the table is a well-formed dict, and `Assembly.TableRunInvariant` states what it holds |
| Assembly.TableStepNew | substruct_generation.py:109-122 | a final pattern of a new class inserts its row, with ancestors from a pattern of the same mask |
| Assembly.TableStepSeen | substruct_generation.py:109 | a final pattern whose class is already in the table changes nothing |
| Assembly.KeepsFirstSeen | substruct_generation.py:109 | a key already in `final_data` leaves it holding the first row of every class so far |
| Assembly.TableRunInvariant | substruct_generation.py:104-122 | after each turn, the table keeps the first row per class, and every cache entry holds the ancestors of a pattern with that mask |
| Assembly.BuildTable | substruct_generation.py:104-122 | one row per necklace class of `final_hierarchy`, keys in first-occurrence order; layer 5 renders the class's first pattern; ancestors come from a pattern with the same mask; when masks determine cores, every row equals a fresh rendering of the class's first pattern |
| Symmetry.Image | substruct_generation.py:36-40 | the image that rotates by `k`, after a reflection when asked: position `i` holds position `Source(n, k, mirror, i)` of the input |
| Symmetry.ImageIsImage | substruct_generation.py:36-40 | each such image is one of the images `reps` lists |
| Symmetry.ImageOf | substruct_generation.py:36-40 | every image `reps` lists is such an image, for some rotation and reflection |
| Symmetry.StarCountImage | substruct_generation.py:94 | a rotation or reflection of a mask has as many open positions as the mask |
| Symmetry.MaskImage | substruct_generation.py:86 | a rotation or reflection applied to a mask and its core gives a mask of the moved core |
| Symmetry.SubstitutionImage | substruct_generation.py:97-99 | a rotation or reflection applied to a final pattern and its mask gives a substitution of the moved mask |
| Symmetry.MirroredCore | substruct_generation.py:77 | reflecting a core and turning it to bring the centre back in front gives the centre in front of the mirrored skeleton |
| Library.DerivationWellFormed | substruct_generation.py:114-121 | build_smarts never raises KeyError on a derived pattern, and its final pattern has a necklace key |
| Library.DerivationsMaskDetermined | substruct_generation.py:111-117 | among derived patterns, equal masks have equal cores and skeletons, so the per-mask cache returns the right ancestors |
| Library.PipelineDerivation | substruct_generation.py:72-100 | every pattern in `final_hierarchy` is derived stage by stage from an admissible skeleton |
| Library.HierarchyDerivations | substruct_generation.py:92-100 | `final_hierarchy` is all derived, renderable and mask-determined |
| Library.TableRowsAreLibraryRows | substruct_generation.py:104-122 | each row is the full rendering of a derived pattern, filed under that pattern's necklace key |
| Library.Layer3StandIn | substruct_generation.py:73-87 | every derivable pattern, or its mirror image, is a substitution of a mask in `layer3_masks_h`, even when its own skeleton was dropped at line 73 |
| Library.UniqueStandIn | substruct_generation.py:89-100 | a substitution of any layer-3 mask has an image among the final patterns of the unique mask of its necklace class |
| Library.DerivationCovered | substruct_generation.py:72-100 | every derivable pattern has a final pattern in `final_hierarchy` with the same necklace key: the two deduplications lose no class |
| Library.TableCoversDerivations | substruct_generation.py:104-122 | a table keyed by the necklace keys of `final_hierarchy` has a row for the class of every derivable pattern |
| Library.GenerateHierarchicalLibrary | substruct_generation.py:68-122 | the table has a row for exactly the necklace classes of derivable patterns, keyed in the order the classes first occur in `final_hierarchy`; the skeletons are the line-73 choice (reflection keys in first-occurrence order, each the last of its class in product order) and the unique masks the line-89 choice (necklace keys in first-occurrence order over layer 3, each the last of its class); each row is the first pattern of its class rendered at every level; its first two levels are the generic ring |

## Left out

- Building the DataFrame, `sort_values` and `reset_index` (lines 124-125): the model returns `final_data`, an insertion-ordered dict of rows. Sorting the rows is not modelled.
- The `__main__` block and the CSV output (lines 127-133): these are I/O.
- The `tqdm` progress bars and `print` calls (lines 81, 93, 103, 107): these are I/O with no effect on the data.
- The sizes of the layers and the row count: the model states what each layer holds, not how many entries there are.
- Canon.CanonicalNecklace: requires a non-empty tuple, because `min` of an empty list raises. The pipeline only passes five-position tuples.
- Render.BuildSmarts: requires every tag to be "", "H", "*" or a catalog code. Any other tag raises KeyError at line 60, and that error path is not modelled as a value. `Library.DerivationWellFormed` proves that every pattern the pipeline renders meets this requirement.
- Assembly.BuildTable: equates the cached ancestors with a fresh rendering only when masks determine cores and skeletons. `Library.DerivationsMaskDetermined` proves this for the pipeline's own input.
- The meaning of the SMARTS strings is not modelled: tokens are opaque strings, and no chemistry is checked.
- The `str` operations are modelled only as far as these lines use them: `split` with one split, `replace` of a one-character pattern with a count of 1, and `replace` of `(*)` with "".
