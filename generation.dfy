/** The generation stages of generate_hierarchical_library
    (substruct_generation.py, lines 72-89): layer-1 skeletons, layer-2
    cores, layer-3 masks and their deduplication by necklace key. */
module Generation {
  import opened Vocabulary
  import opened Text
  import opened Canon
  import opened Render
  import opened Dict
  import opened Enumerate

  /** A mask together with the core and skeleton it was built from. */
  datatype Triple = Triple(skeleton: Pattern, core: Pattern, mask: Pattern)

  /** `s.count(x)` */
  function Count(s: Pattern, x: string): (n: nat)
    ensures n <= |s|
  {
    if s == [] then 0 else Count(s[..|s| - 1], x) + (if s[|s| - 1] == x then 1 else 0)
  }

  /** A layer-1 skeleton: four ring atoms, each C* or N, at most two N. */
  predicate IsSkeleton(s: Pattern)
  {
    |s| == 4 && (forall i :: 0 <= i < |s| ==> s[i] in SkeletonChoices) && Count(s, NNoStar) <= 2
  }

  // ---------------------------------------------------------------- layer 1

  /** The candidates the comprehension at line 73 visits, in product order:
      those with at most two N. */
  function Admissible(cands: seq<Pattern>): (r: seq<Pattern>)
    ensures forall s :: s in r <==> s in cands && Count(s, NNoStar) <= 2
  {
    if cands == [] then []
    else
      var last := cands[|cands| - 1];
      assert cands == cands[..|cands| - 1] + [last];
      Admissible(cands[..|cands| - 1]) + (if Count(last, NNoStar) <= 2 then [last] else [])
  }

  /** All candidate skeletons, `product(choices, repeat=4)` filtered. */
  function SkeletonCandidates(): seq<Pattern>
  {
    Admissible(Product(SkeletonChoices, 4))
  }

  /** The reflection key of each skeleton. */
  function ReflectKeys(ss: seq<Pattern>): (ks: seq<Pattern>)
    ensures |ks| == |ss|
    ensures forall i :: 0 <= i < |ss| ==> ks[i] == ReflectCanonical(ss[i])
  {
    seq(|ss|, i requires 0 <= i < |ss| => ReflectCanonical(ss[i]))
  }

  lemma ReflectKeysAppend(ss: seq<Pattern>, s: Pattern)
    ensures ReflectKeys(ss + [s]) == ReflectKeys(ss) + [ReflectCanonical(s)]
  {
  }

  lemma SkeletonCandidatesAreSkeletons(s: Pattern)
    ensures s in SkeletonCandidates() <==> IsSkeleton(s)
  {
    ProductMembers(SkeletonChoices, 4, s);
  }

  /** `t` is the last of `cands` with its reflection key. */
  ghost predicate LastOfReflectClass(cands: seq<Pattern>, t: Pattern)
  {
    exists m :: 0 <= m < |cands| && cands[m] == t &&
      forall j :: m < j < |cands| ==> ReflectCanonical(cands[j]) != ReflectCanonical(t)
  }

  /** The dict comprehension of line 73 over `candidates`: the admissible
      candidates are listed in the order their keys first occur, each the
      LAST admissible candidate with its key. */
  method KeepLastByReflection(candidates: seq<Pattern>) returns (skeletons: seq<Pattern>)
    ensures ReflectKeys(skeletons) == FirstOccurrences(ReflectKeys(Admissible(candidates)))
    ensures forall t :: t in skeletons ==> LastOfReflectClass(Admissible(candidates), t)
    ensures forall s :: s in skeletons ==> s in Admissible(candidates)
    ensures forall i, j :: 0 <= i < j < |skeletons| ==> ReflectCanonical(skeletons[i]) != ReflectCanonical(skeletons[j])
    ensures forall s :: s in Admissible(candidates) ==> exists t :: t in skeletons && ReflectCanonical(t) == ReflectCanonical(s)
  {
    var d: Dict<Pattern, Pattern> := Empty();
    ghost var kept: seq<Pattern> := [];
    EmptyKeepsBoth<Pattern, Pattern>();
    for i := 0 to |candidates|
      invariant kept == Admissible(candidates[..i])
      invariant KeepsLast(d, ReflectKeys(kept), kept)
    {
      var s := candidates[i];
      PrefixStep(candidates, i);
      if Count(s, NNoStar) <= 2 {
        PutKeepsLast(d, ReflectKeys(kept), kept, ReflectCanonical(s), s);
        ReflectKeysAppend(kept, s);
        d := Put(d, ReflectCanonical(s), s);
        kept := kept + [s];
      }
    }
    assert candidates[..|candidates|] == candidates;
    skeletons := Values(d);
    ReflectComprehensionValues(d, kept);
  }

  /** What the values of the comprehension keyed by reflection are. */
  lemma ReflectComprehensionValues(d: Dict<Pattern, Pattern>, kept: seq<Pattern>)
    requires KeepsLast(d, ReflectKeys(kept), kept)
    ensures ReflectKeys(Values(d)) == FirstOccurrences(ReflectKeys(kept))
    ensures forall t :: t in Values(d) ==> LastOfReflectClass(kept, t)
    ensures forall t :: t in Values(d) ==> t in kept
    ensures forall i, j :: 0 <= i < j < |Values(d)| ==> ReflectCanonical(Values(d)[i]) != ReflectCanonical(Values(d)[j])
    ensures forall s :: s in kept ==> exists t :: t in Values(d) && ReflectCanonical(t) == ReflectCanonical(s)
  {
    var skeletons, ks := Values(d), ReflectKeys(kept);
    forall i | 0 <= i < |skeletons|
      ensures ReflectCanonical(skeletons[i]) == d.keys[i]
      ensures LastOfReflectClass(kept, skeletons[i])
    {
      ReflectValueAt(d, kept, i);
    }
    assert ReflectKeys(skeletons) == d.keys;
    forall s | s in kept ensures exists t :: t in skeletons && ReflectCanonical(t) == ReflectCanonical(s) {
      var m :| 0 <= m < |kept| && kept[m] == s;
      ReflectClassKept(d, kept, m);
    }
  }

  /** The value at index `i` is filed under its own reflection key, and is
      the last candidate with that key. */
  lemma ReflectValueAt(d: Dict<Pattern, Pattern>, kept: seq<Pattern>, i: nat)
    requires KeepsLast(d, ReflectKeys(kept), kept) && i < |d.keys|
    ensures i < |Values(d)| && ReflectCanonical(Values(d)[i]) == d.keys[i]
    ensures LastOfReflectClass(kept, Values(d)[i])
  {
    var ks := ReflectKeys(kept);
    ValuesOfKeepsLast(d, ks, kept, i);
    var m := LastIndex(ks, d.keys[i]);
    assert kept[m] == Values(d)[i];
  }

  /** The candidate at index `m` has its reflection class among the values. */
  lemma ReflectClassKept(d: Dict<Pattern, Pattern>, kept: seq<Pattern>, m: nat)
    requires KeepsLast(d, ReflectKeys(kept), kept) && m < |kept|
    ensures exists t :: t in Values(d) && ReflectCanonical(t) == ReflectCanonical(kept[m])
  {
    var skeletons, ks := Values(d), ReflectKeys(kept);
    assert ks[m] in d.entries;
    var i :| 0 <= i < |d.keys| && d.keys[i] == ks[m];
    ValuesOfKeepsLast(d, ks, kept, i);
    var l := LastIndex(ks, d.keys[i]);
    assert skeletons[i] == kept[l] && ReflectCanonical(kept[l]) == ks[m];
    assert skeletons[i] in skeletons;
  }

  /** Line 73: the admissible four-atom candidates, keyed by their
      reflection key and listed by value. Every skeleton is kept up to
      reflection, exactly once, and each kept one is the last of its class in
      product order. */
  method Layer1Skeletons() returns (skeletons: seq<Pattern>)
    ensures ReflectKeys(skeletons) == FirstOccurrences(ReflectKeys(SkeletonCandidates()))
    ensures forall t :: t in skeletons ==> LastOfReflectClass(SkeletonCandidates(), t)
    ensures forall s :: s in skeletons ==> IsSkeleton(s)
    ensures forall i, j :: 0 <= i < j < |skeletons| ==> ReflectCanonical(skeletons[i]) != ReflectCanonical(skeletons[j])
    ensures forall s :: IsSkeleton(s) ==> exists t :: t in skeletons && ReflectCanonical(t) == ReflectCanonical(s)
  {
    skeletons := KeepLastByReflection(Product(SkeletonChoices, 4));
    forall s | s in skeletons ensures IsSkeleton(s) {
      SkeletonCandidatesAreSkeletons(s);
    }
    forall s | IsSkeleton(s) ensures exists t :: t in skeletons && ReflectCanonical(t) == ReflectCanonical(s) {
      SkeletonCandidatesAreSkeletons(s);
    }
  }

  // ---------------------------------------------------------------- layer 2

  /** The cores of one skeleton: each centre, in order, in front of it. */
  function CoresOf(skel: Pattern): (cores: seq<(Pattern, Pattern)>)
    ensures |cores| == 4
    ensures forall j :: 0 <= j < 4 ==> cores[j] == (skel, [Centers[j]] + skel)
  {
    seq(4, j requires 0 <= j < 4 => (skel, [Centers[j]] + skel))
  }

  /** Line 77: each skeleton, in order, paired with every centre atom put in
      front of it, centres in their listed order. */
  function Layer2Cores(skeletons: seq<Pattern>): (cores: seq<(Pattern, Pattern)>)
    ensures |cores| == 4 * |skeletons|
    ensures forall i, j :: 0 <= i < |skeletons| && 0 <= j < 4 ==>
      cores[4 * i + j] == (skeletons[i], [Centers[j]] + skeletons[i])
  {
    if skeletons == [] then []
    else CoresOf(skeletons[0]) + Layer2Cores(skeletons[1..])
  }

  /** The cores are exactly the skeletons with a centre in front. */
  lemma {:induction false} Layer2CoresMembers(skeletons: seq<Pattern>, c: (Pattern, Pattern))
    ensures c in Layer2Cores(skeletons) <==>
      c.0 in skeletons && |c.1| > 0 && c.1[0] in Centers && c.1[1..] == c.0
    decreases |skeletons|
  {
    if skeletons != [] {
      Layer2CoresMembers(skeletons[1..], c);
      assert skeletons == [skeletons[0]] + skeletons[1..];
      if c.0 == skeletons[0] && |c.1| > 0 && c.1[0] in Centers && c.1[1..] == c.0 {
        var j :| 0 <= j < 4 && Centers[j] == c.1[0];
        assert c.1 == [c.1[0]] + c.1[1..];
        assert CoresOf(skeletons[0])[j] == c;
      }
    }
  }

  // ---------------------------------------------------------------- layer 3

  /** The positions of `s` whose token satisfies `f`, in increasing order. */
  function PositionsWhere(s: Pattern, f: string -> bool): (r: seq<int>)
    ensures Increasing(r)
    ensures forall i :: i in r <==> 0 <= i < |s| && f(s[i])
  {
    if s == [] then []
    else
      var n := |s| - 1;
      var r0 := PositionsWhere(s[..n], f);
      assert forall i :: 0 <= i < n ==> s[..n][i] == s[i];
      assert forall i :: 0 <= i < |r0| ==> r0[i] < n by {
        forall i | 0 <= i < |r0| ensures r0[i] < n {
          assert r0[i] in r0;
        }
      }
      if f(s[n]) then r0 + [n] else r0
  }

  /** Line 82: the positions of `core` whose token carries the open-valence
      marker, in increasing order. */
  function FreePositions(core: Pattern): (r: seq<int>)
    ensures Increasing(r)
    ensures forall i :: i in r <==> 0 <= i < |core| && Contains(core[i], Marker)
  {
    PositionsWhere(core, t => Contains(t, Marker))
  }

  /** Line 94: the positions of `mask` tagged open (`|*`), in increasing
      order. */
  function StarPositions(mask: Pattern): (r: seq<int>)
    ensures Increasing(r)
    ensures forall i :: i in r <==> 0 <= i < |mask| && EndsWith(mask[i], "|*")
  {
    PositionsWhere(mask, t => EndsWith(t, "|*"))
  }

  lemma StarPositionsInRange(mask: Pattern)
    ensures forall j :: 0 <= j < |StarPositions(mask)| ==>
      0 <= StarPositions(mask)[j] < |mask| && EndsWith(mask[StarPositions(mask)[j]], "|*")
  {
    var r := StarPositions(mask);
    forall j | 0 <= j < |r| ensures 0 <= r[j] < |mask| && EndsWith(mask[r[j]], "|*") {
      assert r[j] in r;
    }
  }

  /** The choices of open positions line 85 enumerates: two or three free
      positions, in increasing order. */
  predicate IsOpening(core: Pattern, indices: seq<int>)
  {
    Increasing(indices) && 2 <= |indices| <= 3 &&
    forall x :: x in indices ==> 0 <= x < |core| && Contains(core[x], Marker)
  }

  /** Line 86: the mask that opens `indices` (`|*`), caps the other free
      positions with hydrogen (`|H`) and leaves the rest untagged (`|`). */
  function MaskOf(core: Pattern, indices: seq<int>): (mask: Pattern)
    ensures |mask| == |core|
  {
    seq(|core|, i requires 0 <= i < |core| =>
      if i in indices then Tagged(core[i], "*")
      else if Contains(core[i], Marker) then Tagged(core[i], "H")
      else Tagged(core[i], ""))
  }

  /** A layer-3 mask of `core`: two or three marked positions are open, the
      other marked positions carry hydrogen, the unmarked ones no tag. */
  predicate IsMaskOf(mask: Pattern, core: Pattern)
  {
    |mask| == |core| &&
    (forall i :: 0 <= i < |core| ==>
      (Contains(core[i], Marker) && (mask[i] == Tagged(core[i], "*") || mask[i] == Tagged(core[i], "H"))) ||
      (!Contains(core[i], Marker) && mask[i] == Tagged(core[i], ""))) &&
    2 <= |StarPositions(mask)| <= 3
  }

  /** Only the open tag makes a position end in `|*`. */
  lemma TaggedEndsWithStar(atom: string, tag: string)
    requires tag == "*" || tag == "H" || tag == ""
    ensures EndsWith(Tagged(atom, tag), "|*") <==> tag == "*"
  {
    var p := Tagged(atom, tag);
    if tag != "*" {
      assert p[|p| - 1] != '*';
      if |p| >= 2 {
        assert p[|p| - 2..][1] == p[|p| - 1];
      }
    }
  }

  /** The mask of an opening is a mask of its core, and its open positions
      are exactly the opening. */
  lemma MaskOfIsMask(core: Pattern, indices: seq<int>)
    requires IsOpening(core, indices)
    ensures IsMaskOf(MaskOf(core, indices), core)
    ensures StarPositions(MaskOf(core, indices)) == indices
  {
    var mask := MaskOf(core, indices);
    forall i | 0 <= i < |core| ensures EndsWith(mask[i], "|*") <==> i in indices {
      if i in indices {
        TaggedEndsWithStar(core[i], "*");
      } else if Contains(core[i], Marker) {
        TaggedEndsWithStar(core[i], "H");
      } else {
        TaggedEndsWithStar(core[i], "");
      }
    }
    IncreasingSameMembers(StarPositions(mask), indices);
  }

  /** Conversely, every layer-3 mask of a core is the mask of the opening
      formed by its open positions. */
  lemma MaskIsMaskOfOpening(mask: Pattern, core: Pattern)
    requires IsMaskOf(mask, core)
    ensures IsOpening(core, StarPositions(mask))
    ensures MaskOf(core, StarPositions(mask)) == mask
  {
    var sp := StarPositions(mask);
    forall i | 0 <= i < |core|
      ensures i in sp <==> Contains(core[i], Marker) && mask[i] == Tagged(core[i], "*")
    {
      TaggedEndsWithStar(core[i], "*");
      TaggedEndsWithStar(core[i], "H");
      TaggedEndsWithStar(core[i], "");
    }
    forall i | 0 <= i < |core| ensures MaskOf(core, sp)[i] == mask[i] {
      TaggedEndsWithStar(core[i], "*");
      TaggedEndsWithStar(core[i], "H");
    }
  }

  /** `mask[i].split('|')[0]` for every position: the atom without its tag. */
  function Atoms(mask: Pattern): (atoms: Pattern)
    ensures |atoms| == |mask| && Untagged(atoms)
    ensures forall i :: 0 <= i < |mask| ==> atoms[i] == SplitOnce(mask[i], TagSeparator).0
  {
    seq(|mask|, i requires 0 <= i < |mask| => SplitOnce(mask[i], TagSeparator).0)
  }

  /** Stripping the tags of a mask gives back its core, and every tag of a
      mask is one build_smarts can render. */
  lemma MaskStripsToCore(mask: Pattern, core: Pattern)
    requires IsMaskOf(mask, core) && Untagged(core)
    ensures Atoms(mask) == core
    ensures Renderable(mask)
  {
    forall i | 0 <= i < |core| ensures SplitOnce(mask[i], TagSeparator).0 == core[i] && KnownTag(TagOf(mask[i])) {
      var tag := SplitOnce(mask[i], TagSeparator).1;
      if mask[i] == Tagged(core[i], "*") {
        RenderPositionRules(core[i], "*");
      } else if mask[i] == Tagged(core[i], "H") {
        RenderPositionRules(core[i], "H");
      } else {
        RenderPositionRules(core[i], "");
      }
      SplitOnceOfJoined(core[i], TagSeparator, SplitOnce(mask[i], TagSeparator).1);
    }
  }

  /** The masks lines 85-87 append for one core and one `k`, in
      `combinations` order. */
  function MasksWithK(skel: Pattern, core: Pattern, k: nat): (r: seq<Triple>)
  {
    var free := FreePositions(core);
    if |free| < k then []
    else
      var combos := Combinations(free, k);
      seq(|combos|, m requires 0 <= m < |combos| => Triple(skel, core, MaskOf(core, combos[m])))
  }

  /** The masks of one core for the values of `k` below `bound`, from 2 up. */
  function MasksBelow(skel: Pattern, core: Pattern, bound: nat): seq<Triple>
  {
    if bound <= 2 then [] else MasksBelow(skel, core, bound - 1) + MasksWithK(skel, core, bound - 1)
  }

  /** `layer3_masks_h` for the given cores: for each core in order, the masks
      with two open positions, then those with three. */
  function Layer3(cores: seq<(Pattern, Pattern)>): seq<Triple>
  {
    if cores == [] then []
    else
      var last := cores[|cores| - 1];
      Layer3(cores[..|cores| - 1]) + MasksBelow(last.0, last.1, 4)
  }

  /** Lines 85-87 for one core and one `k`: a mask for every combination
      of `k` free positions, in `combinations` order. */
  method MasksForK(skel: Pattern, core: Pattern, freePos: seq<int>, k: nat) returns (masks: seq<Triple>)
    requires freePos == FreePositions(core) && k <= |freePos|
    ensures masks == MasksWithK(skel, core, k)
  {
    var combos := Combinations(freePos, k);
    ghost var ms := MasksWithK(skel, core, k);
    masks := [];
    for m := 0 to |combos|
      invariant masks == ms[..m]
    {
      var mask := MaskOf(core, combos[m]);
      assert ms[..m + 1] == ms[..m] + [Triple(skel, core, mask)];
      masks := masks + [Triple(skel, core, mask)];
    }
  }

  /** Lines 83-87 for one core: its masks with two open positions, then
      those with three. */
  method MasksOfCore(skel: Pattern, core: Pattern) returns (masks: seq<Triple>)
    ensures masks == MasksBelow(skel, core, 4)
  {
    masks := [];
    var freePos := FreePositions(core);
    for k := 2 to 4
      invariant masks == MasksBelow(skel, core, k)
    {
      MasksBelowStep(skel, core, k);
      if |freePos| >= k {
        var ms := MasksForK(skel, core, freePos, k);
        masks := masks + ms;
      }
    }
  }

  /** One more `k` appends its masks, none when there are too few free
      positions. */
  lemma MasksBelowStep(skel: Pattern, core: Pattern, k: nat)
    requires k >= 2
    ensures |FreePositions(core)| < k ==> MasksBelow(skel, core, k + 1) == MasksBelow(skel, core, k)
    ensures |FreePositions(core)| >= k ==> MasksBelow(skel, core, k + 1) == MasksBelow(skel, core, k) + MasksWithK(skel, core, k)
  {
  }

  /** Lines 80-87: the loop over the cores that fills `layer3_masks_h`. */
  method Layer3Masks(cores: seq<(Pattern, Pattern)>) returns (masks: seq<Triple>)
    ensures masks == Layer3(cores)
  {
    masks := [];
    for n := 0 to |cores|
      invariant masks == Layer3(cores[..n])
    {
      var (skel, core) := cores[n];
      var ms := MasksOfCore(skel, core);
      masks := masks + ms;
      assert cores[..n + 1][..n] == cores[..n];
    }
    assert cores[..|cores|] == cores;
  }

  /** Every mask of one core for one `k` is the mask of an opening of size
      `k`. */
  lemma MasksWithKSound(skel: Pattern, core: Pattern, k: nat, t: Triple)
    requires 2 <= k <= 3 && t in MasksWithK(skel, core, k)
    ensures t.skeleton == skel && t.core == core && HasOpening(t)
  {
    var free := FreePositions(core);
    var combos := Combinations(free, k);
    var m :| 0 <= m < |combos| && MasksWithK(skel, core, k)[m] == t;
    CombinationsSound(free, k, combos[m]);
    assert IsOpening(core, combos[m]);
  }

  /** Every opening of size `k` of a core gives one of its masks for `k`. */
  lemma MasksWithKComplete(skel: Pattern, core: Pattern, indices: seq<int>)
    requires IsOpening(core, indices)
    ensures Triple(skel, core, MaskOf(core, indices)) in MasksWithK(skel, core, |indices|)
  {
    var k := |indices|;
    var free := FreePositions(core);
    forall i | 0 <= i < |indices| ensures indices[i] in free {
      var x := indices[i];
      assert x in indices;
      assert 0 <= x < |core| && Contains(core[x], Marker);
    }
    CombinationsComplete(free, k, indices);
    var combos := Combinations(free, k);
    var m :| 0 <= m < |combos| && combos[m] == indices;
    CombinationsTooFew(free, k);
    assert MasksWithK(skel, core, k)[m] == Triple(skel, core, MaskOf(core, indices));
  }

  /** The mask of `t` opens two or three marked positions of its core. */
  ghost predicate HasOpening(t: Triple)
  {
    exists indices :: IsOpening(t.core, indices) && t.mask == MaskOf(t.core, indices)
  }

  /** The masks of one core are exactly the masks of its openings. */
  lemma MasksOfCoreMembers(skel: Pattern, core: Pattern, t: Triple)
    ensures t in MasksBelow(skel, core, 4) <==> t.skeleton == skel && t.core == core && HasOpening(t)
  {
    var two, three := MasksWithK(skel, core, 2), MasksWithK(skel, core, 3);
    assert MasksBelow(skel, core, 3) == [] + two == two;
    assert MasksBelow(skel, core, 4) == two + three;
    if t in two {
      MasksWithKSound(skel, core, 2, t);
    } else if t in three {
      MasksWithKSound(skel, core, 3, t);
    }
    if t.skeleton == skel && t.core == core && HasOpening(t) {
      var indices :| IsOpening(core, indices) && t.mask == MaskOf(core, indices);
      MasksWithKComplete(skel, core, indices);
    }
  }

  /** Every layer-3 entry is a mask of one of the cores, and every opening
      of every core gives one. */
  lemma {:induction false} Layer3Members(cores: seq<(Pattern, Pattern)>, t: Triple)
    ensures t in Layer3(cores) <==> (t.skeleton, t.core) in cores && HasOpening(t)
  {
    if cores != [] {
      var n := |cores| - 1;
      var init, last := cores[..n], cores[n];
      var mine := MasksBelow(last.0, last.1, 4);
      assert Layer3(cores) == Layer3(init) + mine;
      assert t in Layer3(cores) <==> t in Layer3(init) || t in mine;
      Layer3Members(init, t);
      MasksOfCoreMembers(last.0, last.1, t);
      assert cores == init + [last];
      assert (t.skeleton, t.core) in cores <==> (t.skeleton, t.core) in init || (t.skeleton, t.core) == last;
    }
  }

  // ------------------------------------------------------ unique masks

  predicate NonEmptyMasks(ts: seq<Triple>)
  {
    forall t :: t in ts ==> |t.mask| > 0
  }

  /** The necklace key of each mask. */
  function MaskKeys(ts: seq<Triple>): (ks: seq<Pattern>)
    requires NonEmptyMasks(ts)
    ensures |ks| == |ts|
    ensures forall i :: 0 <= i < |ts| ==> ks[i] == NecklaceKey(ts[i].mask)
  {
    seq(|ts|, i requires 0 <= i < |ts| => NecklaceKey(ts[i].mask))
  }

  lemma MaskKeysAppend(ts: seq<Triple>, t: Triple)
    requires NonEmptyMasks(ts + [t])
    ensures NonEmptyMasks(ts) && MaskKeys(ts + [t]) == MaskKeys(ts) + [NecklaceKey(t.mask)]
  {
    assert forall u :: u in ts ==> u in ts + [t];
  }

  /** `ts[m]` is the last of `ts` with its necklace key. */
  ghost predicate LastOfNecklaceClass(ts: seq<Triple>, m: nat)
    requires NonEmptyMasks(ts)
  {
    m < |ts| && forall j :: m < j < |ts| ==> NecklaceKey(ts[j].mask) != NecklaceKey(ts[m].mask)
  }

  /** Line 89: the triples keyed by the necklace key of their mask, then
      listed by value: the masks in the order their necklace keys first
      occur, each the LAST with its key, so one per necklace class. */
  method UniqueMasks(masks: seq<Triple>) returns (unique: seq<Triple>)
    requires NonEmptyMasks(masks)
    ensures forall u :: u in unique ==> u in masks
    ensures NonEmptyMasks(unique) && MaskKeys(unique) == FirstOccurrences(MaskKeys(masks))
    ensures forall u :: u in unique ==> exists m: nat :: m < |masks| && masks[m] == u && LastOfNecklaceClass(masks, m)
    ensures forall i, j :: 0 <= i < j < |unique| ==> NecklaceKey(unique[i].mask) != NecklaceKey(unique[j].mask)
    ensures forall t :: t in masks ==> exists u :: u in unique && NecklaceKey(u.mask) == NecklaceKey(t.mask)
  {
    var d: Dict<Pattern, Triple> := Empty();
    EmptyKeepsBoth<Pattern, Triple>();
    for i := 0 to |masks|
      invariant NonEmptyMasks(masks[..i])
      invariant KeepsLast(d, MaskKeys(masks[..i]), masks[..i])
    {
      var t := masks[i];
      PrefixStep(masks, i);
      var key := CanonicalNecklace(t.mask);
      PutKeepsLast(d, MaskKeys(masks[..i]), masks[..i], key, t);
      MaskKeysAppend(masks[..i], t);
      d := Put(d, key, t);
    }
    assert masks[..|masks|] == masks;
    unique := Values(d);
    NecklaceComprehensionValues(d, masks);
    NecklaceComprehensionCovers(d, masks);
  }

  /** What the values of the comprehension keyed by necklace are. */
  lemma NecklaceComprehensionValues(d: Dict<Pattern, Triple>, masks: seq<Triple>)
    requires NonEmptyMasks(masks) && KeepsLast(d, MaskKeys(masks), masks)
    ensures forall u :: u in Values(d) ==> u in masks
    ensures NonEmptyMasks(Values(d)) && MaskKeys(Values(d)) == FirstOccurrences(MaskKeys(masks))
    ensures forall u :: u in Values(d) ==> exists m: nat :: m < |masks| && masks[m] == u && LastOfNecklaceClass(masks, m)
    ensures forall i, j :: 0 <= i < j < |Values(d)| ==> NecklaceKey(Values(d)[i].mask) != NecklaceKey(Values(d)[j].mask)
  {
    var unique, ks := Values(d), MaskKeys(masks);
    forall i | 0 <= i < |unique|
      ensures unique[i] in masks && NecklaceKey(unique[i].mask) == d.keys[i]
      ensures exists m: nat :: m < |masks| && masks[m] == unique[i] && LastOfNecklaceClass(masks, m)
    {
      ValuesOfKeepsLast(d, ks, masks, i);
      var m := LastIndex(ks, d.keys[i]);
      assert masks[m] == unique[i] && LastOfNecklaceClass(masks, m);
    }
    assert MaskKeys(unique) == d.keys;
  }

  /** Every mask's necklace class is represented among the values. */
  lemma NecklaceComprehensionCovers(d: Dict<Pattern, Triple>, masks: seq<Triple>)
    requires NonEmptyMasks(masks) && KeepsLast(d, MaskKeys(masks), masks)
    ensures forall t :: t in masks ==> exists u :: u in Values(d) && NecklaceKey(u.mask) == NecklaceKey(t.mask)
  {
    forall t | t in masks ensures exists u :: u in Values(d) && NecklaceKey(u.mask) == NecklaceKey(t.mask) {
      var m :| 0 <= m < |masks| && masks[m] == t;
      NecklaceClassKept(d, masks, m);
    }
  }

  /** The mask at index `m` has its necklace class among the values. */
  lemma NecklaceClassKept(d: Dict<Pattern, Triple>, masks: seq<Triple>, m: nat)
    requires NonEmptyMasks(masks) && KeepsLast(d, MaskKeys(masks), masks) && m < |masks|
    ensures exists u :: u in Values(d) && NecklaceKey(u.mask) == NecklaceKey(masks[m].mask)
  {
    var unique, ks := Values(d), MaskKeys(masks);
    assert ks[m] in d.entries;
    var i :| 0 <= i < |d.keys| && d.keys[i] == ks[m];
    ValuesOfKeepsLast(d, ks, masks, i);
    var l := LastIndex(ks, d.keys[i]);
    assert unique[i] == masks[l] && NecklaceKey(masks[l].mask) == ks[m];
    assert unique[i] in unique;
  }
}
