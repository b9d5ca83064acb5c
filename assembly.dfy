/** Layer 4 and the table of generate_hierarchical_library
    (substruct_generation.py, lines 92-122): every catalog code is written
    into the open positions of every unique mask, and the final patterns
    are gathered, one per necklace class, into a table of five SMARTS
    strings whose ancestor strings are cached per mask. */
module Assembly {
  import opened Vocabulary
  import opened Text
  import opened Canon
  import opened Render
  import opened Dict
  import opened Enumerate
  import opened Generation

  /** A final pattern with the mask, core and skeleton it descends from. */
  datatype Derived = Derived(skeleton: Pattern, core: Pattern, mask: Pattern, final: Pattern)

  // ---------------------------------------------------------------- layer 4

  /** The final pattern of line 99: position `p` of the mask, for each `p`
      in `starPos`, becomes its atom tagged with the label written there
      (the last one, should `p` occur twice); the rest is the mask. */
  function Substituted(mask: Pattern, starPos: seq<int>, labels: seq<string>): (r: Pattern)
    requires |labels| >= |starPos|
    ensures |r| == |mask|
  {
    seq(|mask|, p requires 0 <= p < |mask| =>
      if p in starPos then Tagged(SplitOnce(mask[p], TagSeparator).0, labels[LastIndex(starPos, p)])
      else mask[p])
  }

  /** Lines 97-99: copy the mask, then overwrite each open position in turn. */
  method SubstituteLabels(mask: Pattern, starPos: seq<int>, labels: seq<string>) returns (finalPat: Pattern)
    requires |labels| >= |starPos|
    requires forall p :: p in starPos ==> 0 <= p < |mask|
    ensures finalPat == Substituted(mask, starPos, labels)
  {
    finalPat := mask;
    for i := 0 to |starPos|
      invariant |finalPat| == |mask|
      invariant forall p :: 0 <= p < |mask| ==>
        finalPat[p] == if p in starPos[..i]
          then Tagged(SplitOnce(mask[p], TagSeparator).0, labels[LastIndex(starPos[..i], p)])
          else mask[p]
    {
      var pos := starPos[i];
      assert pos in starPos;
      assert starPos[..i + 1] == starPos[..i] + [pos];
      finalPat := finalPat[pos := Tagged(SplitOnce(mask[pos], TagSeparator).0, labels[i])];
      forall p | 0 <= p < |mask| && p in starPos[..i] && p != pos
        ensures LastIndex(starPos[..i + 1], p) == LastIndex(starPos[..i], p)
      {
        var l := LastIndex(starPos[..i], p);
        assert starPos[..i + 1][l] == p;
      }
    }
    assert starPos[..|starPos|] == starPos;
  }

  /** With increasing open positions (as line 94 lists them), label `j`
      lands at the `j`-th open position and nothing else changes. */
  lemma SubstitutedAt(mask: Pattern, starPos: seq<int>, labels: seq<string>)
    requires |labels| == |starPos| && Increasing(starPos)
    requires forall j :: 0 <= j < |starPos| ==> 0 <= starPos[j] < |mask|
    ensures forall j :: 0 <= j < |starPos| ==>
      Substituted(mask, starPos, labels)[starPos[j]] == Tagged(SplitOnce(mask[starPos[j]], TagSeparator).0, labels[j])
    ensures forall p :: 0 <= p < |mask| && p !in starPos ==> Substituted(mask, starPos, labels)[p] == mask[p]
  {
    forall j | 0 <= j < |starPos|
      ensures LastIndex(starPos, starPos[j]) == j
    {
      assert starPos[j] in starPos;
    }
    forall j | 0 <= j < |starPos|
      ensures Substituted(mask, starPos, labels)[starPos[j]] == Tagged(SplitOnce(mask[starPos[j]], TagSeparator).0, labels[j])
    {
      assert starPos[j] in starPos;
    }
  }

  /** The final pattern of a mask under one tuple of labels. */
  function Derive(t: Triple, labels: seq<string>): Derived
    requires |labels| >= |StarPositions(t.mask)|
  {
    Derived(t.skeleton, t.core, t.mask, Substituted(t.mask, StarPositions(t.mask), labels))
  }

  /** Line 96: every tuple of catalog codes with one code per open position
      of the mask, in product order. */
  function Labelings(mask: Pattern): (ls: seq<seq<string>>)
    ensures forall l :: l in ls <==>
      |l| == |StarPositions(mask)| && forall i :: 0 <= i < |l| ==> l[i] in ApplicableSubstituents
    ensures forall j :: 0 <= j < |ls| ==> |ls[j]| == |StarPositions(mask)|
  {
    var ls := Product(ApplicableSubstituents, |StarPositions(mask)|);
    assert forall l :: l in ls <==>
      |l| == |StarPositions(mask)| && forall i :: 0 <= i < |l| ==> l[i] in ApplicableSubstituents
    by {
      forall l ensures l in ls <==>
        |l| == |StarPositions(mask)| && forall i :: 0 <= i < |l| ==> l[i] in ApplicableSubstituents
      {
        ProductMembers(ApplicableSubstituents, |StarPositions(mask)|, l);
      }
    }
    assert forall j :: 0 <= j < |ls| ==> ls[j] in ls;
    ls
  }

  /** Tuples with one label for every open position of the mask. */
  predicate FitsMask(t: Triple, ls: seq<seq<string>>)
  {
    forall j :: 0 <= j < |ls| ==> |ls[j]| >= |StarPositions(t.mask)|
  }

  /** The final patterns of one mask under the tuples `ls`, in order. */
  function DeriveEach(t: Triple, ls: seq<seq<string>>): (ds: seq<Derived>)
    requires FitsMask(t, ls)
    ensures |ds| == |ls|
  {
    if ls == [] then [] else DeriveEach(t, ls[..|ls| - 1]) + [Derive(t, ls[|ls| - 1])]
  }

  lemma {:induction false} DeriveEachAt(t: Triple, ls: seq<seq<string>>, j: nat)
    requires FitsMask(t, ls) && j < |ls|
    ensures DeriveEach(t, ls)[j] == Derive(t, ls[j])
  {
    if j < |ls| - 1 {
      DeriveEachAt(t, ls[..|ls| - 1], j);
    }
  }

  /** The final patterns of one mask, in product order. */
  function DeriveAll(t: Triple): (ds: seq<Derived>)
    ensures |ds| == |Labelings(t.mask)|
  {
    DeriveEach(t, Labelings(t.mask))
  }

  /** The `j`-th final pattern of a mask is the mask under the `j`-th tuple
      of labels. */
  lemma DeriveAllAt(t: Triple, j: nat)
    requires j < |Labelings(t.mask)|
    ensures DeriveAll(t)[j] == Derive(t, Labelings(t.mask)[j])
  {
    DeriveEachAt(t, Labelings(t.mask), j);
  }

  /** `final_hierarchy` for the given unique masks, in loop order. */
  function FinalOf(unique: seq<Triple>): seq<Derived>
  {
    if unique == [] then []
    else FinalOf(unique[..|unique| - 1]) + DeriveAll(unique[|unique| - 1])
  }

  /** Lines 95-100 for one mask: one final pattern per tuple of labels. */
  method FinalsOfMask(t: Triple) returns (ds: seq<Derived>)
    ensures ds == DeriveAll(t)
  {
    ds := [];
    var starPos := StarPositions(t.mask);
    var labelings := Labelings(t.mask);
    for j := 0 to |labelings|
      invariant ds == DeriveEach(t, labelings[..j])
    {
      var labels := labelings[j];
      LabelingFits(t.mask, labelings, j);
      var finalPat := SubstituteLabels(t.mask, starPos, labels);
      DeriveEachStep(t, labelings, j);
      ds := ds + [Derived(t.skeleton, t.core, t.mask, finalPat)];
    }
    assert labelings[..|labelings|] == labelings;
  }

  /** One more tuple of labels appends its final pattern. */
  lemma DeriveEachStep(t: Triple, ls: seq<seq<string>>, j: nat)
    requires FitsMask(t, ls) && j < |ls|
    ensures FitsMask(t, ls[..j]) && FitsMask(t, ls[..j + 1])
    ensures DeriveEach(t, ls[..j + 1]) == DeriveEach(t, ls[..j]) + [Derive(t, ls[j])]
  {
    assert ls[..j + 1][..j] == ls[..j];
  }

  /** A tuple of labels has one label per open position. */
  lemma LabelingFits(mask: Pattern, labelings: seq<seq<string>>, j: nat)
    requires labelings == Labelings(mask) && j < |labelings|
    ensures |labelings[j]| == |StarPositions(mask)|
    ensures forall p :: p in StarPositions(mask) ==> 0 <= p < |mask|
  {
    assert labelings[j] in labelings;
  }

  /** Lines 92-100: the loop over the unique masks that fills
      `final_hierarchy`. */
  method FinalHierarchy(unique: seq<Triple>) returns (hierarchy: seq<Derived>)
    ensures hierarchy == FinalOf(unique)
  {
    hierarchy := [];
    for n := 0 to |unique|
      invariant hierarchy == FinalOf(unique[..n])
    {
      var ds := FinalsOfMask(unique[n]);
      FinalOfStep(unique, n);
      hierarchy := hierarchy + ds;
    }
    assert unique[..|unique|] == unique;
  }

  /** One more mask appends its final patterns. */
  lemma FinalOfStep(unique: seq<Triple>, n: nat)
    requires n < |unique|
    ensures FinalOf(unique[..n + 1]) == FinalOf(unique[..n]) + DeriveAll(unique[n])
  {
    assert unique[..n + 1][..n] == unique[..n];
  }

  /** What line 99 promises of a final pattern: it is the mask with the tag
      of every open position replaced by a catalog code, and nothing else
      changed. */
  predicate IsSubstitutionOf(final: Pattern, mask: Pattern)
  {
    |final| == |mask| &&
    forall p :: 0 <= p < |mask| ==>
      if EndsWith(mask[p], "|*")
      then final[p] == Tagged(SplitOnce(mask[p], TagSeparator).0, TagOf(final[p])) &&
        TagOf(final[p]) in ApplicableSubstituents
      else final[p] == mask[p]
  }

  /** Every tuple of labels yields a substitution of the mask. */
  lemma DeriveIsSubstitution(t: Triple, labels: seq<string>)
    requires labels in Labelings(t.mask)
    ensures IsSubstitutionOf(Derive(t, labels).final, t.mask)
  {
    var sp := StarPositions(t.mask);
    var final := Derive(t, labels).final;
    StarPositionsInRange(t.mask);
    SubstitutedAt(t.mask, sp, labels);
    forall p | 0 <= p < |t.mask| && EndsWith(t.mask[p], "|*")
      ensures final[p] == Tagged(SplitOnce(t.mask[p], TagSeparator).0, TagOf(final[p]))
      ensures TagOf(final[p]) in ApplicableSubstituents
    {
      assert p in sp;
      var j :| 0 <= j < |sp| && sp[j] == p;
      var atom := SplitOnce(t.mask[p], TagSeparator).0;
      SplitOnceOfJoined(atom, TagSeparator, labels[j]);
    }
  }

  /** The labels a substitution writes, read back from its open positions. */
  function LabelsOf(final: Pattern, mask: Pattern): (labels: seq<string>)
    requires IsSubstitutionOf(final, mask)
    ensures labels in Labelings(mask)
  {
    var sp := StarPositions(mask);
    StarPositionsInRange(mask);
    var labels := seq(|sp|, j requires 0 <= j < |sp| => TagOf(final[sp[j]]));
    assert forall j :: 0 <= j < |sp| ==> labels[j] in ApplicableSubstituents by {
      forall j | 0 <= j < |sp| ensures labels[j] in ApplicableSubstituents {
        var p := sp[j];
        assert 0 <= p < |mask| && EndsWith(mask[p], "|*");
        assert TagOf(final[p]) in ApplicableSubstituents;
      }
    }
    labels
  }

  /** Every substitution of the mask is yielded by some tuple of labels. */
  lemma SubstitutionIsDerived(t: Triple, final: Pattern)
    requires IsSubstitutionOf(final, t.mask)
    ensures exists labels :: labels in Labelings(t.mask) && Derive(t, labels).final == final
  {
    var sp := StarPositions(t.mask);
    var labels := LabelsOf(final, t.mask);
    StarPositionsInRange(t.mask);
    SubstitutedAt(t.mask, sp, labels);
    var r := Derive(t, labels).final;
    forall p | 0 <= p < |t.mask| ensures r[p] == final[p] {
      if p in sp {
        var j :| 0 <= j < |sp| && sp[j] == p;
      }
    }
    assert r == final;
  }

  /** The final patterns of one mask are exactly its substitutions. */
  lemma DeriveAllMembers(t: Triple, d: Derived)
    ensures d in DeriveAll(t) <==>
      d.skeleton == t.skeleton && d.core == t.core && d.mask == t.mask && IsSubstitutionOf(d.final, t.mask)
  {
    if d in DeriveAll(t) {
      DeriveAllSound(t, d);
    }
    if d.skeleton == t.skeleton && d.core == t.core && d.mask == t.mask && IsSubstitutionOf(d.final, t.mask) {
      DeriveAllComplete(t, d.final);
    }
  }

  lemma DeriveAllSound(t: Triple, d: Derived)
    requires d in DeriveAll(t)
    ensures d.skeleton == t.skeleton && d.core == t.core && d.mask == t.mask && IsSubstitutionOf(d.final, t.mask)
  {
    var ls := Labelings(t.mask);
    var j :| 0 <= j < |ls| && DeriveAll(t)[j] == d;
    DeriveAllAt(t, j);
    DeriveIsSubstitution(t, ls[j]);
  }

  lemma DeriveAllComplete(t: Triple, final: Pattern)
    requires IsSubstitutionOf(final, t.mask)
    ensures Derived(t.skeleton, t.core, t.mask, final) in DeriveAll(t)
  {
    var ls := Labelings(t.mask);
    SubstitutionIsDerived(t, final);
    var labels :| labels in ls && Derive(t, labels).final == final;
    var j :| 0 <= j < |ls| && ls[j] == labels;
    DeriveAllAt(t, j);
  }

  /** `final_hierarchy` holds exactly the substitutions of the unique masks. */
  lemma {:induction false} FinalOfMembers(unique: seq<Triple>, d: Derived)
    ensures d in FinalOf(unique) <==>
      Triple(d.skeleton, d.core, d.mask) in unique && IsSubstitutionOf(d.final, d.mask)
  {
    if unique != [] {
      var n := |unique| - 1;
      assert unique == unique[..n] + [unique[n]];
      FinalOfMembers(unique[..n], d);
      DeriveAllMembers(unique[n], d);
    }
  }

  // ---------------------------------------------------------------- table

  /** The four ancestor strings cached per mask (lines 112-117). */
  datatype Ancestry = Ancestry(layer1: string, layer2: string, layer3: string, layer4: string)

  /** One row of `final_data` (lines 119-122). */
  datatype Row = Row(layer1: string, layer2: string, layer3: string, layer4: string, layer5: string)

  /** `{**ancestry, "layer5_smarts": layer5}` */
  function WithLayer5(a: Ancestry, layer5: string): Row
  {
    Row(a.layer1, a.layer2, a.layer3, a.layer4, layer5)
  }

  /** A derived pattern whose every level build_smarts can render (an
      unknown code would raise KeyError) and whose final pattern has a
      necklace key. */
  predicate WellFormed(h: Derived)
  {
    |h.final| > 0 && Renderable(h.core) && Renderable(h.mask) && Renderable(h.final)
  }

  predicate AllWellFormed(hs: seq<Derived>)
  {
    forall i :: 0 <= i < |hs| ==> WellFormed(hs[i])
  }

  /** The ancestor strings of a derived pattern, rendered afresh. Layer 2
      renders `('a',) + skeleton`, which line 46 turns into the layer-1
      string: the two always agree. */
  function AncestryOf(h: Derived): (a: Ancestry)
    requires WellFormed(h)
    ensures a.layer1 == L0Smarts && a.layer2 == L0Smarts
  {
    Ancestry(L0Smarts, BuildSmarts(["a"] + h.skeleton), BuildSmarts(h.core), BuildSmarts(h.mask))
  }

  /** The row of a derived pattern, every level rendered afresh. */
  function RowOf(h: Derived): Row
    requires WellFormed(h)
  {
    WithLayer5(AncestryOf(h), BuildSmarts(h.final))
  }

  function FinalKeys(hs: seq<Derived>): (ks: seq<Pattern>)
    requires AllWellFormed(hs)
    ensures |ks| == |hs|
    ensures forall i {:trigger ks[i]} :: 0 <= i < |hs| ==> ks[i] == NecklaceKey(hs[i].final)
  {
    seq(|hs|, i requires 0 <= i < |hs| => NecklaceKey(hs[i].final))
  }

  function Rows(hs: seq<Derived>): (rows: seq<Row>)
    requires AllWellFormed(hs)
    ensures |rows| == |hs|
    ensures forall i {:trigger rows[i]} :: 0 <= i < |hs| ==> rows[i] == RowOf(hs[i])
  {
    seq(|hs|, i requires 0 <= i < |hs| => RowOf(hs[i]))
  }

  /** Equal masks come from equal cores and skeletons, so a cache keyed by
      the mask alone returns the right ancestors. */
  predicate MaskDetermines(hs: seq<Derived>)
  {
    forall i, j :: 0 <= i < |hs| && 0 <= j < |hs| && hs[i].mask == hs[j].mask ==>
      hs[i].core == hs[j].core && hs[i].skeleton == hs[j].skeleton
  }

  /** What the loop of lines 107-122 reads of one derived pattern: its
      necklace key, its mask, its ancestors and its own rendering. */
  datatype Item = Item(key: Pattern, mask: Pattern, ancestry: Ancestry, layer5: string)

  function ItemOf(h: Derived): Item
    requires WellFormed(h)
  {
    Item(NecklaceKey(h.final), h.mask, AncestryOf(h), BuildSmarts(h.final))
  }

  function Items(hs: seq<Derived>): (items: seq<Item>)
    requires AllWellFormed(hs)
    ensures |items| == |hs|
  {
    if hs == [] then [] else Items(hs[..|hs| - 1]) + [ItemOf(hs[|hs| - 1])]
  }

  lemma {:induction false} ItemsAt(hs: seq<Derived>, i: nat)
    requires AllWellFormed(hs) && i < |hs|
    ensures Items(hs)[i] == ItemOf(hs[i])
  {
    if i < |hs| - 1 {
      ItemsAt(hs[..|hs| - 1], i);
    }
  }

  /** `vals[n]` is the row step `n` would insert, carrying the ancestors
      cached from step `src[n]`, which has the same mask. */
  ghost predicate RowsFrom(items: seq<Item>, i: nat, vals: seq<Row>, src: seq<nat>)
  {
    i <= |items| && |vals| == i && |src| == i &&
    forall n {:trigger src[n]} :: 0 <= n < i ==>
      src[n] < |items| && items[src[n]].mask == items[n].mask &&
      vals[n] == WithLayer5(items[src[n]].ancestry, items[n].layer5)
  }

  /** The table loop after `i` steps, over the keys `ks` of `items`: the
      table keeps the first of the rows `vals`. */
  ghost predicate TableSoFar(ks: seq<Pattern>, items: seq<Item>, i: nat, finalData: Dict<Pattern, Row>,
                             vals: seq<Row>, src: seq<nat>)
  {
    i <= |items| == |ks| && KeepsFirst(finalData, ks[..i], vals) && RowsFrom(items, i, vals, src)
  }

  lemma RowsFromStep(items: seq<Item>, i: nat, vals: seq<Row>, src: seq<nat>, row: Row, j: nat)
    requires RowsFrom(items, i, vals, src) && i < |items|
    requires j < |items| && items[j].mask == items[i].mask && row == WithLayer5(items[j].ancestry, items[i].layer5)
    ensures RowsFrom(items, i + 1, vals + [row], src + [j])
  {
    var vals', src' := vals + [row], src + [j];
    forall n | 0 <= n < i + 1
      ensures src'[n] < |items| && items[src'[n]].mask == items[n].mask
      ensures vals'[n] == WithLayer5(items[src'[n]].ancestry, items[n].layer5)
    {
      if n < i {
        assert src'[n] == src[n] && vals'[n] == vals[n];
      }
    }
  }

  /** `parent_smarts_cache`: each entry holds the ancestors of a pattern
      with that mask. */
  ghost predicate CacheSoFar(items: seq<Item>, cache: map<Pattern, Ancestry>, origin: map<Pattern, nat>)
  {
    (forall m :: m in cache <==> m in origin) &&
    forall m :: m in cache ==>
      origin[m] < |items| && items[origin[m]].mask == m && cache[m] == items[origin[m]].ancestry
  }

  /** Caching the ancestors of step `i` under its mask. */
  lemma CacheStep(items: seq<Item>, cache: map<Pattern, Ancestry>, origin: map<Pattern, nat>, i: nat, ancestry: Ancestry)
    requires CacheSoFar(items, cache, origin) && i < |items|
    requires ancestry == items[i].ancestry
    ensures CacheSoFar(items, cache[items[i].mask := ancestry], origin[items[i].mask := i])
  {
  }

  /** A step whose final pattern opens a new necklace class inserts its row,
      built from the ancestors of step `j`, which has the same mask. */
  lemma TableStepNew(ks: seq<Pattern>, items: seq<Item>, i: nat, finalData: Dict<Pattern, Row>,
                     vals: seq<Row>, src: seq<nat>, row: Row, j: nat)
    requires TableSoFar(ks, items, i, finalData, vals, src) && i < |items|
    requires ks[i] !in finalData.entries
    requires j < |items| && items[j].mask == items[i].mask && row == WithLayer5(items[j].ancestry, items[i].layer5)
    ensures TableSoFar(ks, items, i + 1, Put(finalData, ks[i], row), vals + [row], src + [j])
  {
    PrefixStep(ks, i);
    PutIfAbsentKeepsFirst(finalData, ks[..i], vals, ks[i], row);
    RowsFromStep(items, i, vals, src, row, j);
  }

  /** A step whose necklace class is already present changes nothing. */
  lemma TableStepSeen(ks: seq<Pattern>, items: seq<Item>, i: nat, finalData: Dict<Pattern, Row>,
                      vals: seq<Row>, src: seq<nat>)
    requires TableSoFar(ks, items, i, finalData, vals, src) && i < |items|
    requires ks[i] in finalData.entries
    ensures TableSoFar(ks, items, i + 1, finalData, vals + [WithLayer5(items[i].ancestry, items[i].layer5)], src + [i])
  {
    var row := WithLayer5(items[i].ancestry, items[i].layer5);
    PrefixStep(ks, i);
    KeepsFirstSeen(finalData, ks[..i], vals, ks[i], row);
    RowsFromStep(items, i, vals, src, row, i);
  }

  /** A key already in `final_data` leaves it as it is. */
  lemma KeepsFirstSeen(finalData: Dict<Pattern, Row>, ks: seq<Pattern>, vals: seq<Row>, k: Pattern, row: Row)
    requires KeepsFirst(finalData, ks, vals) && k in finalData.entries
    ensures KeepsFirst(finalData, ks + [k], vals + [row])
  {
    PutIfAbsentKeepsFirst(finalData, ks, vals, k, row);
  }

  /** The row under a key carries the ancestors of SOME pattern with the
      same mask as the pattern at index `n`, and that pattern's layer 5. */
  ghost predicate SharesMaskWith(hierarchy: seq<Derived>, n: nat, row: Row)
    requires AllWellFormed(hierarchy) && n < |hierarchy|
  {
    exists j :: 0 <= j < |hierarchy| && hierarchy[j].mask == hierarchy[n].mask &&
      row == WithLayer5(AncestryOf(hierarchy[j]), BuildSmarts(hierarchy[n].final))
  }

  /** The two dicts the loop of lines 107-122 updates. */
  datatype TableState = TableState(table: Dict<Pattern, Row>, cache: map<Pattern, Ancestry>)

  /** One turn of the loop: a pattern whose necklace class is new gets a
      row, its ancestors taken from the cache, which is filled on a miss. */
  function TableStep(st: TableState, it: Item): (r: TableState)
    requires Valid(st.table)
    ensures Valid(r.table)
  {
    if it.key in st.table.entries then st
    else
      var cache := if it.mask in st.cache then st.cache else st.cache[it.mask := it.ancestry];
      TableState(Put(st.table, it.key, WithLayer5(cache[it.mask], it.layer5)), cache)
  }

  /** The dicts after the first `n` turns. */
  ghost function TableRun(items: seq<Item>, n: nat): (r: TableState)
    requires n <= |items|
    ensures Valid(r.table)
  {
    if n == 0 then TableState(Empty(), map[]) else TableStep(TableRun(items, n - 1), items[n - 1])
  }

  /** What the turns so far have built, read through a ghost record of the
      rows and of where each cached entry came from. */
  lemma {:induction false} TableRunInvariant(ks: seq<Pattern>, items: seq<Item>, n: nat)
    returns (vals: seq<Row>, src: seq<nat>, origin: map<Pattern, nat>)
    requires |ks| == |items| && n <= |items|
    requires forall i :: 0 <= i < |items| ==> ks[i] == items[i].key
    ensures TableSoFar(ks, items, n, TableRun(items, n).table, vals, src)
    ensures CacheSoFar(items, TableRun(items, n).cache, origin)
  {
    if n == 0 {
      EmptyKeepsBoth<Pattern, Row>();
      assert ks[..0] == [];
      vals, src, origin := [], [], map[];
    } else {
      var i := n - 1;
      vals, src, origin := TableRunInvariant(ks, items, i);
      var st, it := TableRun(items, i), items[i];
      if it.key in st.table.entries {
        TableStepSeen(ks, items, i, st.table, vals, src);
        vals, src := vals + [WithLayer5(it.ancestry, it.layer5)], src + [i];
      } else {
        var cache := st.cache;
        if it.mask !in cache {
          CacheStep(items, cache, origin, i, it.ancestry);
          cache, origin := cache[it.mask := it.ancestry], origin[it.mask := i];
        }
        var row := WithLayer5(cache[it.mask], it.layer5);
        TableStepNew(ks, items, i, st.table, vals, src, row, origin[it.mask]);
        vals, src := vals + [row], src + [origin[it.mask]];
      }
    }
  }

  /** Lines 104-122: one pass over `final_hierarchy` that keeps the FIRST
      pattern of each necklace class and renders its ancestors once per
      mask. */
  method BuildTable(hierarchy: seq<Derived>) returns (table: Dict<Pattern, Row>)
    requires AllWellFormed(hierarchy)
    ensures Valid(table) && table.keys == FirstOccurrences(FinalKeys(hierarchy))
    ensures forall k :: k in table.entries <==> k in FinalKeys(hierarchy)
    ensures forall k :: k in table.entries ==>
      table.entries[k].layer1 == L0Smarts && table.entries[k].layer2 == L0Smarts &&
      table.entries[k].layer5 == BuildSmarts(hierarchy[FirstIndex(FinalKeys(hierarchy), k)].final)
    ensures forall k :: k in table.entries ==> SharesMaskWith(hierarchy, FirstIndex(FinalKeys(hierarchy), k), table.entries[k])
    ensures MaskDetermines(hierarchy) ==> KeepsFirst(table, FinalKeys(hierarchy), Rows(hierarchy))
  {
    ghost var items := Items(hierarchy);
    var finalData: Dict<Pattern, Row> := Empty();
    var cache: map<Pattern, Ancestry> := map[];
    for i := 0 to |hierarchy|
      invariant TableState(finalData, cache) == TableRun(items, i)
    {
      var h := hierarchy[i];
      ItemsAt(hierarchy, i);
      var key := CanonicalNecklace(h.final);
      if key !in finalData.entries {
        if h.mask !in cache {
          cache := cache[h.mask := Ancestry(L0Smarts, BuildSmarts(["a"] + h.skeleton), BuildSmarts(h.core), BuildSmarts(h.mask))];
        }
        finalData := Put(finalData, key, WithLayer5(cache[h.mask], BuildSmarts(h.final)));
      }
    }
    table := finalData;
    TableFacts(hierarchy, table);
  }

  lemma FinalKeysOfItems(hs: seq<Derived>)
    requires AllWellFormed(hs)
    ensures forall i :: 0 <= i < |hs| ==> FinalKeys(hs)[i] == Items(hs)[i].key
  {
    forall i | 0 <= i < |hs| ensures FinalKeys(hs)[i] == Items(hs)[i].key {
      ItemsAt(hs, i);
    }
  }

  /** The loop's ghost record after the last turn. */
  lemma TableDone(hierarchy: seq<Derived>) returns (vals: seq<Row>, src: seq<nat>)
    requires AllWellFormed(hierarchy)
    ensures RowsFrom(Items(hierarchy), |hierarchy|, vals, src)
    ensures KeepsFirst(TableRun(Items(hierarchy), |hierarchy|).table, FinalKeys(hierarchy), vals)
  {
    var ks := FinalKeys(hierarchy);
    FinalKeysOfItems(hierarchy);
    var origin;
    vals, src, origin := TableRunInvariant(ks, Items(hierarchy), |hierarchy|);
    assert ks[..|hierarchy|] == ks;
  }

  /** The finished table, read through the loop's ghost record. */
  lemma TableFacts(hierarchy: seq<Derived>, table: Dict<Pattern, Row>)
    requires AllWellFormed(hierarchy)
    requires table == TableRun(Items(hierarchy), |hierarchy|).table
    ensures Valid(table) && table.keys == FirstOccurrences(FinalKeys(hierarchy))
    ensures forall k :: k in table.entries <==> k in FinalKeys(hierarchy)
    ensures forall k :: k in table.entries ==>
      table.entries[k].layer1 == L0Smarts && table.entries[k].layer2 == L0Smarts &&
      table.entries[k].layer5 == BuildSmarts(hierarchy[FirstIndex(FinalKeys(hierarchy), k)].final)
    ensures forall k :: k in table.entries ==> SharesMaskWith(hierarchy, FirstIndex(FinalKeys(hierarchy), k), table.entries[k])
    ensures MaskDetermines(hierarchy) ==> KeepsFirst(table, FinalKeys(hierarchy), Rows(hierarchy))
  {
    var vals, src := TableDone(hierarchy);
    TableAncestry(hierarchy, table, vals, src);
    TableRows(hierarchy, table, vals, src);
  }

  lemma TableAncestry(hierarchy: seq<Derived>, table: Dict<Pattern, Row>, vals: seq<Row>, src: seq<nat>)
    requires AllWellFormed(hierarchy)
    requires RowsFrom(Items(hierarchy), |hierarchy|, vals, src)
    requires KeepsFirst(table, FinalKeys(hierarchy), vals)
    ensures forall k :: k in table.entries ==>
      table.entries[k].layer1 == L0Smarts && table.entries[k].layer2 == L0Smarts &&
      table.entries[k].layer5 == BuildSmarts(hierarchy[FirstIndex(FinalKeys(hierarchy), k)].final)
    ensures forall k :: k in table.entries ==> SharesMaskWith(hierarchy, FirstIndex(FinalKeys(hierarchy), k), table.entries[k])
  {
    var ks := FinalKeys(hierarchy);
    forall k | k in table.entries
      ensures table.entries[k].layer1 == L0Smarts && table.entries[k].layer2 == L0Smarts
      ensures table.entries[k].layer5 == BuildSmarts(hierarchy[FirstIndex(ks, k)].final)
      ensures SharesMaskWith(hierarchy, FirstIndex(ks, k), table.entries[k])
    {
      var n := FirstIndex(ks, k);
      var j := src[n];
      ItemsAt(hierarchy, n);
      ItemsAt(hierarchy, j);
      assert table.entries[k] == vals[n] == WithLayer5(AncestryOf(hierarchy[j]), BuildSmarts(hierarchy[n].final));
    }
  }

  lemma TableRows(hierarchy: seq<Derived>, table: Dict<Pattern, Row>, vals: seq<Row>, src: seq<nat>)
    requires AllWellFormed(hierarchy)
    requires RowsFrom(Items(hierarchy), |hierarchy|, vals, src)
    requires KeepsFirst(table, FinalKeys(hierarchy), vals)
    ensures MaskDetermines(hierarchy) ==> KeepsFirst(table, FinalKeys(hierarchy), Rows(hierarchy))
  {
    if MaskDetermines(hierarchy) {
      assert vals == Rows(hierarchy) by {
        forall n | 0 <= n < |hierarchy| ensures vals[n] == RowOf(hierarchy[n]) {
          var j := src[n];
          ItemsAt(hierarchy, n);
          ItemsAt(hierarchy, j);
          assert hierarchy[j].core == hierarchy[n].core && hierarchy[j].skeleton == hierarchy[n].skeleton;
          assert AncestryOf(hierarchy[j]) == AncestryOf(hierarchy[n]);
        }
      }
    }
  }
}
