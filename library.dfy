/** generate_hierarchical_library end to end (substruct_generation.py,
    lines 67-122): the five stages composed, and what the finished table
    holds. */
module Library {
  import opened Vocabulary
  import opened Text
  import opened Canon
  import opened Render
  import opened Dict
  import opened Enumerate
  import opened Generation
  import opened Assembly
  import opened Symmetry

  /** The ring tokens carry no tag separator. */
  lemma TokensUntagged()
    ensures forall t :: t in SkeletonChoices ==> TagSeparator !in t
    ensures forall t :: t in Centers ==> TagSeparator !in t
  {
  }

  /** A pattern the pipeline can derive, stage by stage: an admissible
      skeleton, a centre atom in front of it, an opening of two or three of
      its marked positions, and a catalog code in every opened position. */
  predicate IsDerivation(h: Derived)
  {
    IsSkeleton(h.skeleton) &&
    |h.core| == 5 && h.core[0] in Centers && h.core[1..] == h.skeleton &&
    IsMaskOf(h.mask, h.core) &&
    IsSubstitutionOf(h.final, h.mask)
  }

  lemma DerivationCoreUntagged(h: Derived)
    requires IsDerivation(h)
    ensures Untagged(h.core)
  {
    TokensUntagged();
    forall i | 0 <= i < |h.core| ensures TagSeparator !in h.core[i] {
      if i > 0 {
        assert h.core[i] == h.skeleton[i - 1];
      }
    }
  }

  /** build_smarts renders every level of a derived pattern: the core and
      the mask carry no unknown tag, and every opened position a catalog
      code. */
  lemma DerivationWellFormed(h: Derived)
    requires IsDerivation(h)
    ensures WellFormed(h)
  {
    DerivationCoreUntagged(h);
    forall i | 0 <= i < |h.core| ensures KnownTag(TagOf(h.core[i])) {
      RenderPositionRules(h.core[i], "");
    }
    MaskStripsToCore(h.mask, h.core);
    ApplicableSubstituentsAreCatalog();
    forall p | 0 <= p < |h.final| ensures KnownTag(TagOf(h.final[p])) {
      assert KnownTag(TagOf(h.mask[p]));
    }
  }

  /** A mask determines its core and skeleton: stripping its tags gives
      the core back, and the skeleton is the core without its centre. */
  lemma DerivationsMaskDetermined(hs: seq<Derived>)
    requires forall i :: 0 <= i < |hs| ==> IsDerivation(hs[i])
    ensures MaskDetermines(hs)
  {
    forall i, j | 0 <= i < |hs| && 0 <= j < |hs| && hs[i].mask == hs[j].mask
      ensures hs[i].core == hs[j].core && hs[i].skeleton == hs[j].skeleton
    {
      DerivationCoreUntagged(hs[i]);
      DerivationCoreUntagged(hs[j]);
      MaskStripsToCore(hs[i].mask, hs[i].core);
      MaskStripsToCore(hs[j].mask, hs[j].core);
    }
  }

  /** Every triple of layer 3 holds an admissible skeleton, a core built
      on it and an opening of that core. */
  lemma Layer3Shape(skeletons: seq<Pattern>, t: Triple)
    requires forall s :: s in skeletons ==> IsSkeleton(s)
    requires t in Layer3(Layer2Cores(skeletons))
    ensures IsSkeleton(t.skeleton) && |t.core| == 5 && t.core[0] in Centers && t.core[1..] == t.skeleton
    ensures IsMaskOf(t.mask, t.core)
  {
    var cores := Layer2Cores(skeletons);
    Layer3Members(cores, t);
    Layer2CoresMembers(skeletons, (t.skeleton, t.core));
    var indices :| IsOpening(t.core, indices) && t.mask == MaskOf(t.core, indices);
    MaskOfIsMask(t.core, indices);
    assert |t.core| == 1 + |t.core[1..]|;
  }

  /** Every final pattern the stages produce is a derivation. */
  lemma PipelineDerivation(skeletons: seq<Pattern>, unique: seq<Triple>, d: Derived)
    requires forall s :: s in skeletons ==> IsSkeleton(s)
    requires forall u :: u in unique ==> u in Layer3(Layer2Cores(skeletons))
    requires d in FinalOf(unique)
    ensures IsDerivation(d)
  {
    FinalOfMembers(unique, d);
    Layer3Shape(skeletons, Triple(d.skeleton, d.core, d.mask));
  }

  /** The masks of layer 3 are never empty, so each has a necklace key. */
  lemma Layer3NonEmpty(skeletons: seq<Pattern>)
    ensures NonEmptyMasks(Layer3(Layer2Cores(skeletons)))
  {
    forall t | t in Layer3(Layer2Cores(skeletons)) ensures |t.mask| > 0 {
      Layer3Members(Layer2Cores(skeletons), t);
      Layer2CoresMembers(skeletons, (t.skeleton, t.core));
      var indices :| IsOpening(t.core, indices) && t.mask == MaskOf(t.core, indices);
    }
  }

  lemma HierarchyDerivations(skeletons: seq<Pattern>, unique: seq<Triple>)
    requires forall s :: s in skeletons ==> IsSkeleton(s)
    requires forall u :: u in unique ==> u in Layer3(Layer2Cores(skeletons))
    ensures forall i :: 0 <= i < |FinalOf(unique)| ==> IsDerivation(FinalOf(unique)[i])
    ensures AllWellFormed(FinalOf(unique)) && MaskDetermines(FinalOf(unique))
  {
    var hs := FinalOf(unique);
    forall i | 0 <= i < |hs| ensures IsDerivation(hs[i]) && WellFormed(hs[i]) {
      PipelineDerivation(skeletons, unique, hs[i]);
      DerivationWellFormed(hs[i]);
    }
    DerivationsMaskDetermined(hs);
  }

  /** A row of the library: the five renderings of a derived pattern, filed
      under the necklace key of its final pattern. */
  ghost predicate IsLibraryRow(k: Pattern, row: Row)
  {
    exists h :: IsDerivation(h) && WellFormed(h) && NecklaceKey(h.final) == k && row == RowOf(h)
  }

  lemma TableRowsAreLibraryRows(hierarchy: seq<Derived>, table: Dict<Pattern, Row>)
    requires forall i :: 0 <= i < |hierarchy| ==> IsDerivation(hierarchy[i])
    requires AllWellFormed(hierarchy)
    requires KeepsFirst(table, FinalKeys(hierarchy), Rows(hierarchy))
    ensures forall k :: k in table.entries ==> IsLibraryRow(k, table.entries[k])
  {
    forall k | k in table.entries ensures IsLibraryRow(k, table.entries[k]) {
      var n := FirstIndex(FinalKeys(hierarchy), k);
      assert table.entries[k] == Rows(hierarchy)[n];
      assert IsDerivation(hierarchy[n]) && WellFormed(hierarchy[n]);
    }
  }

  /** No necklace class is lost: every derivable pattern has an image among
      the final patterns. Its skeleton's reflection class is kept at line 73;
      if the kept skeleton is the mirror image, so are the core, mask and
      final pattern. The mask's necklace class is kept at line 89, and the
      symmetry taking the mask to the kept one takes the final pattern to a
      substitution of the kept mask. */
  lemma DerivationCovered(skeletons: seq<Pattern>, unique: seq<Triple>, h: Derived)
    requires forall s :: IsSkeleton(s) ==> exists t :: t in skeletons && ReflectCanonical(t) == ReflectCanonical(s)
    requires NonEmptyMasks(Layer3(Layer2Cores(skeletons))) && NonEmptyMasks(unique)
    requires forall t :: t in Layer3(Layer2Cores(skeletons)) ==>
      exists u :: u in unique && NecklaceKey(u.mask) == NecklaceKey(t.mask)
    requires IsDerivation(h)
    ensures |h.final| > 0
    ensures exists d :: d in FinalOf(unique) && |d.final| > 0 && NecklaceKey(d.final) == NecklaceKey(h.final)
  {
    var tr, final2 := Layer3StandIn(skeletons, h);
    assert |tr.mask| > 0;
    assert exists u :: u in unique && NecklaceKey(u.mask) == NecklaceKey(tr.mask);
    var d := UniqueStandIn(unique, tr, final2);
    IsImageLength(final2, d.final);
    NecklaceKeyInvariant(h.final, final2);
    NecklaceKeyInvariant(final2, d.final);
    assert d in FinalOf(unique) && |d.final| > 0 && NecklaceKey(d.final) == NecklaceKey(h.final);
  }

  /** The layer-3 triple standing for a derivation: its own, when its
      skeleton was kept at line 73, or else the mirror image of it. */
  lemma Layer3StandIn(skeletons: seq<Pattern>, h: Derived) returns (tr: Triple, final2: Pattern)
    requires forall s :: IsSkeleton(s) ==> exists t :: t in skeletons && ReflectCanonical(t) == ReflectCanonical(s)
    requires IsDerivation(h)
    ensures tr in Layer3(Layer2Cores(skeletons))
    ensures IsSubstitutionOf(final2, tr.mask) && |h.final| > 0 && IsImage(h.final, final2)
  {
    var s, c := h.skeleton, h.core[0];
    assert h.core == [c] + s;
    var t :| t in skeletons && ReflectCanonical(t) == ReflectCanonical(s);
    ReflectCanonicalIff(s, t);
    var core2, mask2 := h.core, h.mask;
    final2 := h.final;
    IsImageReflexive(h.final);
    if t != s {
      MirroredCore(c, s);
      MaskImage(h.mask, h.core, 4, true);
      SubstitutionImage(h.final, h.mask, 4, true);
      ImageIsImage(h.final, 4, true);
      core2, mask2, final2 := Image(h.core, 4, true), Image(h.mask, 4, true), Image(h.final, 4, true);
    }
    tr := Triple(t, core2, mask2);
    Layer2CoresMembers(skeletons, (t, core2));
    MaskIsMaskOfOpening(mask2, core2);
    Layer3Members(Layer2Cores(skeletons), tr);
  }

  /** The symmetry taking a layer-3 mask to the unique mask of its necklace
      class (line 89) takes a substitution of it to a final pattern of the
      unique mask. */
  lemma UniqueStandIn(unique: seq<Triple>, tr: Triple, final2: Pattern) returns (d: Derived)
    requires NonEmptyMasks(unique) && |tr.mask| > 0
    requires exists u :: u in unique && NecklaceKey(u.mask) == NecklaceKey(tr.mask)
    requires IsSubstitutionOf(final2, tr.mask)
    ensures d in FinalOf(unique) && |final2| > 0 && IsImage(final2, d.final)
  {
    var u :| u in unique && NecklaceKey(u.mask) == NecklaceKey(tr.mask);
    NecklaceKeyIffImage(tr.mask, u.mask);
    var k, mirror := ImageOf(tr.mask, u.mask);
    SubstitutionImage(final2, tr.mask, k, mirror);
    ImageIsImage(final2, k, mirror);
    d := Derived(u.skeleton, u.core, u.mask, Image(final2, k, mirror));
    FinalOfMembers(unique, d);
  }

  /** A table keyed by the necklace keys of `final_hierarchy` has a row for
      every derivable pattern's class. */
  lemma TableCoversDerivations(skeletons: seq<Pattern>, unique: seq<Triple>, table: Dict<Pattern, Row>)
    requires forall s :: IsSkeleton(s) ==> exists t :: t in skeletons && ReflectCanonical(t) == ReflectCanonical(s)
    requires NonEmptyMasks(Layer3(Layer2Cores(skeletons))) && NonEmptyMasks(unique)
    requires forall t :: t in Layer3(Layer2Cores(skeletons)) ==>
      exists u :: u in unique && NecklaceKey(u.mask) == NecklaceKey(t.mask)
    requires AllWellFormed(FinalOf(unique))
    requires forall k :: k in table.entries <==> k in FinalKeys(FinalOf(unique))
    ensures forall h :: IsDerivation(h) ==> |h.final| > 0 && NecklaceKey(h.final) in table.entries
  {
    var hs := FinalOf(unique);
    forall h | IsDerivation(h) ensures |h.final| > 0 && NecklaceKey(h.final) in table.entries {
      DerivationCovered(skeletons, unique, h);
      var d :| d in hs && |d.final| > 0 && NecklaceKey(d.final) == NecklaceKey(h.final);
      KeyOfMember(hs, d);
    }
  }

  lemma KeyOfMember(hs: seq<Derived>, d: Derived)
    requires AllWellFormed(hs) && d in hs
    ensures |d.final| > 0 && NecklaceKey(d.final) in FinalKeys(hs)
  {
    var i :| 0 <= i < |hs| && hs[i] == d;
    assert FinalKeys(hs)[i] == NecklaceKey(d.final);
  }

  /** generate_hierarchical_library: skeletons, cores, masks, unique masks,
      final patterns, then the table. The table has one row for each
      necklace class of derivable patterns, and for no other key, in the
      order the classes first occur in `final_hierarchy`. Each row is the
      first pattern of its class rendered at every level, and its first two
      levels are the generic ring. */
  method GenerateHierarchicalLibrary()
    returns (table: Dict<Pattern, Row>, ghost skeletons: seq<Pattern>, ghost unique: seq<Triple>, ghost hierarchy: seq<Derived>)
    ensures forall s :: s in skeletons ==> IsSkeleton(s)
    ensures ReflectKeys(skeletons) == FirstOccurrences(ReflectKeys(SkeletonCandidates()))
    ensures forall t :: t in skeletons ==> LastOfReflectClass(SkeletonCandidates(), t)
    ensures forall u :: u in unique ==> u in Layer3(Layer2Cores(skeletons))
    ensures NonEmptyMasks(unique) && NonEmptyMasks(Layer3(Layer2Cores(skeletons)))
    ensures MaskKeys(unique) == FirstOccurrences(MaskKeys(Layer3(Layer2Cores(skeletons))))
    ensures forall u :: u in unique ==>
      exists m: nat :: m < |Layer3(Layer2Cores(skeletons))| &&
        Layer3(Layer2Cores(skeletons))[m] == u && LastOfNecklaceClass(Layer3(Layer2Cores(skeletons)), m)
    ensures hierarchy == FinalOf(unique) && AllWellFormed(hierarchy)
    ensures table.keys == FirstOccurrences(FinalKeys(hierarchy))
    ensures KeepsFirst(table, FinalKeys(hierarchy), Rows(hierarchy))
    ensures forall k :: k in table.entries ==> IsLibraryRow(k, table.entries[k])
    ensures forall h :: IsDerivation(h) ==> |h.final| > 0 && NecklaceKey(h.final) in table.entries
    ensures forall k :: k in table.entries ==>
      table.entries[k].layer1 == L0Smarts && table.entries[k].layer2 == L0Smarts
  {
    var skels := Layer1Skeletons();
    var cores := Layer2Cores(skels);
    var masks := Layer3Masks(cores);
    Layer3NonEmpty(skels);
    var uniq := UniqueMasks(masks);
    var hier := FinalHierarchy(uniq);
    HierarchyDerivations(skels, uniq);
    table := BuildTable(hier);
    TableRowsAreLibraryRows(hier, table);
    TableCoversDerivations(skels, uniq, table);
    skeletons, unique, hierarchy := skels, uniq, hier;
  }
}
