/** The fixed tokens and the substituent catalog (substruct_generation.py,
    lines 7-23, 72 and 76). The strings are opaque to the model. */
module Vocabulary {

  /** The generic five-membered aromatic ring, layer 1 of every row. */
  const L0Smarts: string := "[a:1]1:a:a:a:a:1"

  /** Ring-position atom tokens; "(*)" marks an open valence. */
  const CStar: string := "[#6](*)"
  const NNoStar: string := "[#7+0]"
  const NStar: string := "[#7+0](*)"
  const OAtom: string := "[#8]"
  const SAtom: string := "[#16]"
  const HToken: string := "[#1]"

  /** The open-valence marker and the tag separator. */
  const Marker: string := "(*)"
  const TagSeparator: char := '|'

  /** Substituent codes and the sub-pattern each one renders to. */
  const SubstituentCatalog: map<string, string> := map[
    "C1" := "[CH3,CH2]", "C2" := "[CH,CH0]", "C3" := "[c]",
    "N1" := "[NH2,NH,N+]", "N2" := "[N+0H0]", "N3" := "[n+0]",
    "O1" := "[O]", "S1" := "[S]", "F" := "[F]", "Cl" := "[Cl]"]

  /** `list(SUBSTITUENT_CATALOG.keys())`, in the catalog's insertion order. */
  const ApplicableSubstituents: seq<string> :=
    ["C1", "C2", "C3", "N1", "N2", "N3", "O1", "S1", "F", "Cl"]

  /** The alphabet of layer-1 skeletons and the centre atoms of layer-2 cores. */
  const SkeletonChoices: seq<string> := [CStar, NNoStar]
  const Centers: seq<string> := [CStar, NStar, OAtom, SAtom]

  /** The code list and the catalog name the same codes. */
  lemma ApplicableSubstituentsAreCatalog()
    ensures forall c :: c in ApplicableSubstituents <==> c in SubstituentCatalog
  {
  }

  /** No catalog code is one of the reserved tags "", "H" and "*". */
  lemma CatalogCodesAreNotReserved()
    ensures "" !in SubstituentCatalog && "H" !in SubstituentCatalog && "*" !in SubstituentCatalog
  {
  }

  /** No ring token contains the tag separator. */
  lemma TokensHaveNoSeparator()
    ensures TagSeparator !in CStar && TagSeparator !in NNoStar && TagSeparator !in NStar
    ensures TagSeparator !in OAtom && TagSeparator !in SAtom
  {
  }
}
