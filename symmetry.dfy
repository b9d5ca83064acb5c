/** The ring symmetries acting on whole derivations.

    A rotation or reflection of the ring moves every position of a pattern
    by the same permutation. Applied alike to a core, its mask and a final
    pattern, it keeps a mask a mask of its core and a substitution a
    substitution of its mask. This is why choosing one skeleton per
    reflection class (line 73) and one mask per necklace class (line 89)
    loses no necklace class of final patterns. */
module Symmetry {
  import opened Vocabulary
  import opened Text
  import opened Canon
  import opened Render
  import opened Generation
  import opened Assembly

  /** The position of `s` that a rotation by `k`, after a reflection when
      `mirror` holds, moves to position `i`. */
  function Source(n: nat, k: nat, mirror: bool, i: nat): (j: nat)
    requires k < n && i < n
    ensures j < n
  {
    var p := if i + k < n then i + k else i + k - n;
    if mirror then n - 1 - p else p
  }

  /** The dihedral image of `s` that rotates by `k`, after a reflection
      when `mirror` holds: the images `canonical_necklace` lists. */
  function Image<T>(s: seq<T>, k: nat, mirror: bool): (r: seq<T>)
    requires k < |s|
    ensures |r| == |s|
    ensures forall i :: 0 <= i < |s| ==> r[i] == s[Source(|s|, k, mirror, i)]
  {
    Rotate(if mirror then Reverse(s) else s, k)
  }

  lemma ImageIsImage(s: Pattern, k: nat, mirror: bool)
    requires k < |s|
    ensures IsImage(s, Image(s, k, mirror))
  {
    assert Image(s, k, mirror) == Rotate(if mirror then Reverse(s) else s, k);
  }

  /** Every image is one of the images `Image` names. */
  lemma ImageOf(s: Pattern, t: Pattern) returns (k: nat, mirror: bool)
    requires IsImage(s, t)
    ensures k < |s| && t == Image(s, k, mirror)
  {
    k :| k < |s| && (t == Rotate(s, k) || t == Rotate(Reverse(s), k));
    mirror := t != Rotate(s, k);
  }

  /** The open positions of two patterns placed end to end. */
  lemma {:induction false} StarCountAppend(a: Pattern, b: Pattern)
    ensures |StarPositions(a + b)| == |StarPositions(a)| + |StarPositions(b)|
    decreases |b|
  {
    if b == [] {
      assert a + b == a;
    } else {
      var n := |b| - 1;
      assert (a + b)[..|a + b| - 1] == a + b[..n];
      assert (a + b)[|a + b| - 1] == b[n];
      StarCountAppend(a, b[..n]);
    }
  }

  lemma {:induction false} StarCountReverse(m: Pattern)
    ensures |StarPositions(Reverse(m))| == |StarPositions(m)|
    decreases |m|
  {
    if m != [] {
      var n := |m| - 1;
      assert Reverse(m) == [m[n]] + Reverse(m[..n]);
      assert m == m[..n] + [m[n]];
      StarCountReverse(m[..n]);
      StarCountAppend([m[n]], Reverse(m[..n]));
      StarCountAppend(m[..n], [m[n]]);
    }
  }

  lemma StarCountRotate(m: Pattern, k: nat)
    requires k <= |m|
    ensures |StarPositions(Rotate(m, k))| == |StarPositions(m)|
  {
    assert m == m[..k] + m[k..];
    StarCountAppend(m[k..], m[..k]);
    StarCountAppend(m[..k], m[k..]);
  }

  /** A rotation or reflection opens as many positions as it is given. */
  lemma StarCountImage(m: Pattern, k: nat, mirror: bool)
    requires k < |m|
    ensures |StarPositions(Image(m, k, mirror))| == |StarPositions(m)|
  {
    var base := if mirror then Reverse(m) else m;
    StarCountRotate(base, k);
    if mirror {
      StarCountReverse(m);
    }
  }

  /** The image of a mask is a mask of the image of its core. */
  lemma MaskImage(mask: Pattern, core: Pattern, k: nat, mirror: bool)
    requires IsMaskOf(mask, core) && k < |core|
    ensures IsMaskOf(Image(mask, k, mirror), Image(core, k, mirror))
  {
    var m2, c2 := Image(mask, k, mirror), Image(core, k, mirror);
    forall i | 0 <= i < |c2|
      ensures (Contains(c2[i], Marker) && (m2[i] == Tagged(c2[i], "*") || m2[i] == Tagged(c2[i], "H"))) ||
        (!Contains(c2[i], Marker) && m2[i] == Tagged(c2[i], ""))
    {
      var j := Source(|core|, k, mirror, i);
      assert c2[i] == core[j] && m2[i] == mask[j];
    }
    StarCountImage(mask, k, mirror);
  }

  /** The image of a substitution is a substitution of the image of its
      mask. */
  lemma SubstitutionImage(final: Pattern, mask: Pattern, k: nat, mirror: bool)
    requires IsSubstitutionOf(final, mask) && k < |mask|
    ensures IsSubstitutionOf(Image(final, k, mirror), Image(mask, k, mirror))
  {
    var f2, m2 := Image(final, k, mirror), Image(mask, k, mirror);
    forall p | 0 <= p < |m2|
      ensures if EndsWith(m2[p], "|*")
        then f2[p] == Tagged(SplitOnce(m2[p], TagSeparator).0, TagOf(f2[p])) &&
          TagOf(f2[p]) in ApplicableSubstituents
        else f2[p] == m2[p]
    {
      var j := Source(|mask|, k, mirror, p);
      assert f2[p] == final[j] && m2[p] == mask[j];
    }
  }

  /** A core whose skeleton was dropped for its mirror image: reflecting
      the ring and turning it to bring the centre back in front gives the
      centre in front of the mirrored skeleton. */
  lemma MirroredCore(c: string, s: Pattern)
    requires |s| == 4
    ensures Image([c] + s, 4, true) == [c] + Reverse(s)
  {
    var core := [c] + s;
    var r := Image(core, 4, true);
    forall i | 0 <= i < 5 ensures r[i] == ([c] + Reverse(s))[i] {
      if i > 0 {
        assert r[i] == core[5 - i] == s[4 - i];
      }
    }
  }
}
