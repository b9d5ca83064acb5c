/** Symmetry canonicalisers (substruct_generation.py, lines 26-41).

    A pattern is a tuple of position strings. `ReflectCanonical` picks the
    smaller of a tuple and its mirror image; `CanonicalNecklace` picks the
    smallest of the 2n rotations of the tuple and of its mirror image, that
    is the least member of the tuple's orbit under the dihedral group. */
module Canon {
  import opened Lex

  type Pattern = seq<string>

  /** Python's `tuple(reversed(s))`. */
  function Reverse<T>(s: seq<T>): (r: seq<T>)
    ensures |r| == |s|
    ensures forall i :: 0 <= i < |s| ==> r[i] == s[|s| - 1 - i]
  {
    seq(|s|, i requires 0 <= i < |s| => s[|s| - 1 - i])
  }

  lemma ReverseReverse<T>(s: seq<T>)
    ensures Reverse(Reverse(s)) == s
  {
  }

  /** `s[k:] + s[:k]`: `s` rotated left by `k` places. */
  function Rotate<T>(s: seq<T>, k: nat): (r: seq<T>)
    requires k <= |s|
    ensures |r| == |s|
    ensures forall i :: 0 <= i < |s| ==> r[i] == if i + k < |s| then s[i + k] else s[i + k - |s|]
  {
    s[k..] + s[..k]
  }

  /** Rotation amounts add modulo n. */
  function AddMod(a: nat, b: nat, n: nat): (c: nat)
    requires a < n && b < n
    ensures c < n && (c == a + b || c == a + b - n)
  {
    if a + b < n then a + b else a + b - n
  }

  /** The rotation amount that undoes a rotation by `a`. */
  function NegMod(a: nat, n: nat): (c: nat)
    requires a < n
    ensures c < n && AddMod(a, c, n) == 0
  {
    if a == 0 then 0 else n - a
  }

  lemma RotateRotate<T>(s: seq<T>, a: nat, b: nat)
    requires a < |s| && b < |s|
    ensures Rotate(Rotate(s, a), b) == Rotate(s, AddMod(a, b, |s|))
  {
  }

  lemma RotateZero<T>(s: seq<T>)
    ensures Rotate(s, 0) == s
  {
  }

  /** Mirroring a rotation is rotating the mirror image the other way. */
  lemma ReverseRotate<T>(s: seq<T>, a: nat)
    requires a < |s|
    ensures Reverse(Rotate(s, a)) == Rotate(Reverse(s), NegMod(a, |s|))
  {
    var n, c := |s|, NegMod(a, |s|);
    var rot, rev := Rotate(s, a), Reverse(s);
    var left, right := Reverse(rot), Rotate(rev, c);
    forall i | 0 <= i < n ensures left[i] == right[i] {
      assert left[i] == rot[n - 1 - i];
      var j := if i + c < n then i + c else i + c - n;
      assert right[i] == rev[j] == s[n - 1 - j];
      if a == 0 {
        assert rot[n - 1 - i] == s[n - 1 - i];
      } else if i < a {
        assert rot[n - 1 - i] == s[a - 1 - i];
      } else {
        assert rot[n - 1 - i] == s[n - 1 - i + a];
      }
    }
  }

  /** `t` is one of the 2n images of `s` that canonical_necklace lists. */
  ghost predicate IsImage(s: Pattern, t: Pattern)
  {
    exists k: nat :: k < |s| && (t == Rotate(s, k) || t == Rotate(Reverse(s), k))
  }

  /** The list `reps` of canonical_necklace after `i` turns of its loop:
      rotation 0 of `s`, rotation 0 of the mirror, rotation 1 of `s`, ... */
  function ImagesUpTo(s: Pattern, i: nat): (r: seq<Pattern>)
    requires i <= |s|
    ensures |r| == 2 * i
  {
    if i == 0 then [] else ImagesUpTo(s, i - 1) + [Rotate(s, i - 1), Rotate(Reverse(s), i - 1)]
  }

  /** All 2n images of `s`, in the order canonical_necklace lists them. */
  function Images(s: Pattern): (r: seq<Pattern>)
    ensures |r| == 2 * |s|
  {
    ImagesUpTo(s, |s|)
  }

  lemma {:induction false} ImagesUpToAreImages(s: Pattern, i: nat, t: Pattern)
    requires i <= |s|
    ensures t in ImagesUpTo(s, i) <==> exists k: nat :: k < i && (t == Rotate(s, k) || t == Rotate(Reverse(s), k))
  {
    if i > 0 {
      ImagesUpToAreImages(s, i - 1, t);
      if t == Rotate(s, i - 1) || t == Rotate(Reverse(s), i - 1) {
        assert t in ImagesUpTo(s, i);
      }
    }
  }

  lemma ImagesAreImages(s: Pattern, t: Pattern)
    ensures t in Images(s) <==> IsImage(s, t)
  {
    ImagesUpToAreImages(s, |s|, t);
  }

  /** Python's `min` over a non-empty list of tuples: scanning left to right,
      an element replaces the running minimum only when strictly smaller. */
  function MinOf(xs: seq<Pattern>): (m: Pattern)
    requires |xs| > 0
    ensures m in xs
    ensures forall i :: 0 <= i < |xs| ==> TupleLeq(m, xs[i])
  {
    if |xs| == 1 then xs[0]
    else
      var rest := MinOf(xs[..|xs| - 1]);
      var last := xs[|xs| - 1];
      TupleLessTrichotomy(last, rest);
      assert forall i :: 0 <= i < |xs| - 1 ==> TupleLeq(rest, xs[i]) by {
        forall i | 0 <= i < |xs| - 1 ensures TupleLeq(rest, xs[i]) {
          assert xs[..|xs| - 1][i] == xs[i];
        }
      }
      if TupleLess(last, rest) then
        assert forall i :: 0 <= i < |xs| ==> TupleLeq(last, xs[i]) by {
          forall i | 0 <= i < |xs| ensures TupleLeq(last, xs[i]) {
            if i < |xs| - 1 && rest != xs[i] {
              TupleLessTransitive(last, rest, xs[i]);
            }
          }
        }
        last
      else
        rest
  }

  /** The value canonical_necklace returns: the least of the 2n images. */
  function NecklaceKey(s: Pattern): (r: Pattern)
    requires |s| > 0
    ensures IsImage(s, r)
    ensures forall t :: IsImage(s, t) ==> TupleLeq(r, t)
  {
    var r := MinOf(Images(s));
    ImagesAreImages(s, r);
    assert forall t :: IsImage(s, t) ==> TupleLeq(r, t) by {
      forall t | IsImage(s, t) ensures TupleLeq(r, t) {
        ImagesAreImages(s, t);
      }
    }
    r
  }

  /** canonical_necklace (lines 30-41). An empty tuple makes Python's `min`
      raise, so the input must be non-empty. */
  method CanonicalNecklace(s: Pattern) returns (r: Pattern)
    requires |s| > 0
    ensures r == NecklaceKey(s)
  {
    var n := |s|;
    var reps: seq<Pattern> := [];
    var currentFwd := s;
    var currentRev := Reverse(s);
    for i := 0 to n
      invariant reps == ImagesUpTo(s, i)
      invariant currentFwd == Rotate(s, i) && currentRev == Rotate(Reverse(s), i)
    {
      reps := reps + [currentFwd];
      reps := reps + [currentRev];
      currentFwd := currentFwd[1..] + currentFwd[..1];
      currentRev := currentRev[1..] + currentRev[..1];
    }
    r := MinOf(reps);
  }

  lemma {:induction false} IsImageReflexive(s: Pattern)
    requires |s| > 0
    ensures IsImage(s, s)
  {
    RotateZero(s);
  }

  lemma IsImageLength(s: Pattern, t: Pattern)
    requires IsImage(s, t)
    ensures |t| == |s|
  {
  }

  /** An image of an image of `s` is an image of `s`. */
  lemma {:induction false} IsImageTransitive(s: Pattern, t: Pattern, u: Pattern)
    requires IsImage(s, t) && IsImage(t, u)
    ensures IsImage(s, u)
  {
    var n := |s|;
    var a: nat :| a < n && (t == Rotate(s, a) || t == Rotate(Reverse(s), a));
    var b: nat :| b < |t| && (u == Rotate(t, b) || u == Rotate(Reverse(t), b));
    if t == Rotate(s, a) {
      if u == Rotate(t, b) {
        RotateRotate(s, a, b);
        assert u == Rotate(s, AddMod(a, b, n));
      } else {
        ReverseRotate(s, a);
        RotateRotate(Reverse(s), NegMod(a, n), b);
        assert u == Rotate(Reverse(s), AddMod(NegMod(a, n), b, n));
      }
    } else {
      if u == Rotate(t, b) {
        RotateRotate(Reverse(s), a, b);
        assert u == Rotate(Reverse(s), AddMod(a, b, n));
      } else {
        ReverseRotate(Reverse(s), a);
        ReverseReverse(s);
        RotateRotate(s, NegMod(a, n), b);
        assert u == Rotate(s, AddMod(NegMod(a, n), b, n));
      }
    }
  }

  /** Being an image is symmetric: the dihedral group has inverses. */
  lemma {:induction false} IsImageSymmetric(s: Pattern, t: Pattern)
    requires IsImage(s, t)
    ensures IsImage(t, s)
  {
    var n := |s|;
    var a: nat :| a < n && (t == Rotate(s, a) || t == Rotate(Reverse(s), a));
    if t == Rotate(s, a) {
      RotateRotate(s, a, NegMod(a, n));
      RotateZero(s);
      assert s == Rotate(t, NegMod(a, n));
    } else {
      // The mirror of t is a rotation of s; rotating it back gives s.
      ReverseRotate(Reverse(s), a);
      ReverseReverse(s);
      var c := NegMod(a, n);
      assert Reverse(t) == Rotate(s, c);
      RotateRotate(s, c, NegMod(c, n));
      RotateZero(s);
      assert s == Rotate(Reverse(t), NegMod(c, n));
    }
  }

  /** canonical_necklace gives the same key on every dihedral image. */
  lemma NecklaceKeyInvariant(s: Pattern, t: Pattern)
    requires |s| > 0 && IsImage(s, t)
    ensures |t| > 0 && NecklaceKey(t) == NecklaceKey(s)
  {
    var ks, kt := NecklaceKey(s), NecklaceKey(t);
    IsImageTransitive(s, t, kt);
    IsImageSymmetric(s, t);
    IsImageTransitive(t, s, ks);
    TupleLeqAntisymmetric(ks, kt);
  }

  /** Two tuples share a necklace key exactly when one is an image of the
      other: the keys partition tuples into dihedral orbits. */
  lemma NecklaceKeyIffImage(s: Pattern, t: Pattern)
    requires |s| > 0 && |t| > 0
    ensures NecklaceKey(s) == NecklaceKey(t) <==> IsImage(s, t)
  {
    if NecklaceKey(s) == NecklaceKey(t) {
      var k := NecklaceKey(s);
      IsImageSymmetric(t, k);
      IsImageTransitive(s, k, t);
    }
    if IsImage(s, t) {
      NecklaceKeyInvariant(s, t);
    }
  }

  lemma NecklaceKeyIdempotent(s: Pattern)
    requires |s| > 0
    ensures |NecklaceKey(s)| > 0 && NecklaceKey(NecklaceKey(s)) == NecklaceKey(s)
  {
    NecklaceKeyInvariant(s, NecklaceKey(s));
  }

  /** The rotations and the mirror image named one by one. */
  lemma NecklaceKeyOfRotation(s: Pattern, k: nat)
    requires k < |s|
    ensures NecklaceKey(Rotate(s, k)) == NecklaceKey(s)
  {
    NecklaceKeyInvariant(s, Rotate(s, k));
  }

  lemma NecklaceKeyOfReverse(s: Pattern)
    requires |s| > 0
    ensures NecklaceKey(Reverse(s)) == NecklaceKey(s)
  {
    RotateZero(Reverse(s));
    NecklaceKeyInvariant(s, Reverse(s));
  }

  /** canonical_reflect_tuple (lines 26-28): Python's `min(a, b)` returns
      `b` only when `b < a`. */
  function ReflectCanonical(s: Pattern): (r: Pattern)
    ensures r == s || r == Reverse(s)
    ensures TupleLeq(r, s) && TupleLeq(r, Reverse(s))
  {
    TupleLessTrichotomy(s, Reverse(s));
    if TupleLess(Reverse(s), s) then Reverse(s) else s
  }

  lemma ReflectCanonicalOfReverse(s: Pattern)
    ensures ReflectCanonical(Reverse(s)) == ReflectCanonical(s)
  {
    ReverseReverse(s);
    var a, b := ReflectCanonical(s), ReflectCanonical(Reverse(s));
    TupleLeqAntisymmetric(a, b);
  }

  lemma ReflectCanonicalIdempotent(s: Pattern)
    ensures ReflectCanonical(ReflectCanonical(s)) == ReflectCanonical(s)
  {
    if ReflectCanonical(s) != s {
      ReflectCanonicalOfReverse(s);
    }
  }

  /** Two tuples share a reflection key exactly when they are equal or
      mirror images of each other. */
  lemma ReflectCanonicalIff(a: Pattern, b: Pattern)
    ensures ReflectCanonical(a) == ReflectCanonical(b) <==> (b == a || b == Reverse(a))
  {
    ReverseReverse(a);
    ReverseReverse(b);
    if b == Reverse(a) {
      ReflectCanonicalOfReverse(a);
    }
  }
}
