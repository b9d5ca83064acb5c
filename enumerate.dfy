/** `itertools.product` and `itertools.combinations`, as sequences listed in
    the order itertools yields them. */
module Enumerate {

  /** `[(x,) + t for t in tails]` */
  function PrependAll<T>(x: T, tails: seq<seq<T>>): (r: seq<seq<T>>)
    ensures |r| == |tails|
    ensures forall i :: 0 <= i < |r| ==> r[i] == [x] + tails[i]
  {
    seq(|tails|, i requires 0 <= i < |tails| => [x] + tails[i])
  }

  lemma PrependAllMembers<T>(x: T, tails: seq<seq<T>>, t: seq<T>)
    ensures t in PrependAll(x, tails) <==> |t| > 0 && t[0] == x && t[1..] in tails
  {
    if |t| > 0 && t[0] == x && t[1..] in tails {
      var i :| 0 <= i < |tails| && tails[i] == t[1..];
      assert PrependAll(x, tails)[i] == t;
    }
  }

  /** Every head from `heads`, in order, followed by every tail. */
  function ProductFrom<T>(heads: seq<T>, tails: seq<seq<T>>): seq<seq<T>>
  {
    if heads == [] then [] else PrependAll(heads[0], tails) + ProductFrom(heads[1..], tails)
  }

  lemma {:induction false} ProductFromMembers<T>(heads: seq<T>, tails: seq<seq<T>>, t: seq<T>)
    ensures t in ProductFrom(heads, tails) <==> |t| > 0 && t[0] in heads && t[1..] in tails
    decreases |heads|
  {
    if heads != [] {
      PrependAllMembers(heads[0], tails, t);
      ProductFromMembers(heads[1..], tails, t);
      assert heads == [heads[0]] + heads[1..];
    }
  }

  /** `product(choices, repeat=n)`: the first position varies slowest. */
  function Product<T>(choices: seq<T>, n: nat): seq<seq<T>>
  {
    if n == 0 then [[]] else ProductFrom(choices, Product(choices, n - 1))
  }

  /** The tuples of `Product(choices, n)` are exactly the length-`n` tuples
      over `choices`. */
  lemma {:induction false} ProductMembers<T>(choices: seq<T>, n: nat, t: seq<T>)
    ensures t in Product(choices, n) <==> |t| == n && forall i :: 0 <= i < |t| ==> t[i] in choices
  {
    if n == 0 {
      assert |t| == 0 ==> t == [];
    } else {
      ProductFromMembers(choices, Product(choices, n - 1), t);
      if |t| > 0 {
        ProductMembers(choices, n - 1, t[1..]);
        if t[0] in choices && forall i :: 0 <= i < |t| - 1 ==> t[1..][i] in choices {
          forall i | 0 <= i < |t| ensures t[i] in choices {
            if i > 0 {
              assert t[i] == t[1..][i - 1];
            }
          }
        }
      }
    }
  }

  /** `combinations(xs, k)`: the k-element subsequences of `xs`, in the
      lexicographic order of their positions. */
  function Combinations<T>(xs: seq<T>, k: nat): seq<seq<T>>
    decreases |xs|
  {
    if k == 0 then [[]]
    else if xs == [] then []
    else PrependAll(xs[0], Combinations(xs[1..], k - 1)) + Combinations(xs[1..], k)
  }

  /** There are no combinations of more elements than there are. */
  lemma CombinationsTooFew<T>(xs: seq<T>, k: nat)
    ensures |xs| < k ==> Combinations(xs, k) == []
  {
  }

  predicate Increasing(s: seq<int>)
  {
    forall i, j :: 0 <= i < j < |s| ==> s[i] < s[j]
  }

  /** Drawn from an increasing sequence, every combination is an increasing
      length-`k` sequence of its elements. */
  lemma {:induction false} CombinationsSound(xs: seq<int>, k: nat, c: seq<int>)
    requires Increasing(xs) && c in Combinations(xs, k)
    ensures |c| == k && Increasing(c)
    ensures forall i :: 0 <= i < |c| ==> c[i] in xs
    decreases |xs|
  {
    if k > 0 {
      var xs' := xs[1..];
      assert Increasing(xs');
      if c in Combinations(xs', k) {
        CombinationsSound(xs', k, c);
      } else {
        PrependAllMembers(xs[0], Combinations(xs', k - 1), c);
        var t := c[1..];
        CombinationsSound(xs', k - 1, t);
        forall i | 0 <= i < |c| ensures c[i] in xs && (i > 0 ==> xs[0] < c[i]) {
          if i > 0 {
            assert c[i] == t[i - 1] && t[i - 1] in xs';
          }
        }
        forall i, j | 0 <= i < j < |c| ensures c[i] < c[j] {
          if i > 0 {
            assert c[i] == t[i - 1] && c[j] == t[j - 1];
          }
        }
      }
    }
  }

  /** An element of `xs` other than its head is an element of its tail. */
  lemma InTail(xs: seq<int>, x: int)
    requires x in xs && x != xs[0]
    ensures x in xs[1..]
  {
    var m :| 0 <= m < |xs| && xs[m] == x;
    assert xs[1..][m - 1] == x;
  }

  /** Leaving the head of `xs` out: the rest of a combination that starts
      with it, or the whole of one that does not, is drawn from the tail. */
  lemma DropHeadMembers(xs: seq<int>, c: seq<int>)
    requires Increasing(xs) && Increasing(c) && |c| > 0 && |xs| > 0
    requires forall i :: 0 <= i < |c| ==> c[i] in xs
    ensures c[0] == xs[0] ==> forall i :: 0 <= i < |c| - 1 ==> c[1..][i] in xs[1..]
    ensures c[0] != xs[0] ==> forall i :: 0 <= i < |c| ==> c[i] in xs[1..]
  {
    assert xs[0] <= c[0] by {
      var m :| 0 <= m < |xs| && xs[m] == c[0];
    }
    forall i | 0 <= i < |c| && (i > 0 || c[0] != xs[0]) ensures c[i] in xs[1..] {
      InTail(xs, c[i]);
    }
  }

  /** Drawn from an increasing sequence, every increasing length-`k`
      sequence of its elements is one of the combinations. */
  lemma {:induction false} CombinationsComplete(xs: seq<int>, k: nat, c: seq<int>)
    requires Increasing(xs) && |c| == k && Increasing(c)
    requires forall i :: 0 <= i < |c| ==> c[i] in xs
    ensures c in Combinations(xs, k)
    decreases |xs|
  {
    if k == 0 {
      assert c == [];
    } else {
      assert xs != [] by { assert c[0] in xs; }
      var xs' := xs[1..];
      assert Increasing(xs');
      DropHeadMembers(xs, c);
      if c[0] == xs[0] {
        CombinationsComplete(xs', k - 1, c[1..]);
        PrependAllMembers(xs[0], Combinations(xs', k - 1), c);
      } else {
        CombinationsComplete(xs', k, c);
      }
    }
  }

  lemma HeadIsMember(b: seq<int>)
    ensures |b| > 0 ==> b[0] in b
  {
  }

  /** The tail of an increasing sequence holds every element but the head. */
  lemma TailMembers(a: seq<int>)
    requires Increasing(a) && |a| > 0
    ensures forall x :: x in a[1..] <==> x in a && x != a[0]
  {
    forall x | x in a && x != a[0] ensures x in a[1..] {
      InTail(a, x);
    }
    forall x | x in a[1..] ensures x in a && x != a[0] {
      var m :| 0 <= m < |a[1..]| && a[1..][m] == x;
      assert a[m + 1] == x;
    }
  }

  /** An increasing sequence is determined by its elements. */
  lemma {:induction false} IncreasingSameMembers(a: seq<int>, b: seq<int>)
    requires Increasing(a) && Increasing(b)
    requires forall x :: x in a <==> x in b
    ensures a == b
    decreases |a|
  {
    if a != [] {
      assert a[0] in a && a[0] in b;
      assert b != [] && b[0] in b && b[0] in a;
      assert a[0] == b[0] by {
        var i :| 0 <= i < |b| && b[i] == a[0];
        var j :| 0 <= j < |a| && a[j] == b[0];
        assert b[0] <= b[i] && a[0] <= a[j];
      }
      TailMembers(a);
      TailMembers(b);
      assert Increasing(a[1..]) && Increasing(b[1..]);
      IncreasingSameMembers(a[1..], b[1..]);
      assert a == [a[0]] + a[1..] && b == [b[0]] + b[1..];
    } else {
      HeadIsMember(b);
    }
  }
}
