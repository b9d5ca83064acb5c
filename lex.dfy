/** Python's comparison of strings and of tuples of strings.

    Python orders `str` values by code point, element by element, and a
    proper prefix sorts before the longer string; tuples of strings are
    ordered the same way, element by element with string order deciding.
    Dafny's own `<` on sequences means "proper prefix", so both orders are
    defined here and proved to be strict total orders. */
module Lex {

  /** `a < b` on Python strings. */
  predicate StrLess(a: string, b: string)
    decreases |a|
  {
    |b| > 0 && (|a| == 0 || a[0] < b[0] || (a[0] == b[0] && StrLess(a[1..], b[1..])))
  }

  lemma {:induction false} StrLessIrreflexive(a: string)
    ensures !StrLess(a, a)
    decreases |a|
  {
    if |a| > 0 {
      StrLessIrreflexive(a[1..]);
    }
  }

  lemma {:induction false} StrLessTransitive(a: string, b: string, c: string)
    requires StrLess(a, b) && StrLess(b, c)
    ensures StrLess(a, c)
    decreases |a|
  {
    if |a| > 0 && a[0] == b[0] && b[0] == c[0] {
      StrLessTransitive(a[1..], b[1..], c[1..]);
    }
  }

  lemma {:induction false} StrLessTrichotomy(a: string, b: string)
    ensures StrLess(a, b) || a == b || StrLess(b, a)
    decreases |a|
  {
    if |a| > 0 && |b| > 0 && a[0] == b[0] {
      StrLessTrichotomy(a[1..], b[1..]);
      if a[1..] == b[1..] {
        assert a == [a[0]] + a[1..] && b == [b[0]] + b[1..];
      }
    }
  }

  /** `a < b` on Python tuples of strings. */
  predicate TupleLess(a: seq<string>, b: seq<string>)
    decreases |a|
  {
    |b| > 0 && (|a| == 0 || StrLess(a[0], b[0]) || (a[0] == b[0] && TupleLess(a[1..], b[1..])))
  }

  /** `a <= b` on Python tuples of strings. */
  predicate TupleLeq(a: seq<string>, b: seq<string>)
  {
    TupleLess(a, b) || a == b
  }

  lemma {:induction false} TupleLessIrreflexive(a: seq<string>)
    ensures !TupleLess(a, a)
    decreases |a|
  {
    if |a| > 0 {
      StrLessIrreflexive(a[0]);
      TupleLessIrreflexive(a[1..]);
    }
  }

  lemma {:induction false} TupleLessTransitive(a: seq<string>, b: seq<string>, c: seq<string>)
    requires TupleLess(a, b) && TupleLess(b, c)
    ensures TupleLess(a, c)
    decreases |a|
  {
    if |a| > 0 {
      if StrLess(a[0], b[0]) && StrLess(b[0], c[0]) {
        StrLessTransitive(a[0], b[0], c[0]);
      } else if a[0] == b[0] && b[0] == c[0] {
        TupleLessTransitive(a[1..], b[1..], c[1..]);
      }
    }
  }

  lemma {:induction false} TupleLessTrichotomy(a: seq<string>, b: seq<string>)
    ensures TupleLess(a, b) || a == b || TupleLess(b, a)
    decreases |a|
  {
    if |a| > 0 && |b| > 0 {
      StrLessTrichotomy(a[0], b[0]);
      if a[0] == b[0] {
        TupleLessTrichotomy(a[1..], b[1..]);
        if a[1..] == b[1..] {
          assert a == [a[0]] + a[1..] && b == [b[0]] + b[1..];
        }
      }
    }
  }

  lemma TupleLessAsymmetric(a: seq<string>, b: seq<string>)
    requires TupleLess(a, b)
    ensures !TupleLess(b, a)
  {
    if TupleLess(b, a) {
      TupleLessTransitive(a, b, a);
      TupleLessIrreflexive(a);
    }
  }

  /** `<=` on tuples is a total order: antisymmetric, transitive and total. */
  lemma TupleLeqAntisymmetric(a: seq<string>, b: seq<string>)
    requires TupleLeq(a, b) && TupleLeq(b, a)
    ensures a == b
  {
    if a != b {
      TupleLessAsymmetric(a, b);
    }
  }

  lemma TupleLeqTransitive(a: seq<string>, b: seq<string>, c: seq<string>)
    requires TupleLeq(a, b) && TupleLeq(b, c)
    ensures TupleLeq(a, c)
  {
    if a != b && b != c {
      TupleLessTransitive(a, b, c);
    }
  }

  lemma TupleLeqTotal(a: seq<string>, b: seq<string>)
    ensures TupleLeq(a, b) || TupleLeq(b, a)
  {
    TupleLessTrichotomy(a, b);
  }
}
