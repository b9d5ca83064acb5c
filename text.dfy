/** The few Python `str` operations that build_smarts and the pipeline use. */
module Text {

  predicate StartsWith(s: string, prefix: string)
  {
    |prefix| <= |s| && s[..|prefix|] == prefix
  }

  /** `s.endswith(suffix)` */
  predicate EndsWith(s: string, suffix: string)
  {
    |suffix| <= |s| && s[|s| - |suffix|..] == suffix
  }

  /** `sub in s` */
  predicate Contains(s: string, sub: string)
    decreases |s|
  {
    StartsWith(s, sub) || (|s| > 0 && Contains(s[1..], sub))
  }

  lemma {:induction false} ContainsSurrounded(x: string, sub: string, y: string)
    ensures Contains(x + sub + y, sub)
    decreases |x|
  {
    if |x| == 0 {
      assert (x + sub + y)[..|sub|] == sub;
    } else {
      assert (x + sub + y)[1..] == x[1..] + sub + y;
      ContainsSurrounded(x[1..], sub, y);
    }
  }

  lemma {:induction false} ContainsAppend(a: string, b: string, sub: string)
    requires Contains(a, sub)
    ensures Contains(a + b, sub)
    decreases |a|
  {
    if StartsWith(a, sub) {
      assert (a + b)[..|sub|] == a[..|sub|];
    } else {
      assert (a + b)[1..] == a[1..] + b;
      ContainsAppend(a[1..], b, sub);
    }
  }

  /** A string without the first character of `sub` does not contain it. */
  lemma {:induction false} NotContains(s: string, sub: string)
    requires |sub| > 0 && sub[0] !in s
    ensures !Contains(s, sub)
    decreases |s|
  {
    if |s| > 0 {
      if |sub| <= |s| {
        assert s[..|sub|][0] == s[0];
      }
      NotContains(s[1..], sub);
    }
  }

  /** `(s.split(sep, 1) + [''])[:2]`: the text before the first `sep` and the
      text after it, or `s` and "" when `sep` does not occur. */
  function SplitOnce(s: string, sep: char): (r: (string, string))
    ensures sep !in r.0
    ensures sep in s ==> r.0 + [sep] + r.1 == s
    ensures sep !in s ==> r == (s, "")
  {
    if |s| == 0 then ("", "")
    else if s[0] == sep then ("", s[1..])
    else
      var rest := SplitOnce(s[1..], sep);
      assert s == [s[0]] + s[1..];
      ([s[0]] + rest.0, rest.1)
  }

  /** Splitting undoes joining with a separator the head does not contain. */
  lemma {:induction false} SplitOnceOfJoined(head: string, sep: char, tail: string)
    requires sep !in head
    ensures SplitOnce(head + [sep] + tail, sep) == (head, tail)
    decreases |head|
  {
    var s := head + [sep] + tail;
    if |head| == 0 {
      assert s == [sep] + tail;
    } else {
      assert s[0] == head[0] && s[1..] == head[1..] + [sep] + tail;
      SplitOnceOfJoined(head[1..], sep, tail);
      assert head == [head[0]] + head[1..];
    }
  }

  /** `s.replace(pat, "")`: removes the non-overlapping occurrences of `pat`
      found scanning left to right. */
  function RemoveAll(s: string, pat: string): (r: string)
    requires |pat| > 0
    ensures |r| <= |s|
    decreases |s|
  {
    if |s| < |pat| then s
    else if s[..|pat|] == pat then RemoveAll(s[|pat|..], pat)
    else [s[0]] + RemoveAll(s[1..], pat)
  }

  /** A prefix that cannot start an occurrence is kept as it is. */
  lemma {:induction false} RemoveAllKeepsPrefix(head: string, pat: string, tail: string)
    requires |pat| > 0 && pat[0] !in head
    ensures RemoveAll(head + tail, pat) == head + RemoveAll(tail, pat)
    decreases |head|
  {
    if |head| > 0 {
      var s := head + tail;
      assert s[0] == head[0] != pat[0];
      assert s[1..] == head[1..] + tail;
      RemoveAllKeepsPrefix(head[1..], pat, tail);
      assert head == [head[0]] + head[1..];
      if |s| >= |pat| {
        assert s[..|pat|][0] != pat[0];
        assert RemoveAll(s, pat) == [s[0]] + RemoveAll(s[1..], pat);
      } else {
        assert RemoveAll(tail, pat) == tail;
      }
    } else {
      assert head + tail == tail;
    }
  }

  /** Removing `pat` from `head + pat` gives back `head`. */
  lemma RemoveAllTrailing(head: string, pat: string)
    requires |pat| > 0 && pat[0] !in head
    ensures RemoveAll(head + pat, pat) == head
  {
    RemoveAllKeepsPrefix(head, pat, pat);
    assert pat[..|pat|] == pat && pat[|pat|..] == [];
    RemoveAllKeepsPrefix(head, pat, []);
    assert head + [] == head;
  }

  /** `s.find(c)`, with `|s|` standing for "not found". */
  function IndexOf(s: string, c: char): (i: nat)
    ensures i <= |s| && c !in s[..i]
    ensures i < |s| ==> s[i] == c
    ensures i == |s| <==> c !in s
  {
    if |s| == 0 then 0
    else if s[0] == c then 0
    else
      var j := IndexOf(s[1..], c);
      assert s[..j + 1] == [s[0]] + s[1..][..j];
      j + 1
  }

  /** `s.replace(c, replacement, 1)` for a one-character `c`. */
  function ReplaceFirst(s: string, c: char, replacement: string): (r: string)
    ensures c !in s ==> r == s
    ensures c in s ==> exists i :: 0 <= i < |s| && s[i] == c && c !in s[..i] && r == s[..i] + replacement + s[i + 1..]
  {
    var i := IndexOf(s, c);
    if i == |s| then s else s[..i] + replacement + s[i + 1..]
  }

  /** `sep.join(parts)` */
  function Join(sep: string, parts: seq<string>): (r: string)
    ensures |parts| == 1 ==> r == parts[0]
  {
    if |parts| == 0 then ""
    else if |parts| == 1 then parts[0]
    else parts[0] + sep + Join(sep, parts[1..])
  }
}
