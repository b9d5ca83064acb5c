/** The renderer build_smarts (substruct_generation.py, lines 43-64).

    A position string is an atom token, optionally followed by `|` and a
    tag: "" (unset), "H" (hydrogen cap), "*" (open) or a substituent code. */
module Render {
  import opened Vocabulary
  import opened Text
  import opened Canon

  /** The tag of a position: the text after its first `|`, or "". */
  function TagOf(p: string): string
  {
    SplitOnce(p, TagSeparator).1
  }

  /** A tag build_smarts can render; any other tag is looked up in the
      catalog and raises KeyError. */
  predicate KnownTag(tag: string)
  {
    tag == "" || tag == "H" || tag == "*" || tag in SubstituentCatalog
  }

  predicate Renderable(pattern: Pattern)
  {
    forall i :: 0 <= i < |pattern| ==> KnownTag(TagOf(pattern[i]))
  }

  /** One turn of build_smarts' loop before the ring label (lines 54-60). */
  function RenderPosition(p: string): string
    requires KnownTag(TagOf(p))
  {
    var (atom, tag) := SplitOnce(p, TagSeparator);
    var part := if tag != "" then RemoveAll(atom, Marker) else atom;
    if tag == "H" then part + "(" + HToken + ")"
    else if tag != "" && tag != "*" then part + "(" + SubstituentCatalog[tag] + ")"
    else part
  }

  /** A position built as `atom|tag`, as the pipeline builds them. */
  function Tagged(atom: string, tag: string): string
  {
    atom + [TagSeparator] + tag
  }

  /** The rendering rules, stated for a position built as `atom|tag`: an
      untagged position is copied unchanged, any other tag drops the marker
      "(*)", "H" appends the hydrogen cap and a code its catalog pattern. */
  lemma RenderPositionRules(atom: string, tag: string)
    requires TagSeparator !in atom && KnownTag(tag)
    ensures TagOf(atom) == "" && RenderPosition(atom) == atom
    ensures TagOf(Tagged(atom, tag)) == tag
    ensures tag == "" ==> RenderPosition(Tagged(atom, tag)) == atom
    ensures tag == "*" ==> RenderPosition(Tagged(atom, tag)) == RemoveAll(atom, Marker)
    ensures tag == "H" ==> RenderPosition(Tagged(atom, tag)) == RemoveAll(atom, Marker) + "(" + HToken + ")"
    ensures tag in SubstituentCatalog ==>
      RenderPosition(Tagged(atom, tag)) == RemoveAll(atom, Marker) + "(" + SubstituentCatalog[tag] + ")"
  {
    SplitOnceOfJoined(atom, TagSeparator, tag);
    CatalogCodesAreNotReserved();
    var p := Tagged(atom, tag);
    assert SplitOnce(p, TagSeparator) == (atom, tag);
    assert SplitOnce(atom, TagSeparator) == (atom, "");
  }

  /** For a token that ends in the open-valence marker, a tag other than ""
      replaces the marker: by nothing ("*"), by the hydrogen cap ("H"), or by
      the substituent's sub-pattern. */
  lemma RenderPositionReplacesMarker(base: string, tag: string)
    requires TagSeparator !in base && '(' !in base && KnownTag(tag) && tag != ""
    ensures TagOf(Tagged(base + Marker, tag)) == tag
    ensures RenderPosition(Tagged(base + Marker, tag)) ==
      if tag == "*" then base
      else if tag == "H" then base + "(" + HToken + ")"
      else base + "(" + SubstituentCatalog[tag] + ")"
  {
    assert TagSeparator !in base + Marker;
    RenderPositionRules(base + Marker, tag);
    RemoveAllTrailing(base, Marker);
  }

  /** add_ring_label (lines 48-50). */
  function AddRingLabel(atom: string): (r: string)
    ensures Contains(r, ":1")
    ensures Contains(atom, ":1") ==> r == atom
  {
    if Contains(atom, ":1") then atom
    else if ']' in atom then
      var i := IndexOf(atom, ']');
      ContainsSurrounded(atom[..i], ":1", "]" + atom[i + 1..]);
      assert ReplaceFirst(atom, ']', ":1]") == atom[..i] + ":1" + ("]" + atom[i + 1..]);
      ReplaceFirst(atom, ']', ":1]")
    else
      ContainsSurrounded("[" + atom, ":1", "]");
      assert "[" + atom + ":1]" == "[" + atom + ":1" + "]";
      "[" + atom + ":1]"
  }

  lemma AddRingLabelIdempotent(atom: string)
    ensures AddRingLabel(AddRingLabel(atom)) == AddRingLabel(atom)
  {
  }

  /** The rendered parts of positions 1.. (no ring label). */
  function RenderTail(pattern: Pattern): (parts: seq<string>)
    requires Renderable(pattern)
    ensures |parts| == |pattern|
    ensures forall i :: 0 <= i < |pattern| ==> parts[i] == RenderPosition(pattern[i])
  {
    seq(|pattern|, i requires 0 <= i < |pattern| => RenderPosition(pattern[i]))
  }

  /** The ring string built from a non-empty pattern (lines 52-64): only
      part 0 carries the ring label. */
  function RenderRing(pattern: Pattern): string
    requires |pattern| > 0 && Renderable(pattern)
  {
    AddRingLabel(RenderPosition(pattern[0])) + "1:" + Join(":", RenderTail(pattern[1..])) + ":1"
  }

  /** build_smarts. A pattern whose first element is 'a' returns the layer-1
      ring outright (line 46). */
  function BuildSmarts(pattern: Pattern): (r: string)
    requires pattern == [] || pattern[0] == "a" || Renderable(pattern)
    ensures pattern == [] ==> r == ""
    ensures pattern != [] && pattern[0] == "a" ==> r == L0Smarts
    ensures pattern != [] && pattern[0] != "a" ==> Contains(r, ":1")
  {
    if pattern == [] then ""
    else if pattern[0] == "a" then L0Smarts
    else
      var p0 := AddRingLabel(RenderPosition(pattern[0]));
      ContainsAppend(p0, "1:" + Join(":", RenderTail(pattern[1..])) + ":1", ":1");
      assert RenderRing(pattern) == p0 + ("1:" + Join(":", RenderTail(pattern[1..])) + ":1");
      RenderRing(pattern)
  }

  /** add_ring_label on a token with no ":1" label writes ":1" just before
      its first "]". */
  lemma AddRingLabelAtBracket(head: string, tail: string)
    requires ']' !in head && !Contains(head + "]" + tail, ":1")
    ensures AddRingLabel(head + "]" + tail) == head + ":1]" + tail
  {
    var atom, i := head + "]" + tail, |head|;
    assert atom[i] == ']' && atom[..i] == head && atom[i + 1..] == tail;
    var j := IndexOf(atom, ']');
    assert forall k :: 0 <= k < i ==> atom[k] != ']' by {
      forall k | 0 <= k < i ensures atom[k] != ']' {
        assert atom[k] == head[k];
      }
    }
    assert forall k :: 0 <= k < j ==> atom[k] != ']' by {
      forall k | 0 <= k < j ensures atom[k] != ']' {
        assert atom[..j][k] == atom[k];
      }
    }
    assert j == i;
  }

  predicate Untagged(pattern: Pattern)
  {
    forall i :: 0 <= i < |pattern| ==> TagSeparator !in pattern[i]
  }

  /** An untagged pattern (a core) renders as its own tokens, joined into a
      ring, with the label on position 0 only. */
  lemma BuildSmartsUntagged(pattern: Pattern)
    requires |pattern| > 0 && pattern[0] != "a" && Untagged(pattern)
    ensures Renderable(pattern)
    ensures BuildSmarts(pattern) == AddRingLabel(pattern[0]) + "1:" + Join(":", pattern[1..]) + ":1"
  {
    forall i | 0 <= i < |pattern| ensures KnownTag(TagOf(pattern[i])) && RenderPosition(pattern[i]) == pattern[i] {
      RenderPositionRules(pattern[i], "");
    }
    assert RenderTail(pattern[1..]) == pattern[1..];
  }

  lemma JoinFour(a: string, b: string, c: string, d: string)
    ensures Join(":", [a, b, c, d]) == a + ":" + b + ":" + c + ":" + d
  {
    assert [a, b, c, d][1..] == [b, c, d];
    assert [b, c, d][1..] == [c, d];
    assert [c, d][1..] == [d];
    assert Join(":", [c, d]) == c + ":" + d;
    assert Join(":", [b, c, d]) == b + ":" + (c + ":" + d);
    assert Join(":", [a, b, c, d]) == a + ":" + (b + ":" + (c + ":" + d));
  }

  /** A five-position core renders position by position, joined by ":". */
  lemma BuildSmartsFive(a: string, b: string, c: string, d: string, e: string)
    requires a != "a" && Untagged([a, b, c, d, e])
    ensures Renderable([a, b, c, d, e])
    ensures BuildSmarts([a, b, c, d, e]) == AddRingLabel(a) + "1:" + (b + ":" + c + ":" + d + ":" + e) + ":1"
  {
    BuildSmartsUntagged([a, b, c, d, e]);
    assert [a, b, c, d, e][1..] == [b, c, d, e];
    JoinFour(b, c, d, e);
  }

  /** The C* token takes its ring label inside the bracket: "[#6:1](*)". */
  lemma AddRingLabelOfCStar()
    ensures AddRingLabel(CStar) == "[#6" + ":1]" + Marker
  {
    assert CStar == "[#6" + "]" + Marker;
    NotContains(CStar, ":1");
    AddRingLabelAtBracket("[#6", Marker);
  }

  /** The core (C*, C*, N, C*, N) renders with the ring label on its first
      atom only; the other atoms keep their tokens, markers included. */
  lemma BuildSmartsCoreExample()
    ensures Renderable([CStar, CStar, NNoStar, CStar, NNoStar])
    ensures BuildSmarts([CStar, CStar, NNoStar, CStar, NNoStar]) ==
      ("[#6" + ":1]" + Marker) + "1:" + (CStar + ":" + NNoStar + ":" + CStar + ":" + NNoStar) + ":1"
  {
    TokensHaveNoSeparator();
    BuildSmartsFive(CStar, CStar, NNoStar, CStar, NNoStar);
    AddRingLabelOfCStar();
  }
}
