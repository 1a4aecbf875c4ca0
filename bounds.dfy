/**
 * `TreeNode.bounds()`: the `bounds` attribute of a node, written `[l,t][r,b]`
 * (left, top, right, bottom), read as a rectangle `{x = l, y = t,
 * width = r - l, height = b - t}`.
 *
 * The text must match the whole of the pattern
 * `\[([0-9-]+),([0-9-]+)]\[([0-9-]+),([0-9-]+)]` and each of the four groups
 * must then parse as an `Int`; otherwise there are no bounds.
 */
module Bounds {
  import opened Wrappers
  import opened Decimal

  /** `UIElementBounds`. */
  datatype Rect = Rect(x: int, y: int, width: int, height: int)

  /**
   * The four ways `bounds()` can end. All but `Parsed` give null; only
   * `Mismatch` also prints a warning on the error stream.
   */
  datatype BoundsOutcome =
    | NoBounds           // there is no `bounds` attribute
    | Mismatch           // the text does not match the pattern (warning printed)
    | Unparsable         // a group is not an `Int` (`--1`, `1-`, out of range)
    | Parsed(rect: Rect)

  /** The four captured groups of the pattern, in order. */
  datatype Groups = Groups(left: string, top: string, right: string, bottom: string)

  /** The character class `[0-9-]`. */
  predicate IsGroupChar(c: char) {
    IsDigit(c) || c == '-'
  }

  /** `[0-9-]+`. */
  predicate IsGroup(g: string) {
    |g| > 0 && forall i :: 0 <= i < |g| ==> IsGroupChar(g[i])
  }

  /** The only texts the pattern matches: `[g1,g2][g3,g4]`. */
  function Render(g: Groups): string {
    "[" + g.left + "," + g.top + "][" + g.right + "," + g.bottom + "]"
  }

  /** `Render` as the four segments `MatchBounds` reads one after the other. */
  lemma RenderNested(g: Groups)
    ensures Render(g) == "[" + g.left + [','] + ("" + g.top + [']'] + ("[" + g.right + [','] + ("" + g.bottom + [']'] + [])))
  {
    var s4 := "" + g.bottom + [']'] + [];
    var s3 := "[" + g.right + [','] + s4;
    var s2 := "" + g.top + [']'] + s3;
    assert s4 == g.bottom + "]";
    assert s3 == "[" + g.right + "," + g.bottom + "]";
    assert s2 == g.top + "][" + g.right + "," + g.bottom + "]";
  }

  predicate IsMatch(g: Groups) {
    IsGroup(g.left) && IsGroup(g.top) && IsGroup(g.right) && IsGroup(g.bottom)
  }

  /** The length of the longest run of `[0-9-]` characters that starts `s`. */
  function GroupSpan(s: string): (n: nat)
    ensures n <= |s|
    ensures forall i :: 0 <= i < n ==> IsGroupChar(s[i])
    ensures n < |s| ==> !IsGroupChar(s[n])
  {
    if s == [] || !IsGroupChar(s[0]) then 0 else 1 + GroupSpan(s[1..])
  }

  /**
   * Reads `open`, then one group, then the character `close` from the start
   * of `s`; gives the group and what follows `close`.
   */
  function Segment(s: string, open: string, close: char): (r: Option<(string, string)>)
    ensures r.Some? ==> IsGroup(r.value.0) && s == open + r.value.0 + [close] + r.value.1
  {
    if |s| < |open| || s[..|open|] != open then None
    else
      var t := s[|open|..];
      var n := GroupSpan(t);
      if n == 0 || n == |t| || t[n] != close then None
      else
        assert t == t[..n] + [close] + t[n + 1..];
        Some((t[..n], t[n + 1..]))
  }

  /** `pattern.matcher(text).matches()`, with the captured groups. */
  function MatchBounds(s: string): (r: Option<Groups>)
    ensures r.Some? ==> IsMatch(r.value) && s == Render(r.value)
  {
    match Segment(s, "[", ',')
    case None => None
    case Some((left, s1)) =>
      match Segment(s1, "", ']')
      case None => None
      case Some((top, s2)) =>
        match Segment(s2, "[", ',')
        case None => None
        case Some((right, s3)) =>
          match Segment(s3, "", ']')
          case None => None
          case Some((bottom, s4)) =>
            if s4 != [] then None
            else
              var g := Groups(left, top, right, bottom);
              RenderNested(g);
              Some(g)
  }

  /** `TreeNode.bounds()` over the node's attribute map. */
  function ParseBounds(attributes: map<string, string>): BoundsOutcome {
    if "bounds" !in attributes then NoBounds
    else
      match MatchBounds(attributes["bounds"])
      case None => Mismatch
      case Some(g) =>
        match (ParseInt(g.left), ParseInt(g.top), ParseInt(g.right), ParseInt(g.bottom))
        case (Some(l), Some(t), Some(r), Some(b)) => Parsed(Rect(l, t, Sub32(r, l), Sub32(b, t)))
        case _ => Unparsable
  }

  /** The nullable value `bounds()` returns. */
  function BoundsOf(attributes: map<string, string>): Option<Rect> {
    match ParseBounds(attributes)
    case Parsed(rect) => Some(rect)
    case _ => None
  }

  /** The text a device writes for the rectangle with corners (l, t) and (r, b). */
  function FormatBounds(l: int, t: int, r: int, b: int): string {
    Render(Groups(IntToString(l), IntToString(t), IntToString(r), IntToString(b)))
  }

  lemma {:induction false} GroupSpanOfGroup(g: string, rest: string)
    requires IsGroup(g) || g == []
    requires rest != [] && !IsGroupChar(rest[0])
    ensures GroupSpan(g + rest) == |g|
  {
    if g != [] {
      assert (g + rest)[1..] == g[1..] + rest;
      GroupSpanOfGroup(g[1..], rest);
    }
  }

  lemma SegmentOfGroup(open: string, g: string, close: char, rest: string)
    requires IsGroup(g) && !IsGroupChar(close)
    ensures Segment(open + g + [close] + rest, open, close) == Some((g, rest))
  {
    var s := open + g + [close] + rest;
    assert s[..|open|] == open;
    var t := s[|open|..];
    assert t == g + ([close] + rest);
    GroupSpanOfGroup(g, [close] + rest);
    assert t[..|g|] == g && t[|g| + 1..] == rest;
  }

  /** The matcher accepts exactly the texts `[g1,g2][g3,g4]` whose groups are `[0-9-]+`, and captures those groups. */
  lemma MatchBoundsExactly(s: string, g: Groups)
    ensures MatchBounds(s) == Some(g) <==> IsMatch(g) && s == Render(g)
  {
    if IsMatch(g) && s == Render(g) {
      var s3 := "" + g.bottom + [']'] + [];
      var s2 := "[" + g.right + [','] + s3;
      var s1 := "" + g.top + [']'] + s2;
      RenderNested(g);
      SegmentOfGroup("[", g.left, ',', s1);
      SegmentOfGroup("", g.top, ']', s2);
      SegmentOfGroup("[", g.right, ',', s3);
      SegmentOfGroup("", g.bottom, ']', []);
    }
  }

  lemma IntToStringIsGroup(n: int)
    ensures IsGroup(IntToString(n))
  {
    var s := IntToString(n);
    if n < 0 {
      assert forall i :: 1 <= i < |s| ==> s[i] == NatToString(-n)[i - 1];
    }
  }

  /**
   * Reading back the text of a rectangle with `Int` corners gives
   * x = l, y = t, width = r - l and height = b - t, with `Int` wrap-around.
   */
  lemma ParseFormattedBounds(attributes: map<string, string>, l: int, t: int, r: int, b: int)
    requires IsInt32(l) && IsInt32(t) && IsInt32(r) && IsInt32(b)
    requires "bounds" in attributes && attributes["bounds"] == FormatBounds(l, t, r, b)
    ensures ParseBounds(attributes) == Parsed(Rect(l, t, Sub32(r, l), Sub32(b, t)))
  {
    var g := Groups(IntToString(l), IntToString(t), IntToString(r), IntToString(b));
    IntToStringIsGroup(l);
    IntToStringIsGroup(t);
    IntToStringIsGroup(r);
    IntToStringIsGroup(b);
    MatchBoundsExactly(attributes["bounds"], g);
    assert MatchBounds(attributes["bounds"]) == Some(g);
    ParseIntOfIntToString(l);
    ParseIntOfIntToString(t);
    ParseIntOfIntToString(r);
    ParseIntOfIntToString(b);
  }

  /** The pattern fails exactly when no text of the form `[g1,g2][g3,g4]` with `[0-9-]+` groups is written. */
  lemma MismatchExactly(attributes: map<string, string>)
    ensures ParseBounds(attributes) == Mismatch <==>
      "bounds" in attributes && forall g :: IsMatch(g) ==> attributes["bounds"] != Render(g)
  {
    if "bounds" in attributes {
      var text := attributes["bounds"];
      if MatchBounds(text).None? {
        forall g | IsMatch(g) ensures text != Render(g) {
          MatchBoundsExactly(text, g);
        }
      }
    }
  }

  /** `[10,20][110,220]` reads as x = 10, y = 20, width = 100, height = 200. */
  lemma ParseExample()
    ensures BoundsOf(map["bounds" := "[10,20][110,220]"]) == Some(Rect(10, 20, 100, 200))
  {
    assert IntToString(10) == "10";
    assert IntToString(20) == "20";
    assert IntToString(110) == "110";
    assert IntToString(220) == "220";
    assert FormatBounds(10, 20, 110, 220) == "[10,20][110,220]";
    ParseFormattedBounds(map["bounds" := "[10,20][110,220]"], 10, 20, 110, 220);
  }

  /** Text that is not a rectangle gives no bounds (and a warning), not a failure. */
  lemma GarbageExample()
    ensures ParseBounds(map["bounds" := "garbage"]) == Mismatch
  {
  }

  /** `--1` matches `[0-9-]+` but is not an `Int`. */
  lemma DoubleMinusExample()
    ensures ParseBounds(map["bounds" := "[--1,0][1,1]"]) == Unparsable
  {
    var g := Groups("--1", "0", "1", "1");
    assert IsMatch(g);
    assert Render(g) == "[--1,0][1,1]";
    MatchBoundsExactly("[--1,0][1,1]", g);
    assert ParseInt("--1") == None by {
      assert !IsDigit("--1"[1..][0]);
    }
  }

  /** A corner outside the `Int` range (e.g. `2147483648`) matches the pattern but gives no bounds. */
  lemma OutOfRangeCorner(attributes: map<string, string>, l: int, t: int, r: int, b: int)
    requires !(IsInt32(l) && IsInt32(t) && IsInt32(r) && IsInt32(b))
    requires "bounds" in attributes && attributes["bounds"] == FormatBounds(l, t, r, b)
    ensures ParseBounds(attributes) == Unparsable
  {
    var g := Groups(IntToString(l), IntToString(t), IntToString(r), IntToString(b));
    IntToStringIsGroup(l);
    IntToStringIsGroup(t);
    IntToStringIsGroup(r);
    IntToStringIsGroup(b);
    MatchBoundsExactly(attributes["bounds"], g);
    ParseIntOfIntToString(l);
    ParseIntOfIntToString(t);
    ParseIntOfIntToString(r);
    ParseIntOfIntToString(b);
  }
}
