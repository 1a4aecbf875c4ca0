/**
 * `treeToElements`: flattening and ordering the tree, then giving every
 * node a display element whose `id` is built from its resource id and text
 * (each with a disambiguation index), else from its bounds, else from a
 * random token, and made unique within the response by a `-k` suffix on the
 * k-th repeat.
 */
module Identifiers {
  import opened Wrappers
  import opened Decimal
  import opened Bounds
  import opened Hierarchy
  import opened Ordering

  /** `UIElement`: one entry of the response. */
  datatype UIElement = UIElement(
    id: string,
    bounds: Option<Rect>,
    resourceId: Option<string>,
    resourceIdIndex: Option<int>,
    text: Option<string>,
    hintText: Option<string>,
    accessibilityText: Option<string>,
    textIndex: Option<int>)

  /**
   * The filter library, which is not part of this model:
   * `Filters.deepestMatchingElement(Filters.textMatches(..))` and
   * `Filters.deepestMatchingElement(Filters.idMatches(..))` applied to the
   * element list, and `Filters.INDEX_COMPARATOR` as `indexOrder(a, b)`,
   * "a sorts no later than b".
   */
  datatype Filters = Filters(
    deepestTextMatches: (string, seq<Node>) -> seq<Node>,
    deepestIdMatches: (string, seq<Node>) -> seq<Node>,
    indexOrder: (Node, Node) -> bool)

  /** `elements`: every node of the tree, sorted with the index comparator. */
  function Elements(tree: Node, filters: Filters): seq<Node> {
    SortWith(PostOrder(tree), filters.indexOrder)
  }

  /** `textIndex`: null without a text, else `getIndex` over the deepest nodes matching that text. */
  function TextIndex(n: Node, elements: seq<Node>, filters: Filters): Option<int> {
    match Attribute(n, "text")
    case None => None
    case Some(text) => DisambiguationIndex(filters.deepestTextMatches(text, elements), n, filters.indexOrder)
  }

  /** `resourceIdIndex`: null without a resource id, else `getIndex` over the deepest nodes matching that id. */
  function ResourceIdIndex(n: Node, elements: seq<Node>, filters: Filters): Option<int> {
    match Attribute(n, "resource-id")
    case None => None
    case Some(id) => DisambiguationIndex(filters.deepestIdMatches(id, elements), n, filters.indexOrder)
  }

  /** `joinToString(sep)`. */
  function Join(parts: seq<string>, sep: string): string {
    if |parts| == 0 then ""
    else if |parts| == 1 then parts[0]
    else Join(parts[..|parts| - 1], sep) + sep + parts[|parts| - 1]
  }

  /** `listOfNotNull(resourceId, resourceIdIndex, text, textIndex)`, each part as text. */
  function Parts(resourceId: Option<string>, resourceIdIndex: Option<int>,
                 text: Option<string>, textIndex: Option<int>): seq<string> {
    (if resourceId.Some? then [resourceId.value] else []) +
    (if resourceIdIndex.Some? then [IntToString(resourceIdIndex.value)] else []) +
    (if text.Some? then [text.value] else []) +
    (if textIndex.Some? then [IntToString(textIndex.value)] else [])
  }

  /** `"$x,$y,$w,$h"`. */
  function FormatRect(r: Rect): string {
    IntToString(r.x) + "," + IntToString(r.y) + "," + IntToString(r.width) + "," + IntToString(r.height)
  }

  /**
   * The id `createElementId` starts from: the present parts joined by `-`;
   * with no parts, the bounds as `x,y,w,h`; with no bounds either, `token`
   * (the random UUID).
   */
  function BaseId(resourceId: Option<string>, resourceIdIndex: Option<int>,
                  text: Option<string>, textIndex: Option<int>,
                  bounds: Option<Rect>, token: string): string {
    var parts := Parts(resourceId, resourceIdIndex, text, textIndex);
    if parts != [] then Join(parts, "-")
    else if bounds.Some? then FormatRect(bounds.value)
    else token
  }

  /** The base id of the node `n` among `elements`, with `token` as its UUID. */
  function BaseIdOf(n: Node, elements: seq<Node>, filters: Filters, token: string): string {
    BaseId(Attribute(n, "resource-id"), ResourceIdIndex(n, elements, filters),
           Attribute(n, "text"), TextIndex(n, elements, filters),
           BoundsOf(n.attributes), token)
  }

  /** The base ids of all elements, in order; element `i` draws UUID `token(i)`. */
  function BaseIds(elements: seq<Node>, filters: Filters, token: nat -> string): (r: seq<string>)
    ensures |r| == |elements|
  {
    seq(|elements|, i requires 0 <= i < |elements| => BaseIdOf(elements[i], elements, filters, token(i)))
  }

  /** The `count`-th element with a given base id: `base` for the first, `base-count` after. */
  function Suffixed(base: string, count: int): string {
    if count == 1 then base else base + "-" + IntToString(count)
  }

  /** The id given to element `i`, whose base id occurs for the k-th time there. */
  function FinalId(bases: seq<string>, i: nat): string
    requires i < |bases|
  {
    Suffixed(bases[i], multiset(bases[..i + 1])[bases[i]])
  }

  /** The display element for node `n` with id `id`. */
  function Describe(n: Node, id: string, elements: seq<Node>, filters: Filters): UIElement {
    UIElement(id, BoundsOf(n.attributes),
              Attribute(n, "resource-id"), ResourceIdIndex(n, elements, filters),
              Attribute(n, "text"), Attribute(n, "hintText"), Attribute(n, "accessibilityText"),
              TextIndex(n, elements, filters))
  }

  /** What `treeToElements` returns for the sorted `elements`. */
  function Synthesize(elements: seq<Node>, filters: Filters, token: nat -> string): (r: seq<UIElement>)
    ensures |r| == |elements|
  {
    var bases := BaseIds(elements, filters, token);
    seq(|elements|, i requires 0 <= i < |elements| => Describe(elements[i], FinalId(bases, i), elements, filters))
  }

  /**
   * The per-response counter map `ids` and the `compute` step of
   * `createElementId`. `produced` is the history of base ids seen so far.
   */
  class IdCounter {
    var ids: map<string, int>
    ghost var produced: seq<string>

    /** Each base id maps to the number of times it has been produced, and only those that were. */
    ghost predicate Valid()
      reads this
    {
      && (forall b :: b in ids <==> b in produced)
      && (forall b :: b in ids ==> ids[b] == multiset(produced)[b])
    }

    constructor ()
      ensures Valid() && produced == []
    {
      ids := map[];
      produced := [];
    }

    /** `ids.compute(id) { _, i -> (i ?: 0) + 1 }`, then the id with `-index` unless it is the first. */
    method CreateElementId(base: string) returns (id: string)
      requires Valid()
      modifies this
      ensures Valid()
      ensures produced == old(produced) + [base]
      ensures id == Suffixed(base, multiset(produced)[base])
    {
      var index := (if base in ids then ids[base] else 0) + 1;
      ids := ids[base := index];
      produced := produced + [base];
      id := if index == 1 then base else base + "-" + IntToString(index);
    }
  }

  /**
   * The body of `elements.map { element -> ... }` for element `i`: reads the
   * attributes and bounds, computes both indices, and draws the id from the
   * shared counter.
   */
  method DescribeElement(elements: seq<Node>, i: nat, filters: Filters, token: string, counter: IdCounter)
    returns (described: UIElement)
    requires i < |elements| && counter.Valid()
    modifies counter
    ensures counter.Valid()
    ensures counter.produced == old(counter.produced) + [BaseIdOf(elements[i], elements, filters, token)]
    ensures described == Describe(elements[i], Suffixed(BaseIdOf(elements[i], elements, filters, token),
      multiset(counter.produced)[BaseIdOf(elements[i], elements, filters, token)]), elements, filters)
  {
    var element := elements[i];
    var bounds := BoundsOf(element.attributes);
    var text := Attribute(element, "text");
    var hintText := Attribute(element, "hintText");
    var accessibilityText := Attribute(element, "accessibilityText");
    var resourceId := Attribute(element, "resource-id");
    var textIndex: Option<int> := None;
    if text.Some? {
      textIndex := GetIndex(filters.deepestTextMatches(text.value, elements), element, filters.indexOrder);
    }
    var resourceIdIndex: Option<int> := None;
    if resourceId.Some? {
      resourceIdIndex := GetIndex(filters.deepestIdMatches(resourceId.value, elements), element, filters.indexOrder);
    }
    var base := BaseId(resourceId, resourceIdIndex, text, textIndex, bounds, token);
    var id := counter.CreateElementId(base);
    described := UIElement(id, bounds, resourceId, resourceIdIndex, text, hintText, accessibilityText, textIndex);
  }

  lemma PrefixSnoc<T>(s: seq<T>, i: nat)
    requires i < |s|
    ensures s[..i + 1] == s[..i] + [s[i]]
  {
  }

  /** `treeToElements(tree)`; element `i` of the sorted list draws UUID `token(i)`. */
  method TreeToElements(tree: Node, filters: Filters, token: nat -> string) returns (result: seq<UIElement>)
    ensures result == Synthesize(Elements(tree, filters), filters, token)
  {
    var gathered := GatherElements(tree, []);
    assert gathered == PostOrder(tree);
    var elements := SortWith(gathered, filters.indexOrder);
    ghost var bases := BaseIds(elements, filters, token);
    ghost var expected := Synthesize(elements, filters, token);
    var counter := new IdCounter();
    result := [];
    for i := 0 to |elements|
      invariant counter.Valid()
      invariant counter.produced == bases[..i]
      invariant result == expected[..i]
    {
      var described := DescribeElement(elements, i, filters, token(i), counter);
      PrefixSnoc(bases, i);
      PrefixSnoc(expected, i);
      assert described == expected[i];
      result := result + [described];
    }
    assert expected[..|elements|] == expected;
  }

  /** The elements are the nodes of the tree, each once per occurrence, in non-decreasing comparator order. */
  lemma ElementsAreSortedNodes(tree: Node, filters: Filters)
    ensures multiset(Elements(tree, filters)) == Nodes(tree)
    ensures TotalPreorder(filters.indexOrder) ==> Sorted(Elements(tree, filters), filters.indexOrder)
  {
    SortWithPermutes(PostOrder(tree), filters.indexOrder);
    PostOrderIsNodes(tree);
    if TotalPreorder(filters.indexOrder) {
      SortWithSorted(PostOrder(tree), filters.indexOrder);
    }
  }

  /**
   * The first element with a base id keeps it unchanged; the k-th one
   * (k >= 2) gets `base-k`, where k counts that base among the elements so far.
   */
  lemma FinalIdOccurrence(bases: seq<string>, i: nat)
    requires i < |bases|
    ensures bases[i] !in bases[..i] ==> FinalId(bases, i) == bases[i]
    ensures bases[i] in bases[..i] ==>
      var k := multiset(bases[..i])[bases[i]] + 1;
      k >= 2 && FinalId(bases, i) == bases[i] + "-" + IntToString(k)
  {
    assert bases[..i + 1] == bases[..i] + [bases[i]];
  }

  /** The last position of `c` in `s`, or -1 when `s` has no `c`; it reads a suffixed id back (see `SuffixedSplit`). */
  function LastIndexOf(s: string, c: char): (k: int)
    ensures -1 <= k < |s|
    ensures k == -1 <==> c !in s
    ensures k >= 0 ==> s[k] == c && c !in s[k + 1..]
  {
    if s == [] then -1
    else if s[|s| - 1] == c then |s| - 1
    else LastIndexOf(s[..|s| - 1], c)
  }

  /** An id cut at its last `-`: the base and the repeat counter. */
  function CounterSplit(id: string): (string, string) {
    var k := LastIndexOf(id, '-');
    if k < 0 then (id, "") else (id[..k], id[k + 1..])
  }

  lemma {:induction false} LastIndexOfBefore(x: string, c: char, d: string)
    requires c !in d
    ensures LastIndexOf(x + [c] + d, c) == |x|
    decreases |d|
  {
    var s := x + [c] + d;
    if d != [] {
      assert s[..|s| - 1] == x + [c] + d[..|d| - 1];
      assert s[|s| - 1] == d[|d| - 1];
      LastIndexOfBefore(x, c, d[..|d| - 1]);
    }
  }

  /** `base-counter` cuts back into `base` and `counter` when the counter has no `-`. */
  lemma CounterSplitOf(base: string, counter: string)
    requires '-' !in counter
    ensures CounterSplit(base + "-" + counter) == (base, counter)
  {
    LastIndexOfBefore(base, '-', counter);
    var s := base + "-" + counter;
    assert s[..|base|] == base;
    assert s[|base| + 1..] == counter;
  }

  lemma CounterHasNoDash(k: nat)
    ensures '-' !in IntToString(k)
  {
    var d := IntToString(k);
    assert forall i :: 0 <= i < |d| ==> d[i] != '-' by {
      assert AllDigits(d);
    }
  }

  /** A suffixed id cuts back into its base and its counter. */
  lemma SuffixedSplit(base: string, k: nat)
    requires k >= 2
    ensures CounterSplit(Suffixed(base, k)) == (base, IntToString(k))
    ensures DigitsValue(IntToString(k)) == k
  {
    CounterHasNoDash(k);
    CounterSplitOf(base, IntToString(k));
    DigitsOfNatToString(k);
  }

  /** Base id `b` is not `b' + "-" + k` for any base `b'` and repeat count `k >= 2`. */
  ghost predicate NoSuffixClash(bases: seq<string>) {
    forall i, j, k :: 0 <= i < |bases| && 0 <= j < |bases| && 2 <= k ==> bases[i] != Suffixed(bases[j], k)
  }

  lemma CountGrows(bases: seq<string>, i: nat, j: nat)
    requires i < j < |bases| && bases[i] == bases[j]
    ensures 1 <= multiset(bases[..i + 1])[bases[i]] < multiset(bases[..j + 1])[bases[j]]
  {
    assert bases[..j + 1] == bases[..i + 1] + bases[i + 1..j] + [bases[j]];
  }

  /** Elements with the same base id get different ids. */
  lemma SameBaseDistinctIds(bases: seq<string>, i: nat, j: nat)
    requires i < j < |bases| && bases[i] == bases[j]
    ensures FinalId(bases, i) != FinalId(bases, j)
  {
    CountGrows(bases, i, j);
    var m := multiset(bases[..i + 1])[bases[i]];
    var n := multiset(bases[..j + 1])[bases[j]];
    if m == 1 {
      assert |FinalId(bases, i)| < |FinalId(bases, j)|;
    } else {
      SuffixedSplit(bases[i], m);
      SuffixedSplit(bases[j], n);
      assert CounterSplit(FinalId(bases, i)).1 != CounterSplit(FinalId(bases, j)).1;
    }
  }

  /**
   * The ids are pairwise distinct as long as no base id is another one with
   * a `-k` repeat suffix (k >= 2) already on it.
   */
  lemma IdsUnique(bases: seq<string>, i: nat, j: nat)
    requires NoSuffixClash(bases)
    requires i < j < |bases|
    ensures FinalId(bases, i) != FinalId(bases, j)
  {
    if bases[i] == bases[j] {
      SameBaseDistinctIds(bases, i, j);
    } else {
      var m := multiset(bases[..i + 1])[bases[i]];
      var n := multiset(bases[..j + 1])[bases[j]];
      assert bases[..i + 1][i] == bases[i] && bases[..j + 1][j] == bases[j];
      if m >= 2 && n >= 2 {
        SuffixedSplit(bases[i], m);
        SuffixedSplit(bases[j], n);
        assert CounterSplit(FinalId(bases, i)).0 != CounterSplit(FinalId(bases, j)).0;
      } else if m >= 2 {
        assert bases[j] != Suffixed(bases[i], m);
      } else if n >= 2 {
        assert bases[i] != Suffixed(bases[j], n);
      }
    }
  }

  /**
   * Without that condition the suffix can collide: base ids `b`, `b`,
   * `b-2` (two nodes with no attributes and the same bounds `b`, and a node
   * whose only part is the text or resource id `b-2`) give ids `b`, `b-2`, `b-2`.
   */
  lemma RepeatSuffixCanCollide(b: string)
    ensures FinalId([b, b, b + "-2"], 1) == FinalId([b, b, b + "-2"], 2) == b + "-2"
  {
    var bases := [b, b, b + "-2"];
    assert bases[..2] == [b, b];
    assert multiset(bases[..2])[b] == 2;
    assert bases[2] != b by {
      assert |bases[2]| != |b|;
    }
    assert bases[..3] == [b, b] + [b + "-2"];
    assert multiset(bases[..3])[b + "-2"] == 1;
    assert IntToString(2) == "2";
  }

  /** Cuts `s` at every `c`: the inverse of `Join` for parts that do not contain `c`. */
  function Split(s: string, c: char): (r: seq<string>)
    ensures |r| > 0
  {
    if s == [] then [""]
    else
      var init := Split(s[..|s| - 1], c);
      if s[|s| - 1] == c then init + [""]
      else init[..|init| - 1] + [init[|init| - 1] + [s[|s| - 1]]]
  }

  /** One more character: a separator opens a new piece, any other character extends the last piece. */
  lemma SplitSnoc(u: string, x: char, c: char)
    ensures var r := Split(u, c);
      Split(u + [x], c) == if x == c then r + [""] else r[..|r| - 1] + [r[|r| - 1] + [x]]
  {
    assert (u + [x])[..|u + [x]| - 1] == u;
  }

  lemma {:induction false} SplitAppendPlain(s: string, t: string, c: char)
    requires c !in t
    ensures var r := Split(s, c); Split(s + t, c) == r[..|r| - 1] + [r[|r| - 1] + t]
    decreases |t|
  {
    var r := Split(s, c);
    var front, last := r[..|r| - 1], r[|r| - 1];
    if t == [] {
      assert s + t == s;
      assert last + t == last;
      assert front + [last] == r;
    } else {
      var t', x := t[..|t| - 1], t[|t| - 1];
      assert c !in t' && x != c by {
        assert x in t;
        assert forall y | y in t' :: y in t;
      }
      assert s + t == (s + t') + [x];
      assert t == t' + [x];
      SplitAppendPlain(s, t', c);
      SplitAppendPlainStep(s + t', front, last + t', x, c);
      assert (last + t') + [x] == last + t;
    }
  }

  lemma SplitAppendPlainStep(u: string, front: seq<string>, last: string, x: char, c: char)
    requires x != c && Split(u, c) == front + [last]
    ensures Split(u + [x], c) == front + [last + [x]]
  {
    SplitSnoc(u, x, c);
    assert (front + [last])[..|front|] == front;
  }

  lemma SplitAppendSeparator(s: string, c: char)
    ensures Split(s + [c], c) == Split(s, c) + [""]
  {
    SplitSnoc(s, c, c);
  }

  lemma JoinSnoc(parts: seq<string>, sep: string)
    requires |parts| > 1
    ensures Join(parts, sep) == Join(parts[..|parts| - 1], sep) + sep + parts[|parts| - 1]
  {
  }

  lemma SplitPlain(last: string, c: char)
    requires c !in last
    ensures Split(last, c) == [last]
  {
    SplitAppendPlain([], last, c);
    assert [] + last == last;
    assert "" + last == last;
  }

  /** A separator followed by a piece without separators adds that piece. */
  lemma SplitAfterSeparator(j: string, init: seq<string>, last: string, c: char)
    requires Split(j, c) == init && c !in last
    ensures Split(j + [c] + last, c) == init + [last]
  {
    SplitAppendSeparator(j, c);
    SplitAppendPlain(j + [c], last, c);
    assert (init + [""])[..|init|] == init;
    assert "" + last == last;
  }

  lemma SplitJoinStep(parts: seq<string>, c: char)
    requires |parts| > 1 && c !in parts[|parts| - 1]
    requires Split(Join(parts[..|parts| - 1], [c]), c) == parts[..|parts| - 1]
    ensures Split(Join(parts, [c]), c) == parts
  {
    var init, last := parts[..|parts| - 1], parts[|parts| - 1];
    JoinSnoc(parts, [c]);
    SplitAfterSeparator(Join(init, [c]), init, last, c);
    assert init + [last] == parts;
  }

  /** Splitting joined parts gives the parts back, when none of them contains the separator. */
  lemma {:induction false} SplitJoin(parts: seq<string>, c: char)
    requires |parts| > 0
    requires forall i :: 0 <= i < |parts| ==> c !in parts[i]
    ensures Split(Join(parts, [c]), c) == parts
  {
    if |parts| == 1 {
      SplitPlain(parts[0], c);
      assert [parts[0]] == parts;
    } else {
      var init := parts[..|parts| - 1];
      assert forall i :: 0 <= i < |init| ==> init[i] == parts[i];
      SplitJoin(init, c);
      SplitJoinStep(parts, c);
    }
  }

  /**
   * When the parts contain no `-` (for instance a resource id without `-`
   * and non-negative indices), the parts can be read back from the base id,
   * in the order resource id, resource id index, text, text index.
   */
  lemma BaseIdFromParts(resourceId: Option<string>, resourceIdIndex: Option<int>,
                        text: Option<string>, textIndex: Option<int>,
                        bounds: Option<Rect>, token: string)
    requires Parts(resourceId, resourceIdIndex, text, textIndex) != []
    requires forall p :: p in Parts(resourceId, resourceIdIndex, text, textIndex) ==> '-' !in p
    ensures Split(BaseId(resourceId, resourceIdIndex, text, textIndex, bounds, token), '-')
         == Parts(resourceId, resourceIdIndex, text, textIndex)
  {
    SplitJoin(Parts(resourceId, resourceIdIndex, text, textIndex), '-');
  }

  /** With no parts, the id made from the bounds reads back as the rectangle's four numbers. */
  lemma FallbackIdDecodes(r: Rect, token: string)
    requires IsInt32(r.x) && IsInt32(r.y) && IsInt32(r.width) && IsInt32(r.height)
    ensures var pieces := Split(BaseId(None, None, None, None, Some(r), token), ',');
      |pieces| == 4 &&
      ParseInt(pieces[0]) == Some(r.x) && ParseInt(pieces[1]) == Some(r.y) &&
      ParseInt(pieces[2]) == Some(r.width) && ParseInt(pieces[3]) == Some(r.height)
  {
    var fields := [IntToString(r.x), IntToString(r.y), IntToString(r.width), IntToString(r.height)];
    forall p | p in fields ensures ',' !in p {
      assert IsGroup(p) by {
        var k :| 0 <= k < 4 && fields[k] == p;
        if k == 0 { IntToStringIsGroup(r.x); }
        else if k == 1 { IntToStringIsGroup(r.y); }
        else if k == 2 { IntToStringIsGroup(r.width); }
        else { IntToStringIsGroup(r.height); }
      }
      assert forall i :: 0 <= i < |p| ==> p[i] != ',';
    }
    assert Join(fields[..1], ",") == fields[0];
    assert fields[..2][..1] == fields[..1];
    assert Join(fields[..2], ",") == fields[0] + "," + fields[1];
    assert fields[..3][..2] == fields[..2];
    assert Join(fields[..3], ",") == fields[0] + "," + fields[1] + "," + fields[2];
    assert fields[..4][..3] == fields[..3] && fields[..4] == fields;
    assert Join(fields, ",") == FormatRect(r);
    SplitJoin(fields, ',');
    ParseIntOfIntToString(r.x);
    ParseIntOfIntToString(r.y);
    ParseIntOfIntToString(r.width);
    ParseIntOfIntToString(r.height);
  }

  /** A base id is never empty while the random token is not. */
  lemma BaseIdNonEmpty(n: Node, elements: seq<Node>, filters: Filters, token: string)
    requires token != ""
    ensures BaseIdOf(n, elements, filters, token) != ""
  {
    var parts := Parts(Attribute(n, "resource-id"), ResourceIdIndex(n, elements, filters),
                       Attribute(n, "text"), TextIndex(n, elements, filters));
    if parts != [] {
      JoinNonEmpty(parts, "-");
    }
  }

  lemma {:induction false} JoinNonEmpty(parts: seq<string>, sep: string)
    requires parts != [] && forall p :: p in parts ==> p != ""
    ensures Join(parts, sep) != ""
  {
    assert parts[0] in parts;
    if |parts| > 1 {
      assert parts[|parts| - 1] in parts;
      assert |Join(parts, sep)| >= |parts[|parts| - 1]|;
    }
  }
}
