/**
 * The list operations `getIndex` relies on: `sortedWith` under the shared
 * index comparator, the identity filter that drops repeated matches,
 * `indexOf`, and `getIndex` itself.
 */
module Ordering {
  import opened Wrappers

  /**
   * What a `Comparator` promises `sortedWith`: `le(a, b)` stands for
   * `compare(a, b) <= 0`, and it is total and transitive.
   */
  ghost predicate TotalPreorder<T(!new)>(le: (T, T) -> bool) {
    && (forall a, b :: le(a, b) || le(b, a))
    && (forall a, b, c :: le(a, b) && le(b, c) ==> le(a, c))
  }

  ghost predicate Sorted<T>(s: seq<T>, le: (T, T) -> bool) {
    forall i, j :: 0 <= i < j < |s| ==> le(s[i], s[j])
  }

  /** Places `x` after every element of `s` that is not strictly greater than it. */
  function Insert<T>(x: T, s: seq<T>, le: (T, T) -> bool): seq<T> {
    if s == [] then [x]
    else if le(s[|s| - 1], x) then s + [x]
    else Insert(x, s[..|s| - 1], le) + [s[|s| - 1]]
  }

  /** `sortedWith(comparator)`: a stable sort, here by insertion from the left. */
  function SortWith<T>(s: seq<T>, le: (T, T) -> bool): seq<T> {
    if s == [] then [] else Insert(s[|s| - 1], SortWith(s[..|s| - 1], le), le)
  }

  lemma {:induction false} InsertPermutes<T>(x: T, s: seq<T>, le: (T, T) -> bool)
    ensures multiset(Insert(x, s, le)) == multiset(s) + multiset{x}
  {
    if s != [] && !le(s[|s| - 1], x) {
      InsertPermutes(x, s[..|s| - 1], le);
      assert s == s[..|s| - 1] + [s[|s| - 1]];
    }
  }

  /** Sorting rearranges the list: it keeps every element as often as it occurs. */
  lemma {:induction false} SortWithPermutes<T>(s: seq<T>, le: (T, T) -> bool)
    ensures multiset(SortWith(s, le)) == multiset(s)
  {
    if s != [] {
      var init, last := s[..|s| - 1], s[|s| - 1];
      var sorted := SortWith(init, le);
      assert s == init + [last];
      calc {
        multiset(SortWith(s, le));
        multiset(Insert(last, sorted, le));
        { InsertPermutes(last, sorted, le); }
        multiset(sorted) + multiset{last};
        { SortWithPermutes(init, le); }
        multiset(init) + multiset{last};
        multiset(init + [last]);
      }
    }
  }

  lemma {:induction false} InsertSorted<T(!new)>(x: T, s: seq<T>, le: (T, T) -> bool)
    requires TotalPreorder(le) && Sorted(s, le)
    ensures Sorted(Insert(x, s, le), le)
  {
    if s != [] {
      var init, last := s[..|s| - 1], s[|s| - 1];
      if le(last, x) {
        forall i | 0 <= i < |s| ensures le(s[i], x) {
          if i < |s| - 1 { assert le(s[i], last); }
        }
      } else {
        InsertSorted(x, init, le);
        InsertPermutes(x, init, le);
        var r := Insert(x, init, le);
        forall i | 0 <= i < |r| ensures le(r[i], last) {
          assert r[i] in multiset(r);
          if r[i] != x {
            assert r[i] in multiset(init);
            var k :| 0 <= k < |init| && init[k] == r[i];
            assert le(s[k], s[|s| - 1]);
          }
        }
      }
    }
  }

  /** Under a total preorder, `SortWith` puts the list in non-decreasing order. */
  lemma {:induction false} SortWithSorted<T(!new)>(s: seq<T>, le: (T, T) -> bool)
    requires TotalPreorder(le)
    ensures Sorted(SortWith(s, le), le)
  {
    if s != [] {
      SortWithSorted(s[..|s| - 1], le);
      InsertSorted(s[|s| - 1], SortWith(s[..|s| - 1], le), le);
    }
  }

  /** `indexOf(x)`: the first position holding `x`, or -1 if there is none. */
  function IndexOf<T(==)>(s: seq<T>, x: T): (r: int)
    ensures r == -1 <==> x !in s
    ensures r != -1 ==> 0 <= r < |s| && s[r] == x && x !in s[..r]
  {
    if s == [] then -1
    else if s[0] == x then 0
    else
      var k := IndexOf(s[1..], x);
      if k == -1 then -1
      else
        assert s[..k + 1] == [s[0]] + s[1..][..k];
        k + 1
  }

  /**
   * The matches with repeats dropped: an element is kept where it occurs for
   * the first time (the `IdentityHashMap.put(it, Unit) == null` filter).
   */
  function Distinct<T(==)>(s: seq<T>): seq<T> {
    if s == [] then []
    else if s[|s| - 1] in s[..|s| - 1] then Distinct(s[..|s| - 1])
    else Distinct(s[..|s| - 1]) + [s[|s| - 1]]
  }

  ghost predicate NoRepeats<T>(s: seq<T>) {
    forall i, j :: 0 <= i < j < |s| ==> s[i] != s[j]
  }

  /**
   * `Distinct(s)` holds each element of `s` once, and nothing else, in the
   * order of their first occurrences in `s`.
   */
  lemma {:induction false} DistinctSpec<T>(s: seq<T>)
    ensures forall x :: x in Distinct(s) <==> x in s
    ensures NoRepeats(Distinct(s))
    ensures forall i, j :: 0 <= i < j < |Distinct(s)| ==> IndexOf(s, Distinct(s)[i]) < IndexOf(s, Distinct(s)[j])
  {
    if s != [] {
      var init, x := s[..|s| - 1], s[|s| - 1];
      DistinctSpec(init);
      var d := Distinct(init);
      assert s == init + [x];
      forall y | y in init ensures IndexOf(s, y) == IndexOf(init, y) {
        IndexOfPrefix(init, [x], y);
      }
      if x !in init {
        assert IndexOf(s, x) == |init| by {
          assert s[..|init|] == init;
        }
      }
    }
  }

  /** `Distinct(s)` is as long as the number of different elements of `s`. */
  lemma {:induction false} DistinctCount<T>(s: seq<T>)
    ensures |Distinct(s)| == |set x | x in s|
  {
    if s != [] {
      var init, x := s[..|s| - 1], s[|s| - 1];
      DistinctCount(init);
      var before := set y | y in init;
      assert (set y | y in s) == before + {x} by {
        assert s == init + [x];
      }
      if x !in init {
        assert x !in before;
        assert |before + {x}| == |before| + 1;
      } else {
        assert before + {x} == before;
      }
    }
  }

  lemma IndexOfPrefix<T>(s: seq<T>, t: seq<T>, x: T)
    requires x in s
    ensures IndexOf(s + t, x) == IndexOf(s, x)
  {
    var k := IndexOf(s, x);
    var m := IndexOf(s + t, x);
    assert (s + t)[..k + 1] == s[..k + 1];
    assert m <= k;
    assert (s + t)[..m] == s[..m];
  }

  /**
   * `getIndex`'s value for the deepest matches `matches` of one attribute:
   * null when fewer than two distinct nodes match, otherwise the element's
   * position among the distinct matches in comparator order.
   */
  function DisambiguationIndex<T(==)>(matches: seq<T>, element: T, le: (T, T) -> bool): Option<int> {
    var distinct := Distinct(matches);
    if |distinct| < 2 then None else Some(IndexOf(SortWith(distinct, le), element))
  }

  /** `getIndex`, with the identity map as a set of nodes already seen. */
  method GetIndex<T(==)>(matches: seq<T>, element: T, le: (T, T) -> bool) returns (index: Option<int>)
    ensures index == DisambiguationIndex(matches, element, le)
  {
    var seen: set<T> := {};
    var matching: seq<T> := [];
    for i := 0 to |matches|
      invariant matching == Distinct(matches[..i])
      invariant forall x :: x in seen <==> x in matches[..i]
    {
      var prefix := matches[..i + 1];
      assert prefix[..i] == matches[..i] && prefix[i] == matches[i];
      if matches[i] !in seen {
        seen := seen + {matches[i]};
        matching := matching + [matches[i]];
      }
    }
    assert matches[..|matches|] == matches;
    if |matching| < 2 {
      return None;
    }
    index := Some(IndexOf(SortWith(matching, le), element));
  }

  /**
   * The index is null exactly when fewer than two distinct nodes match; it
   * is -1 exactly when the element is not among the matches; otherwise it is
   * a position in `[0, count)` of the distinct matches in comparator order,
   * with every match before it no greater and every match after it no smaller.
   */
  lemma DisambiguationIndexSpec<T(!new)>(matches: seq<T>, element: T, le: (T, T) -> bool)
    ensures DisambiguationIndex(matches, element, le).None? <==> |Distinct(matches)| < 2
    ensures DisambiguationIndex(matches, element, le).Some? ==>
      var k := DisambiguationIndex(matches, element, le).value;
      var sorted := SortWith(Distinct(matches), le);
      && (k == -1 <==> element !in matches)
      && (k != -1 ==> 0 <= k < |Distinct(matches)| && sorted[k] == element)
      && (k != -1 && TotalPreorder(le) ==>
            (forall j :: 0 <= j < k ==> le(sorted[j], element)) &&
            (forall j :: k < j < |sorted| ==> le(element, sorted[j])))
  {
    var d := Distinct(matches);
    DistinctSpec(matches);
    SortWithPermutes(d, le);
    var sorted := SortWith(d, le);
    assert |sorted| == |d| by {
      assert |multiset(sorted)| == |multiset(d)|;
    }
    assert element in sorted <==> element in d by {
      assert element in multiset(sorted) <==> element in multiset(d);
    }
    if TotalPreorder(le) {
      SortWithSorted(d, le);
    }
  }

  /** A value that only one node has gets no index. */
  lemma SingleMatchHasNoIndex<T(!new)>(matches: seq<T>, element: T, le: (T, T) -> bool)
    requires forall m :: m in matches ==> m == element
    ensures DisambiguationIndex(matches, element, le) == None
  {
    DistinctCount(matches);
    if matches != [] {
      assert matches[0] in matches;
      assert (set m | m in matches) == {element};
    } else {
      assert (set m | m in matches) == {};
    }
  }

  /** Sorting two elements swaps them exactly when the first is not ordered before the second. */
  lemma SortPair<T>(x: T, y: T, le: (T, T) -> bool)
    ensures SortWith([x, y], le) == if le(x, y) then [x, y] else [y, x]
  {
    assert [x, y][..1] == [x] && [x][..0] == [];
    assert SortWith([x], le) == [x];
    if !le(x, y) {
      assert [x][..0] == [];
      assert Insert(y, [x], le) == [y] + [x];
    }
  }

  /**
   * Two distinct nodes `a` and `b` share a value and `a` comes first in
   * comparator order: `a` gets index 0 and `b` index 1.
   */
  lemma TwoMatchesAreNumbered<T(!new)>(matches: seq<T>, a: T, b: T, le: (T, T) -> bool)
    requires a != b && le(a, b) && !le(b, a)
    requires forall m :: m in matches <==> m == a || m == b
    ensures DisambiguationIndex(matches, a, le) == Some(0)
    ensures DisambiguationIndex(matches, b, le) == Some(1)
  {
    var d := Distinct(matches);
    DistinctSpec(matches);
    DistinctCount(matches);
    assert (set m | m in matches) == {a, b};
    assert |d| == 2;
    assert d[0] in matches && d[1] in matches;
    assert d == [d[0], d[1]];
    SortPair(d[0], d[1], le);
    assert SortWith(d, le) == [a, b];
  }
}
