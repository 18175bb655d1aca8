/** `std::set<T>` as the generators use it: an ordered container without
    duplicates, filled by `insert` and read back in ascending order when
    copied into a vector. A set is held as the strictly ascending sequence of
    its elements; integers use `<`, pairs the lexicographic order of
    `std::pair`. */
module SortedSets {
  import opened Common

  /** Lexicographic `<` on pairs, as `std::pair` compares them. */
  predicate EdgeLess(a: Edge, b: Edge)
  {
    a.0 < b.0 || (a.0 == b.0 && a.1 < b.1)
  }

  /** The iteration order of a `std::set<std::pair<int, int>>`. */
  predicate EdgesAscending(s: seq<Edge>)
  {
    forall i, j :: 0 <= i < j < |s| ==> EdgeLess(s[i], s[j])
  }

  /** `s.insert(x)` on a `std::set<int>`: `x` is added unless present, and the
      order is kept. */
  function Insert(s: seq<int>, x: int): (r: seq<int>)
    requires StrictlyAscending(s)
    ensures StrictlyAscending(r)
    ensures forall y :: y in r <==> y in s || y == x
    ensures |r| == if x in s then |s| else |s| + 1
    ensures r != [] && (r[0] == x || r[0] == s[0])
  {
    if s == [] then [x]
    else if x == s[0] then s
    else if x < s[0] then [x] + s
    else
      var tail := Insert(s[1..], x);
      assert s == [s[0]] + s[1..];
      [s[0]] + tail
  }

  /** `s.insert(e)` (or `emplace`) on a `std::set<std::pair<int, int>>`. */
  function InsertEdge(s: seq<Edge>, e: Edge): (r: seq<Edge>)
    requires EdgesAscending(s)
    ensures EdgesAscending(r)
    ensures forall y :: y in r <==> y in s || y == e
    ensures |r| == if e in s then |s| else |s| + 1
    ensures r != [] && (r[0] == e || r[0] == s[0])
  {
    if s == [] then [e]
    else if e == s[0] then s
    else if EdgeLess(e, s[0]) then [e] + s
    else
      var tail := InsertEdge(s[1..], e);
      assert s == [s[0]] + s[1..];
      [s[0]] + tail
  }

  lemma EdgesAscendingIsDistinct(s: seq<Edge>)
    requires EdgesAscending(s)
    ensures Distinct(s)
  {
  }
}
