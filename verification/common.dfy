/** Values and facts shared by every generator: the optional result of a
    rejection loop, ranges 1..n, permutations, distinctness, sortedness and
    sums of integer sequences. */
module Common {

  /** Result of a rejection-sampling loop: `None` when the draw budget ran out
      before the loop's exit condition held. */
  datatype Option<T> = None | Some(value: T)

  /** An edge as the generators return it: an ordered pair of node labels. */
  type Edge = (int, int)

  /** A weighted edge (u, v, w). */
  type WeightedEdge = (int, int, int)

  function Max(a: int, b: int): (m: int) { if a < b then b else a }

  /** The sequence 1, 2, ..., n that `std::iota` writes into a vector of size n. */
  function Iota(n: nat): (s: seq<int>)
    ensures |s| == n
    ensures forall i :: 0 <= i < n ==> s[i] == i + 1
  {
    if n == 0 then [] else Iota(n - 1) + [n]
  }

  /** Each value 1..n occurs exactly once in Iota(n), nothing else occurs. */
  lemma {:induction false} IotaCount(n: nat, v: int)
    ensures multiset(Iota(n))[v] == if 1 <= v <= n then 1 else 0
  {
    if n > 0 {
      IotaCount(n - 1, v);
      calc {
        multiset(Iota(n));
        multiset(Iota(n - 1) + [n]);
        multiset(Iota(n - 1)) + multiset{n};
      }
    }
  }

  /** `s` is a permutation of 1..n. */
  ghost predicate IsPermutation(s: seq<int>, n: nat)
  {
    multiset(s) == multiset(Iota(n))
  }

  predicate Distinct<T(==)>(s: seq<T>)
  {
    forall i, j :: 0 <= i < j < |s| ==> s[i] != s[j]
  }

  /** Two positions holding the same value make that value occur twice. */
  lemma TwoOccurrences<T>(s: seq<T>, i: nat, j: nat)
    requires i < j < |s| && s[i] == s[j]
    ensures multiset(s)[s[i]] >= 2
  {
    assert s == s[..j] + s[j..];
    assert s[i] in multiset(s[..j]);
    assert s[j] in multiset(s[j..]);
  }

  /** A sequence is duplicate-free exactly when no value occurs twice. */
  lemma {:induction false} DistinctCounts<T>(s: seq<T>)
    ensures Distinct(s) <==> forall x :: multiset(s)[x] <= 1
  {
    if s == [] {
    } else {
      DistinctCounts(s[1..]);
      assert s == [s[0]] + s[1..];
      if Distinct(s) {
        assert Distinct(s[1..]) by {
          forall i, j | 0 <= i < j < |s[1..]| ensures s[1..][i] != s[1..][j] {
            assert s[1..][i] == s[i + 1] && s[1..][j] == s[j + 1];
          }
        }
        forall k | 0 <= k < |s[1..]| ensures s[1..][k] != s[0] {
          assert s[1..][k] == s[k + 1];
        }
        assert multiset(s[1..])[s[0]] == 0;
      } else {
        var i, j :| 0 <= i < j < |s| && s[i] == s[j];
        TwoOccurrences(s, i, j);
      }
    }
  }

  /** Reordering keeps a sequence duplicate-free. */
  lemma DistinctPermuted<T>(s: seq<T>, t: seq<T>)
    requires Distinct(s) && multiset(s) == multiset(t)
    ensures Distinct(t)
  {
    DistinctCounts(s);
    DistinctCounts(t);
  }

  /** What being a permutation of 1..n gives a caller: the length, the range
      of every entry, no duplicates, and every label present. */
  lemma PermutationFacts(s: seq<int>, n: nat)
    requires IsPermutation(s, n)
    ensures |s| == n && Distinct(s)
    ensures forall i :: 0 <= i < |s| ==> 1 <= s[i] <= n
    ensures forall v :: 1 <= v <= n ==> v in s
  {
    calc {
      |s|;
      |multiset(s)|;
      |multiset(Iota(n))|;
      n;
    }
    forall i | 0 <= i < |s| ensures 1 <= s[i] <= n {
      IotaCount(n, s[i]);
    }
    forall v | 1 <= v <= n ensures v in s {
      IotaCount(n, v);
      assert v in multiset(s);
    }
    forall x ensures multiset(s)[x] <= 1 {
      IotaCount(n, x);
    }
    DistinctCounts(s);
  }

  /** Every entry lies in [lo, hi]. */
  predicate InRange(s: seq<int>, lo: int, hi: int)
  {
    forall x :: x in s ==> lo <= x <= hi
  }

  /** Non-decreasing (what `std::sort` produces). */
  predicate Ascending(s: seq<int>)
  {
    forall i, j :: 0 <= i < j < |s| ==> s[i] <= s[j]
  }

  /** Strictly increasing (what iterating a `std::set` produces). */
  predicate StrictlyAscending(s: seq<int>)
  {
    forall i, j :: 0 <= i < j < |s| ==> s[i] < s[j]
  }

  /** Strictly decreasing. */
  predicate StrictlyDescending(s: seq<int>)
  {
    forall i, j :: 0 <= i < j < |s| ==> s[i] > s[j]
  }

  lemma StrictlyAscendingIsDistinct(s: seq<int>)
    requires StrictlyAscending(s)
    ensures Distinct(s) && Ascending(s)
  {
  }

  /** A strictly increasing sequence of values in [lo, hi] has at most
      hi - lo + 1 entries: the reason why drawing more distinct values than
      the range holds never finishes. */
  lemma {:induction false} StrictlyAscendingBound(s: seq<int>, lo: int, hi: int)
    requires StrictlyAscending(s) && InRange(s, lo, hi)
    ensures |s| <= Max(hi - lo + 1, 0)
  {
    if |s| > 0 {
      assert s[0] in s;
      if |s| > 1 {
        forall x | x in s[1..] ensures s[0] + 1 <= x <= hi {
          var k :| 0 <= k < |s[1..]| && s[1..][k] == x;
          assert x == s[k + 1] && s[k + 1] in s;
        }
        StrictlyAscendingBound(s[1..], s[0] + 1, hi);
      }
    }
  }

  /** Sum of the entries. */
  function Total(s: seq<int>): (sum: int)
  {
    if s == [] then 0 else s[0] + Total(s[1..])
  }

  lemma {:induction false} TotalConcat(a: seq<int>, b: seq<int>)
    ensures Total(a + b) == Total(a) + Total(b)
  {
    if a != [] {
      TotalConcat(a[1..], b);
      calc {
        Total(a + b);
        (a + b)[0] + Total((a + b)[1..]);
        { assert (a + b)[1..] == a[1..] + b; }
        a[0] + Total(a[1..] + b);
      }
    } else {
      assert a + b == b;
    }
  }

  /** Adding `d` to one entry adds `d` to the sum. */
  lemma TotalUpdate(s: seq<int>, i: nat, d: int)
    requires i < |s|
    ensures Total(s[i := s[i] + d]) == Total(s) + d
  {
    var t := s[i := s[i] + d];
    assert s == s[..i] + [s[i]] + s[i + 1..];
    assert t == s[..i] + [s[i] + d] + s[i + 1..];
    TotalConcat(s[..i] + [s[i]], s[i + 1..]);
    TotalConcat(s[..i], [s[i]]);
    TotalConcat(s[..i] + [s[i] + d], s[i + 1..]);
    TotalConcat(s[..i], [s[i] + d]);
  }

  /** Taking entry k out of a sequence takes it out of the sum. */
  lemma {:induction false} TotalRemove(t: seq<int>, k: nat)
    requires k < |t|
    ensures Total(t) == t[k] + Total(t[..k] + t[k + 1..])
  {
    if k == 0 {
      assert t[..k] + t[k + 1..] == t[1..];
    } else {
      TotalRemove(t[1..], k - 1);
      var u := t[..k] + t[k + 1..];
      assert u[0] == t[0];
      assert u[1..] == t[1..][..k - 1] + t[1..][k..];
    }
  }

  /** Taking entry k out of a sequence takes one copy out of its multiset. */
  lemma MultisetRemove(t: seq<int>, k: nat)
    requires k < |t|
    ensures multiset(t[..k] + t[k + 1..]) == multiset(t) - multiset{t[k]}
  {
    assert t == t[..k] + [t[k]] + t[k + 1..];
  }

  /** Reordering does not change the sum. */
  lemma {:induction false} TotalPermuted(s: seq<int>, t: seq<int>)
    requires multiset(s) == multiset(t)
    ensures Total(s) == Total(t)
  {
    if s == [] {
      assert |t| == |multiset(t)| == 0;
    } else {
      assert s[0] in multiset(t);
      var k :| 0 <= k < |t| && t[k] == s[0];
      MultisetRemove(t, k);
      assert s == [s[0]] + s[1..];
      assert multiset(s[1..]) == multiset(s) - multiset{s[0]};
      TotalPermuted(s[1..], t[..k] + t[k + 1..]);
      TotalRemove(t, k);
    }
  }

  /** Places `x` before the first entry that is not smaller. */
  function InsertSorted(x: int, s: seq<int>): (r: seq<int>)
    requires Ascending(s)
    ensures Ascending(r) && multiset(r) == multiset(s) + multiset{x}
    ensures |r| == |s| + 1 && (r[0] == x || (s != [] && r[0] == s[0]))
  {
    if s == [] || x <= s[0] then [x] + s
    else
      var tail := InsertSorted(x, s[1..]);
      assert s == [s[0]] + s[1..];
      assert s[0] <= tail[0];
      [s[0]] + tail
  }

  /** The outcome of `std::sort` on a vector of integers: its entries in
      non-decreasing order. */
  function Sorted(s: seq<int>): (r: seq<int>)
    ensures Ascending(r) && multiset(r) == multiset(s) && |r| == |s|
  {
    if s == [] then []
    else
      assert s == [s[0]] + s[1..];
      InsertSorted(s[0], Sorted(s[1..]))
  }

  /** Sorting keeps every bound the entries obey. */
  lemma SortedInRange(s: seq<int>, lo: int, hi: int)
    requires InRange(s, lo, hi)
    ensures InRange(Sorted(s), lo, hi)
  {
    var r := Sorted(s);
    forall x | x in r ensures lo <= x <= hi {
      assert x in multiset(r);
      assert x in multiset(s);
      assert x in s;
    }
  }

  /** Sorting a sequence that is already in order leaves it as it is. */
  lemma {:induction false} SortedIdentity(s: seq<int>)
    requires Ascending(s)
    ensures Sorted(s) == s
  {
    if s != [] {
      SortedIdentity(s[1..]);
    }
  }
}
