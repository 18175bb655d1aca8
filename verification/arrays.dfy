/** Sequence samplers (namespace `gen_arrays`), for the integer instantiation
    of their type parameter. */
module Arrays {
  import opened Common
  import opened Engine
  import opened SortedSets

  /** What `random(len, l, r, rng, unique, sorted)` promises: `len` values in
      [l, r]; with `unique` they come out of a `std::set`, hence strictly
      ascending whatever `sorted` says; with `sorted` they are ascending. */
  predicate RandomShape(v: seq<int>, len: int, l: int, r: int, unique: bool, sorted: bool)
  {
    |v| == Max(len, 0) && InRange(v, l, r)
    && (unique ==> StrictlyAscending(v) && Distinct(v))
    && (sorted ==> Ascending(v))
  }

  /** The rejection loop `while (s.size() < len) s.insert(draw from [l, r])`
      shared by `random` and `subset`, read back in the set's ascending order.
      After `maxDraws` draws it gives up with `None`; when `len` exceeds the
      size of [l, r] it always does, since the set can never grow that large. */
  method FillSet(len: int, l: int, r: int, rng: Rng, maxDraws: nat) returns (res: Option<seq<int>>)
    requires len <= 0 || l <= r
    modifies rng
    ensures res.Some? ==> |res.value| == Max(len, 0) && StrictlyAscending(res.value) && InRange(res.value, l, r)
    ensures l <= r && len > r - l + 1 ==> res.None?
    ensures len <= 0 ==> res.Some?
  {
    var s: seq<int> := [];
    var fuel := maxDraws;
    while |s| < len && fuel > 0
      invariant StrictlyAscending(s) && InRange(s, l, r) && |s| <= Max(len, 0)
    {
      var x := rng.UniformInt(l, r);
      s := Insert(s, x);
      fuel := fuel - 1;
    }
    StrictlyAscendingBound(s, l, r);
    if |s| < len {
      return None;
    }
    return Some(s);
  }

  /** `random(len, l, r, rng, unique, sorted)`. The unique branch is a
      rejection loop: it stops after `maxDraws` draws with `None`, and it can
      never end when `len` exceeds the size of [l, r]. Only the unique branch
      tolerates a negative `len` (`resize` would throw). */
  method Random(len: int, l: int, r: int, rng: Rng, unique: bool, sorted: bool, maxDraws: nat)
    returns (res: Option<seq<int>>)
    requires unique || len >= 0
    requires len <= 0 || l <= r
    modifies rng
    ensures res.Some? ==> RandomShape(res.value, len, l, r, unique, sorted)
    ensures !unique ==> res.Some?
    ensures unique && l <= r && len > r - l + 1 ==> res.None?
    ensures len <= 0 ==> res.Some?
  {
    var v: seq<int>;
    if unique {
      var s := FillSet(len, l, r, rng, maxDraws);
      if s.None? {
        return None;
      }
      v := s.value;
    } else {
      var a := new int[len];
      for i := 0 to len
        invariant forall k :: 0 <= k < i ==> l <= a[k] <= r
      {
        a[i] := rng.UniformInt(l, r);
      }
      v := a[..];
    }
    if sorted {
      SortedInRange(v, l, r);
      if unique {
        SortedIdentity(v);
      }
      v := Sorted(v);
    }
    if unique {
      StrictlyAscendingIsDistinct(v);
    }
    return Some(v);
  }

  /** `permutation(n)`: 1..n written by `std::iota`, then shuffled. */
  method Permutation(n: nat, rng: Rng) returns (v: seq<int>)
    modifies rng
    ensures IsPermutation(v, n)
  {
    v := Iota(n);
    v := rng.Shuffle(v);
  }

  /** `matrix(rows, cols, l, r, rng, unique_rows, sorted_rows)`: each row is an
      independent call of `random`. A row whose rejection loop runs out of
      budget makes the whole matrix `None`. */
  method Matrix(rows: nat, cols: int, l: int, r: int, rng: Rng, uniqueRows: bool, sortedRows: bool, maxDraws: nat)
    returns (res: Option<seq<seq<int>>>)
    requires rows == 0 || ((uniqueRows || cols >= 0) && (cols <= 0 || l <= r))
    modifies rng
    ensures res.Some? ==> |res.value| == rows
    ensures res.Some? ==> forall i :: 0 <= i < rows ==> RandomShape(res.value[i], cols, l, r, uniqueRows, sortedRows)
    ensures !uniqueRows ==> res.Some?
    ensures rows > 0 && uniqueRows && l <= r && cols > r - l + 1 ==> res.None?
    ensures rows == 0 || cols <= 0 || !uniqueRows ==> res.Some?
  {
    var mat: seq<seq<int>> := [];
    while |mat| < rows
      invariant |mat| <= rows
      invariant rows > 0 && uniqueRows && l <= r && cols > r - l + 1 ==> mat == []
      invariant forall i :: 0 <= i < |mat| ==> RandomShape(mat[i], cols, l, r, uniqueRows, sortedRows)
    {
      var row := Random(cols, l, r, rng, uniqueRows, sortedRows, maxDraws);
      if row.None? {
        return None;
      }
      mat := mat + [row.value];
    }
    return Some(mat);
  }

  /** `pairs(len, l1, r1, l2, r2, rng, ordered)`: first from [l1, r1], second
      from [l2, r2]; with `ordered` the two are swapped when first > second. */
  method Pairs(len: nat, l1: int, r1: int, l2: int, r2: int, rng: Rng, ordered: bool) returns (v: seq<(int, int)>)
    requires len == 0 || (l1 <= r1 && l2 <= r2)
    modifies rng
    ensures |v| == len
    ensures !ordered ==> forall i :: 0 <= i < len ==> l1 <= v[i].0 <= r1 && l2 <= v[i].1 <= r2
    ensures ordered ==> forall i :: 0 <= i < len ==>
      v[i].0 <= v[i].1 &&
      ((l1 <= v[i].0 <= r1 && l2 <= v[i].1 <= r2) || (l2 <= v[i].0 <= r2 && l1 <= v[i].1 <= r1))
  {
    var a := new (int, int)[len];
    for i := 0 to len
      invariant !ordered ==> forall k :: 0 <= k < i ==> l1 <= a[k].0 <= r1 && l2 <= a[k].1 <= r2
      invariant ordered ==> forall k :: 0 <= k < i ==>
        a[k].0 <= a[k].1 &&
        ((l1 <= a[k].0 <= r1 && l2 <= a[k].1 <= r2) || (l2 <= a[k].0 <= r2 && l1 <= a[k].1 <= r1))
    {
      var first := rng.UniformInt(l1, r1);
      var second := rng.UniformInt(l2, r2);
      if ordered && first > second {
        first, second := second, first;
      }
      a[i] := (first, second);
    }
    v := a[..];
  }

  /** `subset(l, r, k, rng, sorted)`: `k` distinct values of [l, r] collected in
      a `std::set`; without `sorted` they are shuffled afterwards. */
  method Subset(l: int, r: int, k: int, rng: Rng, sorted: bool, maxDraws: nat) returns (res: Option<seq<int>>)
    requires k <= 0 || l <= r
    modifies rng
    ensures res.Some? ==> |res.value| == Max(k, 0) && InRange(res.value, l, r) && Distinct(res.value)
    ensures res.Some? && sorted ==> StrictlyAscending(res.value)
    ensures l <= r && k > r - l + 1 ==> res.None?
    ensures k <= 0 ==> res.Some?
  {
    var drawn := FillSet(k, l, r, rng, maxDraws);
    if drawn.None? {
      return None;
    }
    var s := drawn.value;
    var v := s;
    if !sorted {
      v := rng.Shuffle(v);
      DistinctPermuted(s, v);
      forall x | x in v ensures l <= x <= r {
        assert x in multiset(v);
        assert x in s;
      }
    }
    return Some(v);
  }

  /** The shape `partition` and `random_with_sum` guarantee: `k` parts; each in
      [minVal, maxVal] when that range is non-empty; a total between
      minVal * k and `sum` when `sum` reaches minVal * k, and every part equal
      to minVal when it does not. The total is not promised to be `sum`: a
      draw of 0 leaves budget unspent. */
  predicate PartitionShape(parts: seq<int>, sum: int, k: nat, minVal: int, maxVal: int)
  {
    |parts| == k
    && (minVal <= maxVal ==> InRange(parts, minVal, maxVal))
    && (sum >= minVal * k ==> minVal * k <= Total(parts) <= sum)
    && (sum <= minVal * k ==> forall i :: 0 <= i < k ==> parts[i] == minVal)
  }

  /** `partition(sum, k, min_val, max_val)`: every part starts at min_val; the
      budget sum - min_val * k is handed out left to right, each part taking a
      random share of at most max_val - min_val; then the parts are shuffled. */
  method Partition(sum: int, k: nat, minVal: int, maxVal: int, rng: Rng) returns (parts: seq<int>)
    modifies rng
    ensures PartitionShape(parts, sum, k, minVal, maxVal)
  {
    parts := ConstantArray(k, minVal);
    ConstantTotal(k, minVal);
    var budget := sum - minVal * k;
    var i := 0;
    while i < k && budget > 0
      invariant 0 <= i <= k && |parts| == k
      invariant forall j :: 0 <= j < k ==> minVal <= parts[j]
      invariant forall j :: 0 <= j < k ==> parts[j] <= Max(maxVal, minVal)
      invariant forall j :: i <= j < k ==> parts[j] == minVal
      invariant Total(parts) + budget == sum && Total(parts) >= minVal * k
      invariant sum >= minVal * k ==> budget >= 0
      invariant i == 0 ==> budget == sum - minVal * k
      invariant sum <= minVal * k ==> i == 0
    {
      var add := if budget < maxVal - minVal then budget else maxVal - minVal;
      if add > 0 {
        var delta := rng.UniformInt(0, add);
        TotalUpdate(parts, i, delta);
        parts := parts[i := parts[i] + delta];
        budget := budget - delta;
      }
      i := i + 1;
    }
    var shuffled := rng.Shuffle(parts);
    TotalPermuted(parts, shuffled);
    forall j | 0 <= j < k
      ensures minVal <= shuffled[j] <= Max(maxVal, minVal)
      ensures sum <= minVal * k ==> shuffled[j] == minVal
    {
      assert shuffled[j] in multiset(parts);
    }
    parts := shuffled;
  }

  /** `arithmetic_progression(len, start, step)`. */
  method ArithmeticProgression(len: nat, start: int, step: int) returns (v: seq<int>)
    ensures |v| == len
    ensures forall i :: 0 <= i < len ==> v[i] == start + i * step
    ensures forall i :: 0 <= i < len - 1 ==> v[i + 1] - v[i] == step
  {
    var a := new int[len];
    for i := 0 to len
      invariant forall j :: 0 <= j < i ==> a[j] == start + j * step
    {
      a[i] := start + i * step;
    }
    v := a[..];
  }

  /** ratio to the power e. */
  function Power(ratio: int, e: nat): (p: int)
  {
    if e == 0 then 1 else ratio * Power(ratio, e - 1)
  }

  lemma PowerStep(start: int, ratio: int, i: nat)
    ensures start * Power(ratio, i) * ratio == start * Power(ratio, i + 1)
  {
    calc {
      start * Power(ratio, i) * ratio;
      start * (Power(ratio, i) * ratio);
      start * (ratio * Power(ratio, i));
    }
  }

  /** `geometric_progression(len, start, ratio)`: a running value multiplied
      by `ratio` after each write. */
  method GeometricProgression(len: nat, start: int, ratio: int) returns (v: seq<int>)
    ensures |v| == len
    ensures len > 0 ==> v[0] == start
    ensures forall i :: 0 <= i < len - 1 ==> v[i + 1] == v[i] * ratio
    ensures forall i :: 0 <= i < len ==> v[i] == start * Power(ratio, i)
  {
    var a := new int[len];
    var val := start;
    for i := 0 to len
      invariant val == start * Power(ratio, i)
      invariant forall j :: 0 <= j < i ==> a[j] == start * Power(ratio, j)
    {
      a[i] := val;
      PowerStep(start, ratio, i);
      val := val * ratio;
    }
    v := a[..];
    forall i | 0 <= i < len - 1 ensures v[i + 1] == v[i] * ratio {
      PowerStep(start, ratio, i);
    }
  }

  /** `constant_array(len, value)`. */
  function ConstantArray(len: nat, value: int): (v: seq<int>)
    ensures |v| == len && forall i :: 0 <= i < len ==> v[i] == value
  {
    seq(len, _ => value)
  }

  lemma {:induction false} ConstantTotal(len: nat, value: int)
    ensures Total(ConstantArray(len, value)) == value * len
  {
    if len > 0 {
      ConstantTotal(len - 1, value);
      assert ConstantArray(len, value)[1..] == ConstantArray(len - 1, value);
    }
  }

  /** `bit_array(len, prob_one)`: each entry 0 or 1. */
  method BitArray(len: nat, rng: Rng) returns (v: seq<int>)
    modifies rng
    ensures |v| == len && InRange(v, 0, 1)
  {
    var a := new int[len];
    for i := 0 to len
      invariant forall j :: 0 <= j < i ==> 0 <= a[j] <= 1
    {
      var one := rng.Coin();
      a[i] := if one then 1 else 0;
    }
    v := a[..];
  }

  /** `shuffled(v)`: the same entries in another order. */
  method Shuffled(v: seq<int>, rng: Rng) returns (w: seq<int>)
    modifies rng
    ensures |w| == |v| && multiset(w) == multiset(v)
  {
    w := rng.Shuffle(v);
  }

  /** Every difference v[i+1] - v[i] lies in [lo, hi]. */
  predicate StepsBetween(v: seq<int>, lo: int, hi: int)
  {
    forall i :: 0 <= i < |v| - 1 ==> lo <= v[i + 1] - v[i] <= hi
  }

  /** Positive steps make the sequence strictly increasing. */
  lemma {:induction false} PositiveStepsIncrease(v: seq<int>, lo: int, hi: int)
    requires StepsBetween(v, lo, hi) && lo > 0
    ensures StrictlyAscending(v)
  {
    if |v| > 1 {
      PositiveStepsIncrease(v[1..], lo, hi);
      forall j | 0 < j < |v| ensures v[0] < v[j] {
        assert v[1..][j - 1] == v[j];
        assert v[1..][0] == v[1];
      }
    }
  }

  /** Positive steps subtracted make the sequence strictly decreasing. */
  lemma {:induction false} PositiveStepsDecrease(v: seq<int>, lo: int, hi: int)
    requires StepsBetween(v, -hi, -lo) && lo > 0
    ensures StrictlyDescending(v)
  {
    if |v| > 1 {
      PositiveStepsDecrease(v[1..], lo, hi);
      forall j | 0 < j < |v| ensures v[0] > v[j] {
        assert v[1..][j - 1] == v[j];
        assert v[1..][0] == v[1];
      }
    }
  }

  /** `strictly_increasing(len, start, step_min, step_max)`: a running value
      that grows by a draw from [step_min, step_max] between writes. It is
      strictly increasing only when step_min > 0. */
  method StrictlyIncreasing(len: nat, start: int, stepMin: int, stepMax: int, rng: Rng) returns (v: seq<int>)
    requires len <= 1 || stepMin <= stepMax
    modifies rng
    ensures |v| == len && (len > 0 ==> v[0] == start)
    ensures StepsBetween(v, stepMin, stepMax)
    ensures stepMin > 0 ==> StrictlyAscending(v)
  {
    var a := new int[len];
    var cur := start;
    for i := 0 to len
      invariant i == 0 ==> cur == start
      invariant 0 < i ==> a[0] == start
      invariant 0 < i < len ==> stepMin <= cur - a[i - 1] <= stepMax
      invariant StepsBetween(a[..i], stepMin, stepMax)
    {
      a[i] := cur;
      assert a[..i + 1] == a[..i] + [cur];
      if i + 1 < len {
        var d := rng.UniformInt(stepMin, stepMax);
        cur := cur + d;
      }
    }
    v := a[..];
    assert v == a[..len];
    if stepMin > 0 {
      PositiveStepsIncrease(v, stepMin, stepMax);
    }
  }

  /** `strictly_decreasing(len, start, step_min, step_max)`: as above with the
      draw subtracted. */
  method StrictlyDecreasing(len: nat, start: int, stepMin: int, stepMax: int, rng: Rng) returns (v: seq<int>)
    requires len <= 1 || stepMin <= stepMax
    modifies rng
    ensures |v| == len && (len > 0 ==> v[0] == start)
    ensures StepsBetween(v, -stepMax, -stepMin)
    ensures stepMin > 0 ==> StrictlyDescending(v)
  {
    var a := new int[len];
    var cur := start;
    for i := 0 to len
      invariant i == 0 ==> cur == start
      invariant 0 < i ==> a[0] == start
      invariant 0 < i < len ==> stepMin <= a[i - 1] - cur <= stepMax
      invariant StepsBetween(a[..i], -stepMax, -stepMin)
    {
      a[i] := cur;
      assert a[..i + 1] == a[..i] + [cur];
      if i + 1 < len {
        var d := rng.UniformInt(stepMin, stepMax);
        cur := cur - d;
      }
    }
    v := a[..];
    assert v == a[..len];
    if stepMin > 0 {
      PositiveStepsDecrease(v, stepMin, stepMax);
    }
  }

  /** `random_with_sum(len, sum, min_val, max_val)`: the algorithm of
      `partition`, with the length first. */
  method RandomWithSum(len: nat, sum: int, minVal: int, maxVal: int, rng: Rng) returns (v: seq<int>)
    modifies rng
    ensures PartitionShape(v, sum, len, minVal, maxVal)
  {
    v := Partition(sum, len, minVal, maxVal, rng);
  }
}
