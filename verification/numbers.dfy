/** Scalar samplers (namespace `gen_numbers`), for the integer instantiation
    of their type parameter. */
module Numbers {
  import opened Common
  import opened Engine

  /** `random(l, r)`: one draw from [l, r]. */
  method Random(l: int, r: int, rng: Rng) returns (x: int)
    requires l <= r
    modifies rng
    ensures l <= x <= r
  {
    x := rng.UniformInt(l, r);
  }

  /** `random_range(l, r, count)`: `count` independent draws from [l, r]. The
      vector is sized by `count`; with no entry to fill the range is never used. */
  method RandomRange(l: int, r: int, count: nat, rng: Rng) returns (v: seq<int>)
    requires count == 0 || l <= r
    modifies rng
    ensures |v| == count && InRange(v, l, r)
  {
    var a := new int[count];
    for i := 0 to count
      invariant forall k :: 0 <= k < i ==> l <= a[k] <= r
    {
      a[i] := Random(l, r, rng);
    }
    v := a[..];
  }

  /** `random_exclude(l, r, exclude)`: draws again while the draw is in
      `exclude`. At most `maxDraws` draws are made; `None` stands for the
      C++ loop still running. When `exclude` covers [l, r] no budget is
      enough: the loop cannot end. */
  method RandomExclude(l: int, r: int, exclude: set<int>, rng: Rng, maxDraws: nat) returns (res: Option<int>)
    requires l <= r
    modifies rng
    ensures res.Some? ==> l <= res.value <= r && res.value !in exclude
    ensures (forall x :: l <= x <= r ==> x in exclude) ==> res.None?
  {
    var fuel := maxDraws;
    while fuel > 0
      invariant fuel <= maxDraws
    {
      var val := Random(l, r, rng);
      fuel := fuel - 1;
      if val !in exclude {
        return Some(val);
      }
    }
    return None;
  }

  /** `random_range_exclude(l, r, count, exclude)`: keeps the draws that are
      not in `exclude` until `count` of them are collected. */
  method RandomRangeExclude(l: int, r: int, count: int, exclude: set<int>, rng: Rng, maxDraws: nat)
    returns (res: Option<seq<int>>)
    requires count <= 0 || l <= r
    modifies rng
    ensures res.Some? ==> |res.value| == Max(count, 0) && InRange(res.value, l, r)
    ensures res.Some? ==> forall i :: 0 <= i < |res.value| ==> res.value[i] !in exclude
    ensures count > 0 && (forall x :: l <= x <= r ==> x in exclude) ==> res.None?
    ensures count <= 0 ==> res.Some?
  {
    var v: seq<int> := [];
    var fuel := maxDraws;
    while |v| < count && fuel > 0
      invariant |v| <= Max(count, 0)
      invariant InRange(v, l, r) && forall i :: 0 <= i < |v| ==> v[i] !in exclude
      invariant count > 0 && (forall x :: l <= x <= r ==> x in exclude) ==> v == []
    {
      var val := Random(l, r, rng);
      fuel := fuel - 1;
      if val !in exclude {
        v := v + [val];
      }
    }
    if |v| < count {
      return None;
    }
    return Some(v);
  }

  /** `random_weighted(values, weights)`: `values[i]` for an index `i` that the
      discrete distribution over `weights` yields. Only the indexing is
      modelled; the weights are doubles and do not constrain which index. */
  method RandomWeighted(values: seq<int>, weights: seq<real>, rng: Rng) returns (x: int)
    requires |values| > 0 && |weights| <= |values|
    modifies rng
    ensures x in values[..Max(|weights|, 1)]
  {
    var i := rng.Discrete(weights);
    x := values[i];
  }
}
