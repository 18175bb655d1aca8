/** The random engine every generator takes by reference (`std::mt19937_64 &rng`).
    Callers see only the contracts below: a draw lies in its range, a shuffle
    is a reordering, a discrete draw is a valid index. The bodies are a 64-bit
    linear congruential step standing in for the Mersenne Twister; nothing in
    the rest of the model depends on them. */
module Engine {

  const Modulus: nat := 0x1_0000_0000_0000_0000
  const Multiplier: nat := 6364136223846793005
  const Increment: nat := 1442695040888963407

  class Rng {
    /** The engine's internal state, advanced by every draw. */
    var state: nat

    /** Seeding, as the driver does once per process. */
    constructor (seed: nat)
      ensures state < Modulus
    {
      state := seed % Modulus;
    }

    method Step()
      modifies this
    {
      state := (state * Multiplier + Increment) % Modulus;
    }

    /** `std::uniform_int_distribution<T>(lo, hi)(rng)`: defined only for lo <= hi. */
    method UniformInt(lo: int, hi: int) returns (x: int)
      requires lo <= hi
      modifies this
      ensures lo <= x <= hi
    {
      Step();
      x := lo + state % (hi - lo + 1);
    }

    /** A fair bit: `uniform_int_distribution<int>(0, 1)` read as a bool, or a
        `bernoulli_distribution` draw. */
    method Coin() returns (b: bool)
      modifies this
    {
      Step();
      b := state >= Modulus / 2;
    }

    /** `std::discrete_distribution` over `weights`: an index of `weights`, or 0
        when `weights` is empty (the library then behaves as if given one weight). */
    method Discrete(weights: seq<real>) returns (i: nat)
      modifies this
      ensures if |weights| == 0 then i == 0 else i < |weights|
    {
      if |weights| == 0 {
        i := 0;
      } else {
        var k := UniformInt(0, |weights| - 1);
        i := k;
      }
    }

    /** `std::shuffle` over a whole vector: a Fisher-Yates pass; the result
        holds the same elements, each as often as before. */
    method Shuffle<T>(s: seq<T>) returns (r: seq<T>)
      modifies this
      ensures |r| == |s| && multiset(r) == multiset(s)
    {
      r := s;
      var i := |r|;
      while i > 1
        invariant 0 <= i <= |r| == |s|
        invariant multiset(r) == multiset(s)
      {
        var j := UniformInt(0, i - 1);
        r := Swap(r, i - 1, j);
        i := i - 1;
      }
    }
  }

  /** Exchanges two entries. */
  function Swap<T>(s: seq<T>, i: nat, j: nat): (r: seq<T>)
    requires i < |s| && j < |s|
    ensures |r| == |s| && multiset(r) == multiset(s)
    ensures r[i] == s[j] && r[j] == s[i]
    ensures forall k :: 0 <= k < |s| && k != i && k != j ==> r[k] == s[k]
  {
    s[i := s[j]][j := s[i]]
  }
}
