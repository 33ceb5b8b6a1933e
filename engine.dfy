/** The pieces of the Unity engine that the floor pool relies on: vectors,
    the Mathf helpers and the random source. Floats are modelled as reals, so
    IEEE rounding, NaN and infinities do not arise. */
module Engine {

  /** Largest value of a C# int. */
  const MaxInt32: int := 0x7FFF_FFFF
  /** Smallest value of a C# int. */
  const MinInt32: int := -0x8000_0000

  /** UnityEngine.Vector3 with real coordinates. */
  datatype Vector3 = Vector3(x: real, y: real, z: real)

  /** Mathf.Clamp(int, int, int): the lower bound is tested first, so for an
      empty range (hi < lo) a value below lo gives lo and any other gives hi. */
  function Clamp(value: int, lo: int, hi: int): (r: int)
    ensures lo <= hi ==> lo <= r <= hi
    ensures lo <= value <= hi ==> r == value
    ensures value < lo ==> r == lo
    ensures lo <= hi < value ==> r == hi
  {
    if value < lo then lo else if value > hi then hi else value
  }

  /** Mathf.Max(float, float). */
  function Max(a: real, b: real): (r: real)
    ensures r >= a && r >= b
    ensures r == a || r == b
  {
    if a > b then a else b
  }

  /** Mathf.Min(float, float). */
  function Min(a: real, b: real): (r: real)
    ensures r <= a && r <= b
    ensures r == a || r == b
  {
    if a < b then a else b
  }

  /** Mathf.FloorToInt: the greatest integer not above f. */
  function FloorToInt(f: real): (n: int)
    ensures n as real <= f < n as real + 1.0
  {
    f.Floor
  }

  /** Mathf.CeilToInt: the least integer not below f. */
  function CeilToInt(f: real): (n: int)
    ensures n as real - 1.0 < f <= n as real
  {
    -((-f).Floor)
  }

  /** UnityEngine.Random, reduced to the one operation the pool uses. Callers
      rely only on the contract of Range (the interval it draws from); the linear
      congruential step inside is one possible seeded source, as a test would
      substitute. */
  class Random {
    var state: nat

    constructor (seed: nat)
      ensures state == seed
    {
      state := seed;
    }

    /** Random.Range(int minInclusive, int maxExclusive): a value in
        [lo, hi); lo itself when the bounds coincide, and a value in (hi, lo]
        when they are swapped. */
    method Range(lo: int, hi: int) returns (r: int)
      modifies this
      ensures lo < hi ==> lo <= r < hi
      ensures lo == hi ==> r == lo
      ensures hi < lo ==> hi < r <= lo
    {
      state := (state * 1103515245 + 12345) % 0x8000_0000;
      if lo < hi {
        r := lo + state % (hi - lo);
      } else {
        r := lo - state % (lo - hi + 1);
        if r == hi {
          r := lo;
        }
      }
    }
  }
}
