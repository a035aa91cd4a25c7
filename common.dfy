/** Small value types shared by every module of the model. */
module Common {
  /** A Java reference that may be null. */
  datatype Option<T> = None | Some(value: T)

  /** Math.min on weights. */
  function Min(a: real, b: real): (r: real)
    ensures r <= a && r <= b
    ensures r == a || r == b
  {
    if a <= b then a else b
  }

  /** A non-empty set has an element (stated for the such-that choices over sets). */
  lemma NonEmpty(s: set<int>)
    requires s != {}
    ensures exists x :: x in s
  {
    if !exists x :: x in s {
      assert false;
    }
  }

  /** Stream.limit(n) / a page of size n: the first n elements, or all of them when there are fewer. */
  function Take<T>(s: seq<T>, n: nat): (r: seq<T>)
    ensures |r| == if n <= |s| then n else |s|
    ensures r == s[..|r|]
  {
    if n <= |s| then s[..n] else s
  }

  /** How many of n items a limit k lets through: none for k <= 0, at most k. */
  function Clamp(k: int, n: nat): nat
  {
    if k <= 0 then 0 else if k <= n then k else n
  }

  /** Java's (int) narrowing of a long: the low 32 bits read as a two's-complement int. */
  function ToInt(x: int): (r: int)
    ensures -0x8000_0000 <= r < 0x8000_0000
    ensures (r - x) % 0x1_0000_0000 == 0
  {
    (x + 0x8000_0000) % 0x1_0000_0000 - 0x8000_0000
  }

  /** A long that already fits in an int is unchanged by the narrowing. */
  lemma ToIntInRange(x: int)
    requires -0x8000_0000 <= x < 0x8000_0000
    ensures ToInt(x) == x
  {
  }
}
