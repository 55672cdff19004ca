/**
 * The parts of java.lang and java.util.Objects that SdkCodelist relies on:
 * 32-bit int overflow, String.compareTo, String.hashCode and the two-argument
 * Objects.hash. Strings are sequences of chars and are never null here.
 */
module JavaLang {

  const TwoTo31: int := 0x8000_0000
  const TwoTo32: int := 0x1_0000_0000

  /** The value a Java int holds after an exact result x overflows (two's complement wrap-around). */
  function Int32(x: int): (r: int)
    ensures -TwoTo31 <= r < TwoTo31
    ensures (x - r) % TwoTo32 == 0
  {
    var m := x % TwoTo32;
    assert x == (x / TwoTo32) * TwoTo32 + m;
    if m < TwoTo31 then m else m - TwoTo32
  }

  /** Two exact results that agree modulo 2^32 wrap to the same int. */
  lemma Int32Congruent(x: int, y: int)
    requires (x - y) % TwoTo32 == 0
    ensures Int32(x) == Int32(y)
  {
    var k := (x - y) / TwoTo32;
    assert x - y == k * TwoTo32;
    assert x % TwoTo32 == y % TwoTo32 by {
      assert x == y + k * TwoTo32;
    }
  }

  /** A multiple of 2^32 stays one when multiplied by the hash factor 31. */
  lemma ScaledCongruence(d: int)
    requires d % TwoTo32 == 0
    ensures (31 * d) % TwoTo32 == 0
  {
    var k := d / TwoTo32;
    assert d == k * TwoTo32;
    assert 31 * d == (31 * k) * TwoTo32;
  }

  /** A value already in the int range is left unchanged by wrap-around. */
  lemma Int32InRange(x: int)
    requires -TwoTo31 <= x < TwoTo31
    ensures Int32(x) == x
  {
    if x < 0 {
      assert x % TwoTo32 == x + TwoTo32;
    }
  }

  /**
   * String.compareTo: at the first index k where the strings differ the result is
   * s[k] - t[k]; when one is a prefix of the other it is the difference of lengths.
   */
  function StringCompareTo(s: string, t: string): (r: int)
    ensures r == 0 <==> s == t
  {
    if s == [] || t == [] then |s| - |t|
    else if s[0] != t[0] then s[0] as int - t[0] as int
    else
      var r := StringCompareTo(s[1..], t[1..]);
      assert s == [s[0]] + s[1..] && t == [t[0]] + t[1..];
      r
  }

  /** The value String.compareTo returns, stated through the first index k at which s and t differ. */
  lemma {:induction false} StringCompareToAtFirstDifference(s: string, t: string, k: nat)
    requires k <= |s| && k <= |t| && s[..k] == t[..k]
    requires k == |s| || k == |t| || s[k] != t[k]
    ensures StringCompareTo(s, t) == if k < |s| && k < |t| then s[k] as int - t[k] as int else |s| - |t|
  {
    if k > 0 {
      assert s[0] == s[..k][0] == t[..k][0] == t[0];
      assert s[1..][..k - 1] == s[..k][1..] == t[..k][1..] == t[1..][..k - 1];
      StringCompareToAtFirstDifference(s[1..], t[1..], k - 1);
    }
  }

  /** Swapping the arguments of String.compareTo negates the result. */
  lemma {:induction false} StringCompareToAntisymmetric(s: string, t: string)
    ensures StringCompareTo(s, t) == -StringCompareTo(t, s)
  {
    if s != [] && t != [] && s[0] == t[0] {
      StringCompareToAntisymmetric(s[1..], t[1..]);
    }
  }

  /** String.compareTo orders strings transitively. */
  lemma {:induction false} StringCompareToTransitive(s: string, t: string, u: string)
    requires StringCompareTo(s, t) < 0 && StringCompareTo(t, u) < 0
    ensures StringCompareTo(s, u) < 0
  {
    if s != [] && t != [] && u != [] && s[0] == t[0] && t[0] == u[0] {
      StringCompareToTransitive(s[1..], t[1..], u[1..]);
    }
  }

  /** String.hashCode: h := 31 * h + c for each char c, in int arithmetic, starting from 0. */
  function StringHashCode(s: string): (h: int)
    ensures -TwoTo31 <= h < TwoTo31
  {
    if s == [] then 0 else Int32(31 * StringHashCode(s[..|s| - 1]) + s[|s| - 1] as int)
  }

  /**
   * The recurrence of String.hashCode evaluated exactly, without wrap-around
   * (Horner's form of the polynomial in String.hashCode's documentation).
   */
  function HashPolynomial(s: string): int
  {
    if s == [] then 0 else 31 * HashPolynomial(s[..|s| - 1]) + s[|s| - 1] as int
  }

  /** Wrapping at every step gives the same int as evaluating the recurrence exactly and wrapping once. */
  lemma {:induction false} StringHashCodeIsWrappedPolynomial(s: string)
    ensures StringHashCode(s) == Int32(HashPolynomial(s))
  {
    if s == [] {
      Int32InRange(0);
    } else {
      var init := s[..|s| - 1];
      var c := s[|s| - 1] as int;
      StringHashCodeIsWrappedPolynomial(init);
      var h, p := StringHashCode(init), HashPolynomial(init);
      ScaledCongruence(p - h);
      assert (31 * p + c) - (31 * h + c) == 31 * (p - h);
      Int32Congruent(31 * p + c, 31 * h + c);
    }
  }

  /** Objects.hash(a, b), that is Arrays.hashCode of {a, b}: start at 1, then h := 31 * h + e.hashCode(). */
  function ObjectsHash(a: string, b: string): (h: int)
    ensures -TwoTo31 <= h < TwoTo31
  {
    Int32(31 * Int32(31 * 1 + StringHashCode(a)) + StringHashCode(b))
  }
}
