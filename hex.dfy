/**
 * Hexadecimal digests and the numeric order a Merkle tree uses to put the
 * two halves of a pair in order before hashing them.
 *
 * The tree compares digests with `BigInt("0x" + s)`: it reads a string of
 * hex digits as an unsigned integer. `HexVal` is that integer. Digests are
 * the 64-character lower-case hex strings a SHA-256 hex digest consists of;
 * on such strings equal values mean equal strings (HexValInjective) and the
 * numeric order is the string order (HexOrderIsLexicographic).
 */
module Hex {

  /** A character `BigInt` accepts as a hexadecimal digit (either case). */
  predicate IsHexDigit(c: char) {
    ('0' <= c <= '9') || ('a' <= c <= 'f') || ('A' <= c <= 'F')
  }

  /** A digit as a hex digest writes it: lower case only. */
  predicate IsLowerHexDigit(c: char) {
    ('0' <= c <= '9') || ('a' <= c <= 'f')
  }

  /** The strings `s` for which `BigInt("0x" + s)` yields a number: one or more hex digits. */
  predicate IsHexNumeral(s: string) {
    |s| > 0 && forall i :: 0 <= i < |s| ==> IsHexDigit(s[i])
  }

  predicate IsLowerHex(s: string) {
    forall i :: 0 <= i < |s| ==> IsLowerHexDigit(s[i])
  }

  /** Number of hex characters in a SHA-256 digest. */
  const DigestLength: nat := 64

  predicate IsDigest(s: string) {
    |s| == DigestLength && IsLowerHex(s)
  }

  /** The output of the tree's hash function: a 64-character lower-case hex string. */
  type Digest = s: string | IsDigest(s) witness Zeros(DigestLength)

  /** A run of `n` zero digits. */
  function Zeros(n: nat): (z: string)
    ensures |z| == n && IsLowerHex(z)
  {
    if n == 0 then "" else Zeros(n - 1) + "0"
  }

  function DigitVal(c: char): (v: nat)
    ensures v < 16
  {
    if '0' <= c <= '9' then c as int - '0' as int
    else if 'a' <= c <= 'f' then c as int - 'a' as int + 10
    else if 'A' <= c <= 'F' then c as int - 'A' as int + 10
    else 0
  }

  function Pow16(n: nat): (p: nat)
    ensures p >= 1
  {
    if n == 0 then 1 else 16 * Pow16(n - 1)
  }

  /** The value of `BigInt("0x" + s)` for a hex numeral `s`, most significant digit first. */
  function HexVal(s: string): nat {
    if |s| == 0 then 0 else 16 * HexVal(s[..|s| - 1]) + DigitVal(s[|s| - 1])
  }

  /** A numeral of n digits is below 16^n. */
  lemma {:induction false} HexValBound(s: string)
    ensures HexVal(s) < Pow16(|s|)
  {
    if |s| > 0 {
      HexValBound(s[..|s| - 1]);
    }
  }

  /** Every digest is a numeral `BigInt` parses. */
  lemma DigestIsHexNumeral(d: Digest)
    ensures IsHexNumeral(d)
  {
    assert |d| == DigestLength;
  }

  /** Two lower-case hex strings of one length with the same value are the same string. */
  lemma {:induction false} HexValInjective(a: string, b: string)
    requires |a| == |b| && IsLowerHex(a) && IsLowerHex(b)
    requires HexVal(a) == HexVal(b)
    ensures a == b
  {
    if |a| > 0 {
      var n := |a|;
      var pa, pb := a[..n - 1], b[..n - 1];
      var da, db := DigitVal(a[n - 1]), DigitVal(b[n - 1]);
      LastDigitSplits(HexVal(pa), HexVal(pb), da, db);
      assert a[n - 1] == b[n - 1] by {
        assert IsLowerHexDigit(a[n - 1]) && IsLowerHexDigit(b[n - 1]);
      }
      assert IsLowerHex(pa) && IsLowerHex(pb) by {
        forall i | 0 <= i < n - 1 ensures IsLowerHexDigit(pa[i]) && IsLowerHexDigit(pb[i]) {
          assert pa[i] == a[i] && pb[i] == b[i];
        }
      }
      HexValInjective(pa, pb);
      assert a == pa + [a[n - 1]] && b == pb + [b[n - 1]];
    }
  }

  /** The last digit and the rest of a numeral are determined by its value. */
  lemma LastDigitSplits(x: nat, y: nat, c: nat, d: nat)
    requires c < 16 && d < 16 && 16 * x + c == 16 * y + d
    ensures x == y && c == d
  {
    assert 16 * (x - y) == d - c;
  }

  /** Lexicographic order on strings of equal length. */
  predicate LexLe(a: string, b: string)
    requires |a| == |b|
  {
    |a| == 0 || a[0] < b[0] || (a[0] == b[0] && LexLe(a[1..], b[1..]))
  }

  /** Reading a numeral from its leading digit: the leading digit weighs 16^(n-1). */
  lemma {:induction false} HexValLeading(s: string)
    requires |s| > 0
    ensures HexVal(s) == DigitVal(s[0]) * Pow16(|s| - 1) + HexVal(s[1..])
  {
    var n := |s|;
    if n > 1 {
      var p, t := s[..n - 1], s[1..];
      HexValLeading(p);
      assert p[0] == s[0];
      assert p[1..] == t[..n - 2];
      assert t[n - 2] == s[n - 1];
      var d: int, q: int, last: int := DigitVal(s[0]), Pow16(n - 2), DigitVal(s[n - 1]);
      var rest: int := HexVal(t[..n - 2]);
      assert HexVal(p) == d * q + rest;
      assert HexVal(t) == 16 * rest + last;
      assert HexVal(s) == 16 * HexVal(p) + last;
      ScaleProduct(d, q);
      assert Pow16(n - 1) == 16 * q;
    }
  }

  lemma ScaleProduct(d: int, q: int)
    ensures d * (16 * q) == 16 * (d * q)
  {
  }

  /** A smaller leading digit outweighs whatever the lower digits hold. */
  lemma LeadingDigitDominates(x: nat, y: nat, p: nat, r1: nat, r2: nat)
    requires x < y && r1 < p
    ensures x * p + r1 < y * p + r2
  {
    assert (x + 1) * p <= y * p;
    assert (x + 1) * p == x * p + p;
  }

  /** On lower-case hex digits, character order is digit-value order. */
  lemma DigitOrder(c: char, d: char)
    requires IsLowerHexDigit(c) && IsLowerHexDigit(d)
    ensures c < d <==> DigitVal(c) < DigitVal(d)
  {
  }

  /**
   * On lower-case hex strings of one length, comparing the `BigInt` values
   * is comparing the strings lexicographically.
   */
  lemma {:induction false} HexOrderIsLexicographic(a: string, b: string)
    requires |a| == |b| && IsLowerHex(a) && IsLowerHex(b)
    ensures HexVal(a) <= HexVal(b) <==> LexLe(a, b)
  {
    var n := |a|;
    if n > 0 {
      HexValLeading(a);
      HexValLeading(b);
      var p := Pow16(n - 1);
      var ra, rb := HexVal(a[1..]), HexVal(b[1..]);
      HexValBound(a[1..]);
      HexValBound(b[1..]);
      DigitOrder(a[0], b[0]);
      DigitOrder(b[0], a[0]);
      if a[0] < b[0] {
        LeadingDigitDominates(DigitVal(a[0]), DigitVal(b[0]), p, ra, rb);
      } else if b[0] < a[0] {
        LeadingDigitDominates(DigitVal(b[0]), DigitVal(a[0]), p, rb, ra);
      } else {
        assert IsLowerHex(a[1..]) && IsLowerHex(b[1..]) by {
          forall i | 0 <= i < n - 1 ensures IsLowerHexDigit(a[1..][i]) && IsLowerHexDigit(b[1..][i]) {
            assert a[1..][i] == a[i + 1] && b[1..][i] == b[i + 1];
          }
        }
        HexOrderIsLexicographic(a[1..], b[1..]);
      }
    }
  }
}
