/**
 String helpers of the dex app: `String(n)` for non-negative integers (with
 the parser that inverts it), `pad3` (which pads to FOUR digits), `cap`
 (hyphens to spaces), `String.prototype.includes`, and the ASCII part of
 `toLowerCase`. A Dafny `char` is a Unicode scalar value, so strings here are
 sequences of code points, where JavaScript strings are sequences of UTF-16
 code units; the two agree on text without characters above U+FFFF.
 */
module Text {

  predicate IsDigit(c: char) {
    '0' <= c <= '9'
  }

  predicate AllDigits(s: string) {
    forall i :: 0 <= i < |s| ==> IsDigit(s[i])
  }

  function DigitChar(d: nat): (c: char)
    requires d < 10
    ensures IsDigit(c)
    ensures c as int - '0' as int == d
  {
    (d + '0' as int) as char
  }

  function DigitValue(c: char): (d: nat)
    requires IsDigit(c)
    ensures d < 10
  {
    c as int - '0' as int
  }

  /** `String(n)` for a non-negative integer: shortest decimal form. */
  function Decimal(n: nat): (s: string)
    ensures |s| >= 1
    ensures AllDigits(s)
    ensures s[0] == '0' ==> n == 0
    decreases n
  {
    if n < 10 then [DigitChar(n)] else Decimal(n / 10) + [DigitChar(n % 10)]
  }

  /** `String(n)` for any integer: a minus sign before the magnitude. */
  function IntDecimal(n: int): (s: string)
    ensures |s| >= 1
    ensures n >= 0 ==> s == Decimal(n)
    ensures n < 0 ==> s == "-" + Decimal(-n)
  {
    if n < 0 then "-" + Decimal(-n) else Decimal(n)
  }

  /** Reads a string of decimal digits (leading zeros allowed). */
  function ParseDecimal(s: string): nat
    requires AllDigits(s)
    decreases |s|
  {
    if s == [] then 0 else ParseDecimal(s[..|s| - 1]) * 10 + DigitValue(s[|s| - 1])
  }

  /** Reading back what `Decimal` wrote gives the number. */
  lemma {:induction false} DecimalRoundTrip(n: nat)
    ensures ParseDecimal(Decimal(n)) == n
    decreases n
  {
    if n >= 10 {
      var s := Decimal(n);
      assert s[..|s| - 1] == Decimal(n / 10);
      DecimalRoundTrip(n / 10);
    }
  }

  /** Two numbers print alike only when they are equal. */
  lemma DecimalInjective(a: nat, b: nat)
    ensures Decimal(a) == Decimal(b) <==> a == b
  {
    if Decimal(a) == Decimal(b) {
      DecimalRoundTrip(a);
      DecimalRoundTrip(b);
    }
  }

  function Zeros(k: nat): (z: string)
    ensures |z| == k
    ensures forall i :: 0 <= i < k ==> z[i] == '0'
  {
    seq(k, _ => '0')
  }

  /** `pad3(n)`: `String(n).padStart(4, "0")` — despite its name it pads to
      four characters. */
  function PadId(n: nat): (s: string)
    ensures |s| == if |Decimal(n)| < 4 then 4 else |Decimal(n)|
    ensures AllDigits(s)
    ensures s[|s| - |Decimal(n)|..] == Decimal(n)
    ensures forall i :: 0 <= i < |s| - |Decimal(n)| ==> s[i] == '0'
  {
    var d := Decimal(n);
    if |d| < 4 then Zeros(4 - |d|) + d else d
  }

  /** Leading zeros do not change the value read. */
  lemma {:induction false} ParseZerosPrefix(k: nat, d: string)
    requires AllDigits(d)
    ensures AllDigits(Zeros(k) + d)
    ensures ParseDecimal(Zeros(k) + d) == ParseDecimal(d)
    decreases |d|, k
  {
    var s := Zeros(k) + d;
    if d == [] {
      if k > 0 {
        assert s[..|s| - 1] == Zeros(k - 1) + [];
        ParseZerosPrefix(k - 1, []);
      }
    } else {
      assert s[..|s| - 1] == Zeros(k) + d[..|d| - 1];
      ParseZerosPrefix(k, d[..|d| - 1]);
    }
  }

  /** The padded id reads back as the id: the zero padding is harmless. */
  lemma PadIdRoundTrip(n: nat)
    ensures ParseDecimal(PadId(n)) == n
  {
    DecimalRoundTrip(n);
    var d := Decimal(n);
    if |d| < 4 {
      ParseZerosPrefix(4 - |d|, d);
    }
  }

  /** `cap(s)`: every hyphen becomes a space; the rest is unchanged. */
  function Cap(s: string): (r: string)
    ensures |r| == |s|
    ensures forall i :: 0 <= i < |s| ==> r[i] != '-'
    ensures forall i :: 0 <= i < |s| && s[i] == '-' ==> r[i] == ' '
    ensures forall i :: 0 <= i < |s| && s[i] != '-' ==> r[i] == s[i]
  {
    seq(|s|, i requires 0 <= i < |s| => if s[i] == '-' then ' ' else s[i])
  }

  /** `cap` works character by character: capping a hyphen-joined name caps
      each part and puts a space between them. */
  lemma CapJoin(a: string, b: string)
    ensures Cap(a + "-" + b) == Cap(a) + " " + Cap(b)
  {
    var l, r := Cap(a + "-" + b), Cap(a) + " " + Cap(b);
    forall i | 0 <= i < |l| ensures l[i] == r[i] {
      if i < |a| {
        assert (a + "-" + b)[i] == a[i];
      } else if i > |a| {
        assert (a + "-" + b)[i] == b[i - |a| - 1];
      }
    }
  }

  /** Capping twice is capping once. */
  lemma CapIdempotent(s: string)
    ensures Cap(Cap(s)) == Cap(s)
  {
  }

  predicate StartsWith(s: string, q: string) {
    |q| <= |s| && s[..|q|] == q
  }

  /** `s.includes(q)`, scanning start positions left to right. */
  predicate Contains(s: string, q: string)
    decreases |s|
  {
    StartsWith(s, q) || (s != [] && Contains(s[1..], q))
  }

  /** `q` occurs in `s` starting at position `i`. */
  predicate OccursAt(s: string, q: string, i: int) {
    0 <= i <= |s| - |q| && s[i..i + |q|] == q
  }

  /** `Contains` agrees with the positional definition of a substring. */
  lemma {:induction false} ContainsIff(s: string, q: string)
    ensures Contains(s, q) <==> exists i :: OccursAt(s, q, i)
    decreases |s|
  {
    if exists i :: OccursAt(s, q, i) {
      var i :| OccursAt(s, q, i);
      if i > 0 {
        assert OccursAt(s[1..], q, i - 1) by {
          SliceOfTail(s, i - 1, |q|);
        }
        ContainsIff(s[1..], q);
      } else {
        assert StartsWith(s, q);
      }
    }
    if Contains(s, q) {
      if StartsWith(s, q) {
        assert OccursAt(s, q, 0);
      } else {
        ContainsIff(s[1..], q);
        var i :| OccursAt(s[1..], q, i);
        SliceOfTail(s, i, |q|);
        assert OccursAt(s, q, i + 1);
      }
    }
  }

  /** A slice of the tail is the slice of the whole one position later. */
  lemma SliceOfTail(s: string, i: nat, n: nat)
    requires 1 + i + n <= |s|
    ensures s[1..][i..i + n] == s[i + 1..i + 1 + n]
  {
  }

  function LowerChar(c: char): char {
    if 'A' <= c <= 'Z' then (c as int + 32) as char else c
  }

  /** The ASCII part of `toLowerCase`. */
  function AsciiLower(s: string): (r: string)
    ensures |r| == |s|
    ensures forall i :: 0 <= i < |s| ==> !('A' <= r[i] <= 'Z')
    ensures forall i :: 0 <= i < |s| && 'A' <= s[i] <= 'Z' ==> r[i] as int == s[i] as int + 32
    ensures forall i :: 0 <= i < |s| && !('A' <= s[i] <= 'Z') ==> r[i] == s[i]
  {
    seq(|s|, i requires 0 <= i < |s| => LowerChar(s[i]))
  }

  /** Lower-casing ignores case: two strings that differ only in the case of
      ASCII letters lower-case alike, and lower-casing twice is lower-casing
      once. */
  lemma AsciiLowerIgnoresCase(s: string, t: string)
    requires |s| == |t|
    requires forall i :: 0 <= i < |s| ==> s[i] == t[i] || LowerChar(s[i]) == t[i] || s[i] == LowerChar(t[i])
    ensures AsciiLower(s) == AsciiLower(t)
    ensures AsciiLower(AsciiLower(s)) == AsciiLower(s)
  {
    var a, b := AsciiLower(s), AsciiLower(t);
    forall i | 0 <= i < |s| ensures a[i] == b[i] {
      assert a[i] == LowerChar(s[i]) && b[i] == LowerChar(t[i]);
    }
  }
}
