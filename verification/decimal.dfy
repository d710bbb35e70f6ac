/**
 * Decimal digit strings: reading them (`parseInt`, the regex's `\d+`),
 * writing them (`String(n)`), left-padding (`padStart`) and splitting on a
 * separator. Shared by the duration parsers and the HH:MM:SS formatter.
 */
module Decimal {

  /** The regex class `\d`: ASCII decimal digits only. */
  predicate IsDigit(c: char) {
    '0' <= c <= '9'
  }

  predicate AllDigits(s: string) {
    forall i :: 0 <= i < |s| ==> IsDigit(s[i])
  }

  function DigitValue(c: char): (d: nat)
    requires IsDigit(c)
    ensures d < 10
  {
    (c as int) - ('0' as int)
  }

  function DigitChar(d: nat): (c: char)
    requires d < 10
    ensures IsDigit(c) && DigitValue(c) == d
  {
    ('0' as int + d) as char
  }

  /** The number a digit string denotes, most significant digit first. */
  function ValueOf(s: string): nat
    requires AllDigits(s)
    decreases |s|
  {
    if s == [] then 0 else ValueOf(s[..|s| - 1]) * 10 + DigitValue(s[|s| - 1])
  }

  /** Reading one more digit on the right multiplies by ten and adds it. */
  lemma ValueOfSnoc(s: string, c: char)
    requires AllDigits(s) && IsDigit(c)
    ensures AllDigits(s + [c]) && ValueOf(s + [c]) == ValueOf(s) * 10 + DigitValue(c)
  {
    assert (s + [c])[..|s|] == s;
  }

  /**
   * Length of the longest run of digits starting at `pos`: what a greedy
   * `\d+` consumes there.
   */
  function DigitRun(s: string, pos: nat): (n: nat)
    requires pos <= |s|
    ensures pos + n <= |s|
    ensures forall i :: pos <= i < pos + n ==> IsDigit(s[i])
    ensures pos + n == |s| || !IsDigit(s[pos + n])
    decreases |s| - pos
  {
    if pos < |s| && IsDigit(s[pos]) then 1 + DigitRun(s, pos + 1) else 0
  }

  /** A run of digits that ends at `pos + k` (end of text or a non-digit) is the maximal one. */
  lemma DigitRunExact(s: string, pos: nat, k: nat)
    requires pos + k <= |s|
    requires forall i :: pos <= i < pos + k ==> IsDigit(s[i])
    requires pos + k == |s| || !IsDigit(s[pos + k])
    ensures DigitRun(s, pos) == k
  {
    var n := DigitRun(s, pos);
  }

  /**
   * JavaScript's `parseInt(s, 10)` on a string that begins with a digit: the
   * value of the leading digit run; whatever follows it is ignored.
   */
  function ParseInt(s: string): nat
    requires |s| > 0 && IsDigit(s[0])
  {
    ValueOf(s[..DigitRun(s, 0)])
  }

  /** `parseInt` of digits followed by a non-digit reads exactly those digits. */
  lemma ParseIntDigitsThen(d: string, rest: string)
    requires |d| > 0 && AllDigits(d)
    requires rest == [] || !IsDigit(rest[0])
    ensures ParseInt(d + rest) == ValueOf(d)
  {
    var s := d + rest;
    DigitRunExact(s, 0, |d|);
    assert s[..|d|] == d;
  }

  /** JavaScript's `String(n)` for a non-negative integer: no leading zeros. */
  function NatToString(n: nat): (r: string)
    ensures |r| >= 1 && AllDigits(r)
    ensures ValueOf(r) == n
    ensures r[0] == '0' ==> n == 0 && |r| == 1
    ensures |r| == 1 <==> n < 10
    ensures 10 <= n < 100 ==> |r| == 2
  {
    if n < 10 then [DigitChar(n)]
    else
      var front := NatToString(n / 10);
      ValueOfSnoc(front, DigitChar(n % 10));
      front + [DigitChar(n % 10)]
  }

  function Repeat(c: char, n: nat): (r: string)
    ensures |r| == n
    ensures forall i :: 0 <= i < n ==> r[i] == c
  {
    if n == 0 then [] else [c] + Repeat(c, n - 1)
  }

  /** JavaScript's `s.padStart(width, fill)` for a one-character `fill`. */
  function PadStart(s: string, width: nat, fill: char): (r: string)
    ensures |r| == if |s| >= width then |s| else width
    ensures r[|r| - |s|..] == s
    ensures forall i :: 0 <= i < |r| - |s| ==> r[i] == fill
  {
    if |s| >= width then s else Repeat(fill, width - |s|) + s
  }

  predicate AllZeros(z: string) {
    forall i :: 0 <= i < |z| ==> z[i] == '0'
  }

  lemma {:induction false} ValueOfZeros(z: string)
    requires AllZeros(z)
    ensures AllDigits(z) && ValueOf(z) == 0
    decreases |z|
  {
    if z != [] {
      ValueOfZeros(z[..|z| - 1]);
    }
  }

  /** Leading zeros do not change the value a digit string denotes. */
  lemma {:induction false} ValueOfLeadingZeros(z: string, s: string)
    requires AllZeros(z) && AllDigits(s)
    ensures AllDigits(z + s) && ValueOf(z + s) == ValueOf(s)
    decreases |s|
  {
    if s == [] {
      assert z + s == z;
      ValueOfZeros(z);
    } else {
      var front := s[..|s| - 1];
      ValueOfLeadingZeros(z, front);
      assert (z + s)[..|z + s| - 1] == z + front;
    }
  }

  /** JavaScript's `s.split(sep)` for a one-character separator. */
  function Split(s: string, sep: char): (r: seq<string>)
    ensures |r| >= 1
    ensures forall i :: 0 <= i < |r| ==> sep !in r[i]
    decreases |s|
  {
    if s == [] then [[]]
    else
      var rest := Split(s[1..], sep);
      if s[0] == sep then [[]] + rest else [[s[0]] + rest[0]] + rest[1..]
  }

  lemma {:induction false} SplitNoSeparator(a: string, sep: char)
    requires sep !in a
    ensures Split(a, sep) == [a]
    decreases |a|
  {
    if a != [] {
      SplitNoSeparator(a[1..], sep);
      assert [a[0]] + a[1..] == a;
    }
  }

  /** Splitting `a + sep + b` yields `a` followed by the fields of `b`. */
  lemma {:induction false} SplitAround(a: string, sep: char, b: string)
    requires sep !in a
    ensures Split(a + [sep] + b, sep) == [a] + Split(b, sep)
    decreases |a|
  {
    var s := a + [sep] + b;
    if a == [] {
      assert s[1..] == b;
    } else {
      assert s[1..] == a[1..] + [sep] + b;
      SplitAround(a[1..], sep, b);
      assert [a[0]] + a[1..] == a;
    }
  }
}
