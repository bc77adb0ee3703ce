/** Character and string helpers: Ruby's notion of a blank value, decimal
    rendering of integers (`Integer#to_s`, zero-padded `strftime` fields) and
    ASCII case folding. */
module Text {
  import opened Wrappers

  /** A character of the `[[:space:]]` class used by `String#blank?`. */
  predicate IsSpace(c: char) {
    c == ' ' || c == '\t' || c == '\n' || c == '\U{000B}' || c == '\U{000C}' || c == '\r'
    || c == '\U{0085}' || c == '\U{00A0}' || c == '\U{1680}'
    || ('\U{2000}' <= c <= '\U{200A}')
    || c == '\U{2028}' || c == '\U{2029}' || c == '\U{202F}' || c == '\U{205F}' || c == '\U{3000}'
  }

  /** `blank?`: nil, the empty string, or a string made only of white space. */
  predicate IsBlank(v: Option<string>) {
    match v
    case None => true
    case Some(s) => forall i :: 0 <= i < |s| ==> IsSpace(s[i])
  }

  /** `presence`: the value itself unless it is blank, nil otherwise. */
  function Presence(v: Option<string>): (r: Option<string>)
    ensures r.Some? <==> !IsBlank(v)
    ensures r.Some? ==> r == v
  {
    if IsBlank(v) then None else v
  }

  /** The string a nil renders as in a CSV field. */
  function OrEmpty(v: Option<string>): string {
    match v
    case None => ""
    case Some(s) => s
  }

  /** Concatenation is associative (stated once, so that proofs about long
      concatenations need not rediscover it element by element). */
  lemma ConcatAssoc<T>(a: seq<T>, b: seq<T>, c: seq<T>)
    ensures a + (b + c) == (a + b) + c
  {
  }

  /** Equal concatenations with equally long right parts have equal parts. */
  lemma ConcatCancel<T>(a: seq<T>, x: seq<T>, b: seq<T>, y: seq<T>)
    requires a + x == b + y && |x| == |y|
    ensures a == b && x == y
  {
    assert a == (a + x)[..|a|];
    assert b == (b + y)[..|b|];
    assert x == (a + x)[|a|..];
    assert y == (b + y)[|b|..];
  }

  /** Appending to both sides of `w == b + l`. */
  lemma AppendBoth<T>(w: seq<T>, b: seq<T>, l: seq<T>, l': seq<T>, x: seq<T>)
    requires w == b + l && l' == l + x
    ensures w + x == b + l'
  {
  }

  // ---------------------------------------------------------------------
  // Decimal digits

  predicate IsDigit(c: char) {
    '0' <= c <= '9'
  }

  predicate AllDigits(s: string) {
    forall i :: 0 <= i < |s| ==> IsDigit(s[i])
  }

  function DigitChar(d: nat): (c: char)
    requires d < 10
    ensures IsDigit(c)
  {
    (('0' as int) + d) as char
  }

  function DigitValue(c: char): (d: nat)
    requires IsDigit(c)
    ensures d < 10
  {
    (c as int) - ('0' as int)
  }

  /** The value of a string of decimal digits. */
  function DecValue(s: string): nat
    requires AllDigits(s)
  {
    if s == [] then 0 else 10 * DecValue(s[..|s| - 1]) + DigitValue(s[|s| - 1])
  }

  /** `Integer#to_s` for a non-negative integer: its shortest decimal form. */
  function NatToDec(n: nat): (s: string)
    ensures |s| >= 1 && AllDigits(s)
    ensures n < 10 <==> |s| == 1
    ensures DecValue(s) == n
  {
    if n < 10 then [DigitChar(n)]
    else
      var s := NatToDec(n / 10) + [DigitChar(n % 10)];
      assert s[..|s| - 1] == NatToDec(n / 10);
      s
  }

  /** `Integer#to_s`: a minus sign before the digits of a negative number. */
  function IntToDec(i: int): (s: string)
    ensures |s| >= 1
    ensures i >= 0 <==> AllDigits(s)
  {
    if i < 0 then
      var s := "-" + NatToDec(-i);
      assert !IsDigit(s[0]);
      s
    else NatToDec(i)
  }

  /** Reads back what `IntToDec` writes. */
  function DecToInt(s: string): Option<int> {
    if |s| >= 2 && s[0] == '-' && AllDigits(s[1..]) then Some(-(DecValue(s[1..]) as int))
    else if |s| >= 1 && AllDigits(s) then Some(DecValue(s))
    else None
  }

  lemma IntToDecRoundTrip(i: int)
    ensures DecToInt(IntToDec(i)) == Some(i)
  {
    if i < 0 {
      var s := IntToDec(i);
      assert s[1..] == NatToDec(-i);
    }
  }

  function Zeros(k: nat): (s: string)
    ensures |s| == k && AllDigits(s) && DecValue(s) == 0
  {
    if k == 0 then "" else
      var s := Zeros(k - 1) + "0";
      assert s[..|s| - 1] == Zeros(k - 1);
      s
  }

  /** A `strftime` numeric field: the decimal digits of `n`, left-padded with
      zeros to at least `width` characters. */
  function PadDec(n: nat, width: nat): (s: string)
    ensures AllDigits(s) && DecValue(s) == n
    ensures |s| == if |NatToDec(n)| < width then width else |NatToDec(n)|
  {
    var d := NatToDec(n);
    if |d| < width then
      var s := Zeros(width - |d|) + d;
      LeadingZeros(width - |d|, d);
      s
    else d
  }

  lemma {:induction false} LeadingZeros(k: nat, d: string)
    requires AllDigits(d)
    ensures AllDigits(Zeros(k) + d) && DecValue(Zeros(k) + d) == DecValue(d)
  {
    var s := Zeros(k) + d;
    if d == [] {
      assert s == Zeros(k);
    } else {
      assert s[..|s| - 1] == Zeros(k) + d[..|d| - 1];
      assert s[|s| - 1] == d[|d| - 1];
      LeadingZeros(k, d[..|d| - 1]);
    }
  }

  /** A number below 10^width takes exactly `width` characters when padded. */
  lemma PadDecWidth(n: nat, width: nat)
    requires 1 <= width && n < Pow10(width)
    ensures |PadDec(n, width)| == width
  {
    DecLength(n, width);
  }

  function Pow10(k: nat): (p: nat)
    ensures p >= 1
  {
    if k == 0 then 1 else 10 * Pow10(k - 1)
  }

  lemma {:induction false} DecLength(n: nat, width: nat)
    requires 1 <= width && n < Pow10(width)
    ensures |NatToDec(n)| <= width
  {
    if n >= 10 {
      assert width >= 2;
      DecLength(n / 10, width - 1);
    }
  }

  lemma PadDecInjective(n: nat, m: nat, width: nat)
    requires PadDec(n, width) == PadDec(m, width)
    ensures n == m
  {
  }

  // ---------------------------------------------------------------------
  // Case folding

  /** ASCII `downcase` of one character. */
  function Lower(c: char): (r: char)
    ensures !('A' <= r <= 'Z')
  {
    if 'A' <= c <= 'Z' then ((c as int) + 32) as char else c
  }

  /** ASCII `downcase` of a string, the comparison key of a case-insensitive
      uniqueness check. */
  function Fold(s: string): (r: string)
    ensures |r| == |s|
    ensures forall i :: 0 <= i < |s| ==> r[i] == Lower(s[i])
  {
    seq(|s|, i requires 0 <= i < |s| => Lower(s[i]))
  }

  predicate NoUpper(s: string) {
    forall i :: 0 <= i < |s| ==> !('A' <= s[i] <= 'Z')
  }

  lemma FoldNoUpper(s: string)
    requires NoUpper(s)
    ensures Fold(s) == s
  {
  }
}
