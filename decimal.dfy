/**
 * Decimal integers as the index file stores its ids: the writer prints the
 * chunk counter with `ostream << size_t`, the reader parses it with
 * `std::stoi`.
 */
module Decimal {
  import opened Wrappers
  import opened Text

  /** The range of a 32-bit `int`, the type `std::stoi` returns. */
  const IntMin: int := -0x8000_0000
  const IntMax: int := 0x7fff_ffff

  predicate IsDigit(c: char) {
    '0' <= c <= '9'
  }

  predicate AllDigits(s: string) {
    forall i :: 0 <= i < |s| ==> IsDigit(s[i])
  }

  function DigitChar(d: nat): (c: char)
    requires d < 10
    ensures IsDigit(c)
  {
    (('0' as int) + d) as char
  }

  function DigitValue(c: char): (d: nat)
    requires IsDigit(c)
    ensures d < 10
  {
    (c as int) - ('0' as int)
  }

  /** The text `ostream << n` writes for an unsigned `n`: its digits, most significant first, no leading zero. */
  function DecimalString(n: nat): (s: string)
    ensures s != [] && AllDigits(s)
  {
    if n < 10 then [DigitChar(n)] else DecimalString(n / 10) + [DigitChar(n % 10)]
  }

  /** The value of a run of digits, most significant first. */
  function DigitsValue(d: string): nat
    requires AllDigits(d)
  {
    if d == [] then 0 else DigitsValue(d[..|d| - 1]) * 10 + DigitValue(d[|d| - 1])
  }

  /** Length of the leading run of digits. */
  function DigitRunLength(s: string): (n: nat)
    ensures n <= |s|
  {
    if s != [] && IsDigit(s[0]) then 1 + DigitRunLength(s[1..]) else 0
  }

  /**
   * `std::stoi(s)` in base 10: leading white space is skipped, an optional
   * sign and the longest run of digits after it are read and anything after
   * them is ignored; no digit at all, or a value outside the 32-bit range,
   * makes it throw (here: None).
   */
  function Stoi(s: string): (r: Option<int>)
    ensures r.Some? ==> IntMin <= r.value <= IntMax
  {
    var t := TrimStart(s, IsSpace);
    var negative := t != [] && t[0] == '-';
    var u := if t != [] && (t[0] == '-' || t[0] == '+') then t[1..] else t;
    var n := DigitRunLength(u);
    if n == 0 then None
    else
      DigitRunIsDigits(u);
      var magnitude: int := DigitsValue(u[..n]);
      var v := if negative then -magnitude else magnitude;
      if IntMin <= v <= IntMax then Some(v) else None
  }

  lemma {:induction false} DigitRunIsDigits(s: string)
    ensures var n := DigitRunLength(s); AllDigits(s[..n]) && (n < |s| ==> !IsDigit(s[n]))
  {
    if s != [] && IsDigit(s[0]) {
      DigitRunIsDigits(s[1..]);
      assert s[..DigitRunLength(s)] == [s[0]] + s[1..][..DigitRunLength(s[1..])];
    }
  }

  lemma {:induction false} DigitsValueOfDecimal(n: nat)
    ensures DigitsValue(DecimalString(n)) == n
    decreases n
  {
    if n >= 10 {
      var s := DecimalString(n);
      assert s[..|s| - 1] == DecimalString(n / 10);
      DigitsValueOfDecimal(n / 10);
    }
  }

  lemma DigitRunOfDigits(s: string)
    requires AllDigits(s)
    ensures DigitRunLength(s) == |s|
  {
    if s != [] {
      DigitRunOfDigits(s[1..]);
    }
  }

  /**
   * The reader parses back exactly the id the writer printed, provided it is
   * at most INT_MAX; a larger id makes `std::stoi` throw.
   */
  lemma StoiOfDecimal(n: nat)
    ensures Stoi(DecimalString(n)) == if n <= IntMax then Some(n) else None
  {
    var s := DecimalString(n);
    StoiOfDigits(s);
    DigitsValueOfDecimal(n);
  }

  /** A plain run of digits parses to its value, if that fits in 32 bits. */
  lemma StoiOfDigits(s: string)
    requires s != [] && AllDigits(s)
    ensures Stoi(s) == if DigitsValue(s) <= IntMax then Some(DigitsValue(s) as int) else None
  {
    assert !IsSpace(s[0]);
    assert TrimStart(s, IsSpace) == s;
    DigitRunOfDigits(s);
    assert s[..|s|] == s;
  }

  /** A digit string has no blank character at either end, so `trim` keeps it. */
  lemma DigitsAreTrimmed(s: string)
    requires AllDigits(s)
    ensures Trimmed(s, IsBlank) == s
    ensures forall i :: 0 <= i < |s| ==> !IsBlank(s[i])
  {
    TrimUnchanged(s, IsBlank);
  }
}
