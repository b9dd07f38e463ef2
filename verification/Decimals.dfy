/** Decimal text, as `strconv` reads and prints it. */
module Decimals {
  import opened Base
  import opened Texts
  import opened Scanners

  const MAX_INT64 := 0x7FFF_FFFF_FFFF_FFFF

  function DecimalValue(t: Text): nat {
    if t == [] then 0
    else
      var d := RangeRune(t[|t| - 1]) as int - '0' as int;
      10 * DecimalValue(t[..|t| - 1]) + if 0 <= d < 10 then d else 0
  }

  predicate AllDigits(t: Text) {
    t != [] && forall i :: 0 <= i < |t| ==> IsDigit(t[i])
  }

  /** `strconv.ParseInt(value, 10, 64)`: an optional sign, decimal digits, within 64 bits. */
  function ParseInt64(value: Text): Option<int> {
    var negative := value != [] && value[0] == Rune('-');
    var digits := if value != [] && (value[0] == Rune('-') || value[0] == Rune('+')) then value[1..] else value;
    if !AllDigits(digits) then None
    else
      var magnitude: int := DecimalValue(digits);
      var parsed := if negative then -magnitude else magnitude;
      if -MAX_INT64 - 1 <= parsed <= MAX_INT64 then Some(parsed) else None
  }

  function Digit(d: nat): Glyph
    requires d < 10
  {
    Rune('0' + d as char)
  }

  function Decimal(n: nat): Text {
    if n < 10 then [Digit(n)] else Decimal(n / 10) + [Digit(n % 10)]
  }

  lemma {:induction false} DecimalParses(n: nat)
    ensures AllDigits(Decimal(n)) && DecimalValue(Decimal(n)) == n
  {
    if n >= 10 {
      DecimalParses(n / 10);
      var t := Decimal(n);
      assert t[..|t| - 1] == Decimal(n / 10);
    } else {
      assert Decimal(n)[..0] == [];
    }
  }

  function ZeroDigits(k: nat): Text {
    if k == 0 then [] else ZeroDigits(k - 1) + [Rune('0')]
  }

  lemma {:induction false} ZerosAddNothing(k: nat, t: Text)
    ensures DecimalValue(ZeroDigits(k) + t) == DecimalValue(t)
    ensures AllDigits(t) ==> AllDigits(ZeroDigits(k) + t)
    decreases k + |t|
  {
    var padded := ZeroDigits(k) + t;
    if t != [] {
      ZerosAddNothing(k, t[..|t| - 1]);
      ZerosAreDigits(k);
      assert padded[..|padded| - 1] == ZeroDigits(k) + t[..|t| - 1];
    } else if k > 0 {
      ZerosAddNothing(k - 1, []);
      assert padded == ZeroDigits(k - 1) + [Rune('0')] && ZeroDigits(k - 1) + [] == ZeroDigits(k - 1);
      assert padded[..|padded| - 1] == ZeroDigits(k - 1);
    } else {
      assert padded == [];
    }
  }

  lemma {:induction false} ZerosAreDigits(k: nat)
    ensures forall i :: 0 <= i < |ZeroDigits(k)| ==> ZeroDigits(k)[i] == Rune('0')
  {
    if k > 0 { ZerosAreDigits(k - 1); }
  }

  /** A digit string is the canonical decimal of its value behind leading zeros. */
  lemma {:induction false} DigitsAreDecimal(t: Text) returns (zeros: nat)
    requires AllDigits(t)
    ensures t == ZeroDigits(zeros) + Decimal(DecimalValue(t))
  {
    var n := |t| - 1;
    assert t == t[..n] + [t[n]];
    var d := RangeRune(t[n]) as int - '0' as int;
    assert IsDigit(t[n]) && t[n] == Digit(d);
    if n == 0 {
      zeros := 0;
    } else {
      var z := DigitsAreDecimal(t[..n]);
      var v := DecimalValue(t[..n]);
      if v == 0 {
        zeros := z + 1;
      } else {
        zeros := z;
        assert (10 * v + d) / 10 == v && (10 * v + d) % 10 == d;
      }
    }
  }

  predicate Signed(value: Text, digits: Text) {
    value == digits || value == [Rune('+')] + digits
  }

  /** `value` is the decimal of `n`, with an optional plus sign and any leading zeros. */
  ghost predicate Writes(value: Text, n: nat) {
    exists zeros: nat :: Signed(value, ZeroDigits(zeros) + Decimal(n))
  }

  lemma {:induction false} ParsedIsDecimal(value: Text, n: int) returns (zeros: nat)
    requires n > 0 && ParseInt64(value) == Some(n)
    ensures n <= MAX_INT64 && Signed(value, ZeroDigits(zeros) + Decimal(n))
  {
    var digits := if value[0] == Rune('+') then value[1..] else value;
    assert AllDigits(digits) && DecimalValue(digits) == n;
    zeros := DigitsAreDecimal(digits);
    assert value[0] == Rune('+') ==> value == [Rune('+')] + value[1..];
  }

  lemma {:induction false} DecimalIsParsed(value: Text, n: int, zeros: nat)
    requires 0 < n <= MAX_INT64 && Signed(value, ZeroDigits(zeros) + Decimal(n))
    ensures ParseInt64(value) == Some(n)
  {
    var digits := ZeroDigits(zeros) + Decimal(n);
    DecimalParses(n);
    ZerosAddNothing(zeros, Decimal(n));
    assert AllDigits(digits) && DecimalValue(digits) == n && IsDigit(digits[0]);
    if value != digits { assert value[1..] == digits; }
  }

  /** Positive 64-bit values are read from exactly their decimal, with an optional plus sign
      and any leading zeros; every other string is refused or not positive. */
  lemma {:induction false} ParseMeaning(value: Text, n: int)
    requires n > 0
    ensures ParseInt64(value) == Some(n) <==> n <= MAX_INT64 && Writes(value, n)
  {
    if ParseInt64(value) == Some(n) {
      var zeros := ParsedIsDecimal(value, n);
    }
    if n <= MAX_INT64 && Writes(value, n) {
      var zeros: nat :| Signed(value, ZeroDigits(zeros) + Decimal(n));
      DecimalIsParsed(value, n, zeros);
    }
  }
}
