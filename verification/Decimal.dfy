/**
 Field and enum numbers as text.  `ParseProtoNumber` is the decimal, 32-bit
 reading of a number; `FormatInt` is the decimal writing of one; a contract key
 is a dotted name, a '#', and a written number.
 */
module Decimal {
  import opened Base

  const MIN_INT32: int := -0x8000_0000
  const MAX_INT32: int := 0x7FFF_FFFF

  predicate IsDigit(c: char) { '0' <= c <= '9' }

  function DigitValue(c: char): nat
    requires IsDigit(c)
  {
    c as int - '0' as int
  }

  function DigitChar(d: nat): (c: char)
    requires d < 10
    ensures IsDigit(c) && DigitValue(c) == d
  {
    ('0' as int + d) as char
  }

  predicate AllDigits(s: string) { forall i :: 0 <= i < |s| ==> IsDigit(s[i]) }

  /** The magnitude that a run of digits denotes, most significant digit first. */
  function Magnitude(s: string): nat
    requires AllDigits(s)
  {
    if s == "" then 0 else 10 * Magnitude(s[..|s| - 1]) + DigitValue(s[|s| - 1])
  }

  /** Text without its optional leading sign. */
  function Unsigned(s: string): string {
    if s != "" && (s[0] == '+' || s[0] == '-') then s[1..] else s
  }

  /** `strconv.ParseInt(number, 10, 32)`: an optional sign, then at least one decimal digit, in range. */
  function ParseProtoNumber(number: string): Option<int> {
    var digits := Unsigned(number);
    if digits == "" || !AllDigits(digits) then
      None
    else
      var magnitude: int := Magnitude(digits);
      var n := if number[0] == '-' then -magnitude else magnitude;
      if MIN_INT32 <= n <= MAX_INT32 then Some(n) else None
  }

  /** The value of a run of digits by place: each digit times its power of ten. */
  function PlaceValue(s: string): nat
    requires AllDigits(s)
  {
    if s == "" then 0 else DigitValue(s[0]) * Power10(|s| - 1) + PlaceValue(s[1..])
  }

  function Power10(k: nat): nat { if k == 0 then 1 else 10 * Power10(k - 1) }

  lemma {:induction false} MagnitudeIsPlaceValue(s: string)
    requires AllDigits(s)
    ensures Magnitude(s) == PlaceValue(s)
  {
    if |s| == 1 {
      assert s[..0] == "" && s[1..] == "";
    } else if |s| > 1 {
      var init, rest := s[..|s| - 1], s[1..];
      MagnitudeIsPlaceValue(init);
      MagnitudeIsPlaceValue(rest);
      MagnitudeIsPlaceValue(init[1..]);
      assert rest[..|rest| - 1] == init[1..];
      Shift(DigitValue(s[0]), Power10(|s| - 2), Magnitude(init[1..]), DigitValue(s[|s| - 1]));
    }
  }

  lemma Shift(first: nat, power: nat, middle: nat, last: nat)
    ensures 10 * (first * power + middle) + last == first * (10 * power) + (10 * middle + last)
  {
    assert first * (10 * power) == 10 * (first * power);
  }

  /** The text is digits, possibly after one sign, and they stand for n. */
  ghost predicate Denotes(number: string, n: int) {
    exists digits: string :: digits != "" && AllDigits(digits) &&
      ((number == digits && n == PlaceValue(digits)) || (number == "+" + digits && n == PlaceValue(digits)) ||
       (number == "-" + digits && n == 0 - PlaceValue(digits)))
  }

  /** A text is read as n exactly when it denotes n in decimal and n has 32 bits; every other text is refused. */
  lemma ParsesIffDenotes(number: string, n: int)
    ensures ParseProtoNumber(number) == Some(n) <==> Denotes(number, n) && -0x8000_0000 <= n <= 0x7FFF_FFFF
  {
    var digits := Unsigned(number);
    if digits != "" && AllDigits(digits) {
      MagnitudeIsPlaceValue(digits);
    }
    if ParseProtoNumber(number) == Some(n) {
      assert number == digits || number == "+" + digits || number == "-" + digits;
      assert number[0] == '-' ==> number != digits;
    }
    if Denotes(number, n) {
      var ds: string :| ds != "" && AllDigits(ds) &&
        ((number == ds && n == PlaceValue(ds)) || (number == "+" + ds && n == PlaceValue(ds)) ||
         (number == "-" + ds && n == 0 - PlaceValue(ds)));
      assert IsDigit(ds[0]);
      assert digits == ds by {
        if number != ds {
          assert number[1..] == ds;
        }
      }
    }
  }

  /** Leading zeros and a plus sign are read, other notations are not. */
  lemma ReadingExamples()
    ensures ParseProtoNumber("+5") == Some(5) && ParseProtoNumber("007") == Some(7) && ParseProtoNumber("-0") == Some(0)
    ensures ParseProtoNumber("0x10") == None && ParseProtoNumber("") == None && ParseProtoNumber("-") == None
    ensures ParseProtoNumber("1_0") == None && ParseProtoNumber("+-1") == None
  {
    var plus, zeros := "+5", "007";
    assert plus[1..] == "5" && "5"[..0] == "";
    assert zeros[..2] == "00" && "00"[..1] == "0" && "0"[..0] == "" && Magnitude("0") == 0 && Magnitude("00") == 0;
    assert Magnitude("5") == 5 && Magnitude(zeros) == 7;
    assert "-0"[1..] == "0" && !IsDigit("0x10"[1]) && !IsDigit("1_0"[1]);
    assert "+-1"[1..] == "-1" && !IsDigit("-1"[0]) && "-"[1..] == "";
  }

  function FormatNat(n: nat): string {
    if n < 10 then [DigitChar(n)] else FormatNat(n / 10) + [DigitChar(n % 10)]
  }

  /** `strconv.FormatInt(n, 10)`. */
  function FormatInt(n: int): string {
    if n < 0 then "-" + FormatNat(-n) else FormatNat(n)
  }

  /** `fieldKey` and `enumValueKey`: the same text form, a name and a number. */
  function NumberKey(name: string, number: int): string {
    name + "#" + FormatInt(number)
  }

  lemma {:induction false} FormatNatDigits(n: nat)
    ensures FormatNat(n) != "" && AllDigits(FormatNat(n))
    ensures Magnitude(FormatNat(n)) == n
  {
    if n >= 10 {
      FormatNatDigits(n / 10);
      var s := FormatNat(n);
      assert s[..|s| - 1] == FormatNat(n / 10);
    } else {
      var s := FormatNat(n);
      assert s[..|s| - 1] == "";
    }
  }

  /** Writing and reading back: the identity on every 32-bit number, a refusal on every other one. */
  lemma ParseOfFormat(n: int)
    ensures ParseProtoNumber(FormatInt(n)) == if MIN_INT32 <= n <= MAX_INT32 then Some(n) else None
  {
    var m := if n < 0 then -n else n;
    FormatNatDigits(m);
    ParseOfDigits(FormatNat(m));
  }

  /** Digits are read as their value, and after a minus sign as its negation, if that has 32 bits. */
  lemma ParseOfDigits(digits: string)
    requires digits != "" && AllDigits(digits)
    ensures ParseProtoNumber(digits) == if Magnitude(digits) <= MAX_INT32 then Some(Magnitude(digits)) else None
    ensures ParseProtoNumber("-" + digits) == if MIN_INT32 <= 0 - Magnitude(digits) then Some(0 - Magnitude(digits)) else None
  {
    assert IsDigit(digits[0]) && Unsigned(digits) == digits;
    var negative := "-" + digits;
    assert negative[1..] == digits && Unsigned(negative) == digits;
  }

  lemma {:induction false} FormatIntHasNoHash(n: int)
    ensures forall i :: 0 <= i < |FormatInt(n)| ==> FormatInt(n)[i] != '#'
  {
    FormatNatDigits(if n < 0 then -n else n);
  }

  lemma FormatIntInjective(m: int, n: int)
    requires FormatInt(m) == FormatInt(n)
    ensures m == n
  {
    var a, b := if m < 0 then -m else m, if n < 0 then -n else n;
    FormatNatDigits(a);
    FormatNatDigits(b);
    var s := FormatInt(m);
    assert m < 0 ==> s[0] == '-' && s[1..] == FormatNat(a);
    assert n < 0 ==> s[0] == '-' && s[1..] == FormatNat(b);
    assert m >= 0 ==> IsDigit(s[0]);
    assert n >= 0 ==> IsDigit(s[0]);
  }

  /** Two keys coincide exactly when both parts do, even for names that contain '#'. */
  lemma NumberKeyInjective(name: string, number: int, name': string, number': int)
    ensures NumberKey(name, number) == NumberKey(name', number') <==> name == name' && number == number'
  {
    if NumberKey(name, number) == NumberKey(name', number') {
      var f, f' := FormatInt(number), FormatInt(number');
      var key := NumberKey(name, number);
      FormatIntHasNoHash(number);
      FormatIntHasNoHash(number');
      assert key[|name|] == '#' && key[|name'|] == '#';
      assert forall i :: |name| < i < |key| ==> key[i] == f[i - |name| - 1];
      assert forall i :: |name'| < i < |key| ==> key[i] == f'[i - |name'| - 1];
      assert |name| == |name'|;
      assert name == key[..|name|] == name';
      assert f == key[|name| + 1..] == f';
      FormatIntInjective(number, number');
    }
  }
}
