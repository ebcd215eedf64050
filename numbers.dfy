/** Conversions between Java `long` values and their decimal text:
    `String.valueOf(long)` (and SQL `CAST(id AS string)`) one way, `Long.parseLong` the other. */
module Numbers {
  import opened Wrappers

  const MaxLong: int := 0x7FFF_FFFF_FFFF_FFFF
  const MinLong: int := -0x8000_0000_0000_0000

  predicate IsLong(i: int)
  {
    MinLong <= i <= MaxLong
  }

  predicate IsDigit(c: char)
  {
    '0' <= c <= '9'
  }

  predicate AllDigits(s: string)
  {
    forall i :: 0 <= i < |s| ==> IsDigit(s[i])
  }

  function DigitChar(d: nat): (c: char)
    requires d < 10
    ensures IsDigit(c)
  {
    ('0' as int + d) as char
  }

  /** The number a string of decimal digits denotes; leading zeros are allowed. */
  function DigitsValue(s: string): nat
    requires AllDigits(s)
    decreases |s|
  {
    if s == [] then 0 else DigitsValue(s[..|s| - 1]) * 10 + (s[|s| - 1] as int - '0' as int)
  }

  /** The shortest decimal spelling of `n`: no sign, no leading zero. */
  function Decimal(n: nat): (s: string)
    ensures s != [] && AllDigits(s)
    decreases n
  {
    if n < 10 then [DigitChar(n)] else Decimal(n / 10) + [DigitChar(n % 10)]
  }

  /** `String.valueOf(long)`: a minus sign before the digits of a negative number. */
  function LongToString(i: int): string
  {
    if i < 0 then "-" + Decimal(-i) else Decimal(i)
  }

  /** `Long.parseLong(s)` (radix 10): an optional `+` or `-`, then at least one digit, and a value
      inside the `long` range; `None` stands for the `NumberFormatException` it throws otherwise. */
  function ParseLong(s: string): (r: Option<int>)
    ensures r.Some? ==> IsLong(r.value)
  {
    if s == [] then None
    else if s[0] == '-' || s[0] == '+' then
      if |s| == 1 || !AllDigits(s[1..]) then None
      else
        var v: int := if s[0] == '-' then 0 - DigitsValue(s[1..]) as int else DigitsValue(s[1..]);
        if IsLong(v) then Some(v) else None
    else if AllDigits(s) && DigitsValue(s) <= MaxLong then Some(DigitsValue(s))
    else None
  }

  /** The digits `Decimal` writes denote the number written. */
  lemma {:induction false} DecimalValue(n: nat)
    ensures DigitsValue(Decimal(n)) == n
    decreases n
  {
    if n >= 10 {
      DecimalValue(n / 10);
      var s := Decimal(n);
      assert s[..|s| - 1] == Decimal(n / 10);
    }
  }

  /** `Decimal` never writes a leading zero, except for zero itself. */
  lemma {:induction false} DecimalCanonical(n: nat)
    ensures Decimal(n)[0] == '0' <==> n == 0
    decreases n
  {
    if n >= 10 {
      DecimalCanonical(n / 10);
      assert Decimal(n)[0] == Decimal(n / 10)[0];
    }
  }

  /** Round trip: `Long.parseLong(String.valueOf(i)) == i` for every `long` value. */
  lemma ParseLongToString(i: int)
    requires IsLong(i)
    ensures ParseLong(LongToString(i)) == Some(i)
  {
    if i < 0 {
      DecimalValue(-i);
      assert LongToString(i)[1..] == Decimal(-i);
    } else {
      DecimalValue(i);
    }
  }

  /** `String.valueOf(long)` is injective. */
  lemma LongToStringInjective(i: int, j: int)
    requires IsLong(i) && IsLong(j)
    ensures LongToString(i) == LongToString(j) ==> i == j
  {
    ParseLongToString(i);
    ParseLongToString(j);
  }

  /** Parsing also accepts spellings `String.valueOf` never produces: a leading zero or a plus sign. */
  lemma ParseLongNonCanonical()
    ensures ParseLong("007") == Some(7) && ParseLong("+7") == Some(7)
    ensures LongToString(7) == "7" && LongToString(7) != "007" && LongToString(7) != "+7"
  {
    assert "007"[..2] == "00" && "00"[..1] == "0";
    assert "+7"[1..] == "7";
    assert DigitsValue("7") == 7;
    assert "7"[..0] == [];
  }

  /** Text that is not a number is rejected, including a bare sign and surrounding blanks. */
  lemma ParseLongRejects()
    ensures ParseLong("jo") == None && ParseLong("-") == None && ParseLong("+") == None
    ensures ParseLong(" 7") == None && ParseLong("7 ") == None && ParseLong("") == None
  {
    assert !IsDigit("7 "[1]);
  }
}
