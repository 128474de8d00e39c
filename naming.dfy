/** The names `FunctionMangle.unique_name` mints: the prefix
    `_hy_hoisted_fn_` followed by the counter as Python's `%s` prints an
    integer (decimal, no leading zeros). */
module Naming {
  import opened Nodes

  const HoistedPrefix: string := "_hy_hoisted_fn_"

  predicate IsDigit(c: char) {
    '0' <= c <= '9'
  }

  function DigitChar(d: nat): (c: char)
    requires d < 10
    ensures IsDigit(c)
  {
    (48 + d) as char
  }

  function DigitValue(c: char): (d: nat)
    requires IsDigit(c)
    ensures d < 10 && DigitChar(d) == c
  {
    c as int - 48
  }

  /** `"%s" % n` for a natural number. */
  function Decimal(n: nat): (s: string)
    ensures s != [] && forall i :: 0 <= i < |s| ==> IsDigit(s[i])
    ensures s[0] == '0' <==> n == 0
  {
    if n < 10 then [DigitChar(n)] else Decimal(n / 10) + [DigitChar(n % 10)]
  }

  /** Reads a decimal numeral back. */
  function ParseDecimal(s: string): nat
    requires s != [] && forall i :: 0 <= i < |s| ==> IsDigit(s[i])
  {
    if |s| == 1 then DigitValue(s[0])
    else ParseDecimal(s[..|s| - 1]) * 10 + DigitValue(s[|s| - 1])
  }

  lemma {:induction false} ParseDecimalOfDecimal(n: nat)
    ensures ParseDecimal(Decimal(n)) == n
  {
    if n >= 10 {
      var s := Decimal(n);
      assert s[..|s| - 1] == Decimal(n / 10);
      ParseDecimalOfDecimal(n / 10);
    }
  }

  /** The name minted when the counter has just become `serial`. */
  function HoistedName(serial: nat): (name: string)
    ensures |name| > |HoistedPrefix| && name[..|HoistedPrefix|] == HoistedPrefix
    ensures forall i :: |HoistedPrefix| <= i < |name| ==> IsDigit(name[i])
  {
    HoistedPrefix + Decimal(serial)
  }

  /** The counter value a minted name was made from, if `name` is one. */
  function SerialOf(name: string): Option<nat> {
    if |name| > |HoistedPrefix| && name[..|HoistedPrefix|] == HoistedPrefix
       && forall i :: |HoistedPrefix| <= i < |name| ==> IsDigit(name[i])
    then Some(ParseDecimal(name[|HoistedPrefix|..]))
    else None
  }

  /** Every minted name carries the prefix and reads back as its counter. */
  lemma HoistedNameRoundTrip(serial: nat)
    ensures SerialOf(HoistedName(serial)) == Some(serial)
  {
    var name := HoistedName(serial);
    assert name[..|HoistedPrefix|] == HoistedPrefix;
    assert name[|HoistedPrefix|..] == Decimal(serial);
    ParseDecimalOfDecimal(serial);
  }

  /** Different counter values give different names. */
  lemma HoistedNameInjective(a: nat, b: nat)
    ensures HoistedName(a) == HoistedName(b) <==> a == b
  {
    HoistedNameRoundTrip(a);
    HoistedNameRoundTrip(b);
  }

  /** The first name an instance mints, when its counter goes from 0 to 1. */
  lemma FirstHoistedName()
    ensures HoistedName(1) == "_hy_hoisted_fn_1"
  {
  }
}
