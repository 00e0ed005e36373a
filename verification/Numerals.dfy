/** Decimal numerals: the unbounded value of a digit string, and the loops that read one into a
    machine integer. */
module Numerals {
  import opened Wrappers

  predicate IsDigit(c: char) { '0' <= c <= '9' }

  predicate AllDigits(s: string) {
    forall i :: 0 <= i < |s| ==> IsDigit(s[i])
  }

  function Digit(c: char): (d: nat)
    requires IsDigit(c)
    ensures d < 10
  {
    c as int - '0' as int
  }

  /** The exact value of a digit string of any length. */
  function Decimal(s: string): nat
    requires AllDigits(s)
  {
    if s == [] then 0 else 10 * Decimal(s[..|s| - 1]) + Digit(s[|s| - 1])
  }

  lemma {:induction false} DecimalPrefix(s: string, i: nat)
    requires AllDigits(s) && i <= |s|
    ensures Decimal(s[..i]) <= Decimal(s)
    decreases |s|
  {
    if i == |s| {
      assert s[..i] == s;
    } else {
      assert s[..|s| - 1][..i] == s[..i];
      DecimalPrefix(s[..|s| - 1], i);
    }
  }

  // ----- Printing -----

  function DigitChar(d: nat): (c: char)
    requires d < 10
    ensures IsDigit(c) && Digit(c) == d
  {
    ('0' as int + d) as char
  }

  function Numeral(n: nat): (s: string)
    ensures s != [] && AllDigits(s)
  {
    if n < 10 then [DigitChar(n)] else Numeral(n / 10) + [DigitChar(n % 10)]
  }

  lemma {:induction false} DecimalOfNumeral(n: nat)
    ensures Decimal(Numeral(n)) == n
  {
    var s := Numeral(n);
    if n < 10 {
      assert s[..0] == [];
    } else {
      DecimalOfNumeral(n / 10);
      assert s[..|s| - 1] == Numeral(n / 10);
    }
  }

  // ----- 32-bit unsigned, rejecting what does not fit -----

  const U32_MAX: nat := 0xFFFF_FFFF

  /** What `parse_u32` accepts, and its value. */
  function U32Of(s: string): Option<nat> {
    if s != [] && AllDigits(s) && Decimal(s) <= U32_MAX then Some(Decimal(s)) else None
  }

  method ParseU32(s: string) returns (r: Option<nat>)
    ensures r == U32Of(s)
  {
    if s == [] {
      return None;
    }
    var v: nat := 0;
    for i := 0 to |s|
      invariant AllDigits(s[..i]) && v == Decimal(s[..i]) <= U32_MAX
    {
      if !IsDigit(s[i]) {
        return None;
      }
      assert s[..i + 1][..i] == s[..i];
      assert s[..i + 1][i] == s[i];
      v := v * 10 + Digit(s[i]);
      if v > U32_MAX {
        if AllDigits(s) {
          DecimalPrefix(s, i + 1);
        }
        return None;
      }
    }
    assert s[..|s|] == s;
    return Some(v);
  }

  lemma U32OfNumeral(n: nat)
    requires n <= U32_MAX
    ensures U32Of(Numeral(n)) == Some(n)
  {
    DecimalOfNumeral(n);
  }

  // ----- 64-bit signed, as a standard-library parser reads it -----

  const INT64_MIN: int := -0x8000_0000_0000_0000
  const INT64_MAX: int := 0x7FFF_FFFF_FFFF_FFFF

  predicate FitsInt64(n: int) { INT64_MIN <= n <= INT64_MAX }

  predicate Signed(s: string) { s != [] && (s[0] == '-' || s[0] == '+') }

  function Magnitude(s: string): string {
    if Signed(s) then s[1..] else s
  }

  /** The exact value of an optionally signed digit string. */
  function Integral(s: string): Option<int> {
    var m := Magnitude(s);
    if m == [] || !AllDigits(m) then None
    else
      var v: int := Decimal(m);
      Some(if s[0] == '-' then -v else v)
  }

  /** The parser takes a leading minus but no plus, and refuses what overflows. */
  function Int64Of(s: string): (r: Option<int>)
    ensures r.Some? ==> FitsInt64(r.value) && Integral(s) == r
  {
    var v := Integral(s);
    if v.Some? && s[0] != '+' && FitsInt64(v.value) then v else None
  }

  // ----- Ordinals: `ORDER BY n` and `GROUP BY n` -----

  /** The output position an ordinal denotes among `n` columns. */
  function OrdinalOf(text: string, n: nat): Option<nat> {
    if text != [] && AllDigits(text) && 1 <= Decimal(text) <= n then Some(Decimal(text)) else None
  }

  /** The clamped loop. `refuseMinus` is the extra test two of its three copies make. The
      accumulator never leaves 64 bits, whatever the length of the text. */
  method ParseOrdinal(text: string, n: nat, refuseMinus: bool) returns (r: Option<nat>)
    requires 10 * (n + 1) + 9 < 0x1_0000_0000_0000_0000
    ensures r == OrdinalOf(text, n)
  {
    var ordinal: nat := 0;
    var valid := text != [] && !(refuseMinus && text[0] == '-');
    for i := 0 to |text|
      invariant AllDigits(text[..i]) && ordinal <= n + 1
      invariant ordinal == if Decimal(text[..i]) <= n then Decimal(text[..i]) else n + 1
      invariant valid == (text != [] && !(refuseMinus && text[0] == '-'))
    {
      if !IsDigit(text[i]) {
        return None;
      }
      assert text[..i + 1][..i] == text[..i];
      assert text[..i + 1][i] == text[i];
      assert ordinal * 10 + Digit(text[i]) < 0x1_0000_0000_0000_0000;
      ordinal := ordinal * 10 + Digit(text[i]);
      if ordinal > n {
        ordinal := n + 1;
      }
    }
    assert text[..|text|] == text;
    return if !valid || ordinal < 1 || ordinal > n then None else Some(ordinal);
  }
}
