/**
  Decimal numerals: the rendering of a non-negative int that Java string
  concatenation produces, and `Integer.parseInt` in radix 10.
 */
module Numerals {
  import opened Wrappers

  /** Bounds of a 32-bit Java `int`. */
  const IntMin: int := -0x8000_0000
  const IntMax: int := 0x7FFF_FFFF

  predicate IsDigit(c: char) {
    '0' <= c <= '9'
  }

  predicate AllDigits(s: string) {
    forall i :: 0 <= i < |s| ==> IsDigit(s[i])
  }

  function DigitChar(d: nat): (c: char)
    requires d < 10
    ensures IsDigit(c) && c as int - '0' as int == d
  {
    ('0' as int + d) as char
  }

  /** The value of a string of ASCII digits, most significant digit first. */
  function DigitsValue(s: string): nat
    requires AllDigits(s)
  {
    if |s| == 0 then 0
    else 10 * DigitsValue(s[..|s| - 1]) + (s[|s| - 1] as int - '0' as int)
  }

  /** A canonical numeral: at least one digit and no leading zero unless it is "0". */
  predicate Canonical(s: string) {
    |s| > 0 && AllDigits(s) && (s[0] == '0' ==> |s| == 1)
  }

  /** The decimal numeral of `n`, as `"" + n` renders a non-negative int. */
  function Decimal(n: nat): (s: string)
    ensures Canonical(s)
    ensures DigitsValue(s) == n
  {
    if n < 10 then [DigitChar(n)]
    else
      var s := Decimal(n / 10) + [DigitChar(n % 10)];
      assert s[..|s| - 1] == Decimal(n / 10);
      s
  }

  lemma {:induction false} LeadingDigitPositive(s: string)
    requires Canonical(s) && s[0] != '0'
    ensures DigitsValue(s) > 0
    decreases |s|
  {
    if |s| > 1 {
      var init := s[..|s| - 1];
      assert init[0] == s[0];
      LeadingDigitPositive(init);
    }
  }

  /** Every canonical numeral is the rendering of its own value: `Decimal` is onto the canonical numerals. */
  lemma {:induction false} DecimalOfDigitsValue(s: string)
    requires Canonical(s)
    ensures Decimal(DigitsValue(s)) == s
    decreases |s|
  {
    if |s| > 1 {
      var init := s[..|s| - 1];
      assert init[0] == s[0];
      LeadingDigitPositive(init);
      DecimalOfDigitsValue(init);
      var v := DigitsValue(s);
      assert v / 10 == DigitsValue(init) && v % 10 == s[|s| - 1] as int - '0' as int;
      assert s == init + [s[|s| - 1]];
    }
  }

  /** Two numbers render alike only if they are equal. */
  lemma DecimalInjective(m: nat, n: nat)
    requires Decimal(m) == Decimal(n)
    ensures m == n
  {
    assert DigitsValue(Decimal(m)) == m;
  }

  /** The int an optional sign and the digits after it stand for, when it lies within the 32-bit range. */
  function Signed(digits: string, negative: bool): Option<int> {
    if !AllDigits(digits) then None
    else
      var m: int := DigitsValue(digits);
      var v := if negative then -m else m;
      if IntMin <= v <= IntMax then Some(v) else None
  }

  /**
    What `Integer.parseInt(s)` in radix 10 accepts, stated directly: an optional
    '-' or '+' followed by at least one ASCII digit, whose value lies within the
    32-bit range.
   */
  ghost function NumeralValue(s: string): (r: Option<int>)
    ensures r.Some? ==> IntMin <= r.value <= IntMax
    ensures (exists k :: 0 < k < |s| && !IsDigit(s[k])) ==> r.None?
    ensures |s| > 0 && !IsDigit(s[0]) && s[0] != '-' && s[0] != '+' ==> r.None?
    ensures r.Some? && Canonical(s) ==> r.value >= 0 && s == Decimal(r.value)
  {
    if |s| == 0 then None
    else
      var digits := if s[0] == '-' || s[0] == '+' then s[1..] else s;
      if |digits| == 0 then None
      else
        DecimalOfDigitsValueWhenCanonical(s);
        Signed(digits, s[0] == '-')
  }

  /**
    `Integer.parseInt(s)` in radix 10: after an optional sign, the digits are
    read one by one from the left; `None` stands for the
    `NumberFormatException` thrown on an empty numeral, a character that is not
    a digit, or a value outside the 32-bit range.
   */
  function ParseInt(s: string): Option<int> {
    if |s| == 0 then None
    else if s[0] == '-' || s[0] == '+' then
      if |s| == 1 then None else ScanDigits(s, 1, 0, s[0] == '-')
    else ScanDigits(s, 0, 0, false)
  }

  /** Reads the digits from index `i` on into `acc`; at the end, applies the sign and checks the range. */
  function ScanDigits(s: string, i: nat, acc: nat, negative: bool): Option<int>
    requires i <= |s|
    decreases |s| - i
  {
    if i == |s| then
      var v: int := if negative then -(acc as int) else acc;
      if IntMin <= v <= IntMax then Some(v) else None
    else if IsDigit(s[i]) then ScanDigits(s, i + 1, 10 * acc + (s[i] as int - '0' as int), negative)
    else None
  }

  /** Scanning from `i`, having read the digits from `start` to `i`, gives the value of all digits from `start`. */
  lemma {:induction false} ScanAgrees(s: string, start: nat, i: nat, negative: bool)
    requires start <= i <= |s| && AllDigits(s[start..i])
    ensures ScanDigits(s, i, DigitsValue(s[start..i]), negative) == Signed(s[start..], negative)
    decreases |s| - i
  {
    if i == |s| {
      assert s[start..i] == s[start..];
    } else if IsDigit(s[i]) {
      var read := s[start..i + 1];
      assert read[..|read| - 1] == s[start..i];
      assert AllDigits(read);
      ScanAgrees(s, start, i + 1, negative);
    } else {
      assert s[start..][i - start] == s[i];
    }
  }

  /** The scan accepts exactly the numerals the direct statement accepts, with the same value. */
  lemma ParseIntIsNumeralValue(s: string)
    ensures ParseInt(s) == NumeralValue(s)
  {
    if |s| > 0 {
      var start := if s[0] == '-' || s[0] == '+' then 1 else 0;
      assert s[start..start] == [];
      if start < |s| || start == 0 {
        ScanAgrees(s, start, start, s[0] == '-');
      }
      assert s[0..] == s;
    }
  }

  /**
    What parsing promises: a result within the 32-bit range; rejection of a
    non-digit after the first character and of a first character that is
    neither a digit nor a sign; and, for a canonical numeral, the value whose
    rendering it is.
   */
  lemma ParseIntFacts(s: string)
    ensures ParseInt(s).Some? ==> IntMin <= ParseInt(s).value <= IntMax
    ensures (exists k :: 0 < k < |s| && !IsDigit(s[k])) ==> ParseInt(s).None?
    ensures |s| > 0 && !IsDigit(s[0]) && s[0] != '-' && s[0] != '+' ==> ParseInt(s).None?
    ensures ParseInt(s).Some? && Canonical(s) ==> ParseInt(s).value >= 0 && s == Decimal(ParseInt(s).value)
  {
    ParseIntIsNumeralValue(s);
  }

  lemma DecimalOfDigitsValueWhenCanonical(s: string)
    ensures Canonical(s) ==> Decimal(DigitsValue(s)) == s
  {
    if Canonical(s) {
      DecimalOfDigitsValue(s);
    }
  }

  /** Parsing the rendering of a number within range gives the number back, with and without a minus sign. */
  lemma ParseIntOfDecimal(n: nat)
    ensures n <= IntMax ==> ParseInt(Decimal(n)) == Some(n)
    ensures n <= -IntMin ==> ParseInt("-" + Decimal(n)) == Some(-(n as int))
  {
    var d := Decimal(n);
    assert ("-" + d)[1..] == d;
    ParseIntIsNumeralValue(d);
    ParseIntIsNumeralValue("-" + d);
  }
}
