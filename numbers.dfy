/** Identifier arithmetic: the 32-bit unsigned ids of the table, atoi as the
    loader uses it, and the "%u" rendering that find falls back on. */
module Numbers {
  import opened Wrappers

  const U32_MODULUS: int := 0x1_0000_0000
  /** The range of a 64-bit long, the type glibc's strtol computes in. */
  const LONG_MIN: int := -0x8000_0000_0000_0000
  const LONG_MAX: int := 0x7FFF_FFFF_FFFF_FFFF

  /** unsigned int */
  type u32 = x: int | 0 <= x < 0x1_0000_0000

  predicate IsDigit(c: char)
  {
    '0' <= c <= '9'
  }

  /** isspace in the C locale. */
  predicate IsSpace(c: char)
  {
    c == ' ' || c == '\t' || c == '\n' || c == '\U{B}' || c == '\U{C}' || c == '\r'
  }

  function DigitValue(c: char): (d: nat)
    requires IsDigit(c)
    ensures d < 10
  {
    c as int - '0' as int
  }

  function DigitChar(d: nat): (c: char)
    requires d < 10
    ensures IsDigit(c) && DigitValue(c) == d
  {
    ('0' as int + d) as char
  }

  predicate AllDigits(s: string)
  {
    forall i :: 0 <= i < |s| ==> IsDigit(s[i])
  }

  /** The value of a string of decimal digits, most significant first. */
  function DigitsValue(ds: string): (v: nat)
    requires AllDigits(ds)
    ensures v < Pow10(|ds|)
    decreases |ds|
  {
    if ds == [] then 0
    else DigitsValue(ds[..|ds| - 1]) * 10 + DigitValue(ds[|ds| - 1])
  }

  /** The end of the run of white space that starts at i. */
  function SpaceEnd(s: string, i: nat): (e: nat)
    requires i <= |s|
    ensures i <= e <= |s|
    ensures forall j :: i <= j < e ==> IsSpace(s[j])
    ensures e == |s| || !IsSpace(s[e])
    decreases |s| - i
  {
    if i == |s| || !IsSpace(s[i]) then i else SpaceEnd(s, i + 1)
  }

  /** The end of the run of digits that starts at i. */
  function DigitEnd(s: string, i: nat): (e: nat)
    requires i <= |s|
    ensures i <= e <= |s|
    ensures AllDigits(s[i..e])
    ensures e == |s| || !IsDigit(s[e])
    decreases |s| - i
  {
    if i == |s| || !IsDigit(s[i]) then i else DigitEnd(s, i + 1)
  }

  /** glibc's strtol(s, NULL, 10): optional white space, an optional sign and
      the longest run of decimal digits; a value outside the range of long
      saturates at LONG_MIN or LONG_MAX; no digits at all gives 0. */
  function Strtol(s: string): (v: int)
    ensures LONG_MIN <= v <= LONG_MAX
    ensures (forall i :: 0 <= i < |s| ==> !IsDigit(s[i])) ==> v == 0
  {
    var i := SpaceEnd(s, 0);
    var signed := i < |s| && (s[i] == '-' || s[i] == '+');
    var j := if signed then i + 1 else i;
    var e := DigitEnd(s, j);
    assert e > j ==> IsDigit(s[j]);
    var magnitude: int := DigitsValue(s[j..e]);
    Saturate(if signed && s[i] == '-' then -magnitude else magnitude)
  }

  /** A value outside the range of long, clamped to it as strtol does. */
  function Saturate(v: int): (r: int)
    ensures LONG_MIN <= r <= LONG_MAX
    ensures LONG_MIN <= v <= LONG_MAX ==> r == v
    ensures v < LONG_MIN ==> r == LONG_MIN
    ensures v > LONG_MAX ==> r == LONG_MAX
  {
    if v < LONG_MIN then LONG_MIN else if v > LONG_MAX then LONG_MAX else v
  }

  /** (unsigned int)atoi(s): glibc's atoi is (int)strtol(s, NULL, 10), and both
      casts keep the low 32 bits, so the id is the strtol value modulo 2^32. */
  function ParseId(s: string): (id: u32)
    ensures (forall i :: 0 <= i < |s| ==> !IsDigit(s[i])) ==> id == 0
  {
    Strtol(s) % U32_MODULUS
  }

  /** sprintf(text, "%u", n): the decimal digits of n, no leading zero. */
  function DecimalString(n: nat): (r: string)
    ensures r != [] && AllDigits(r)
    ensures DigitsValue(r) == n
    ensures |r| > 1 ==> r[0] != '0'
    decreases n
  {
    if n < 10 then [DigitChar(n)]
    else
      var r := DecimalString(n / 10) + [DigitChar(n % 10)];
      assert r[..|r| - 1] == DecimalString(n / 10);
      r
  }

  predicate AllSpace(s: string)
  {
    forall i :: 0 <= i < |s| ==> IsSpace(s[i])
  }

  /** The layout strtol finds in s: the white space s[..i], an optional
      sign at i, and the longest run of digits s[j..e] after it. */
  predicate NumberAt(s: string, i: nat, j: nat, e: nat)
  {
    i <= j <= e <= |s| &&
    AllSpace(s[..i]) && (i == |s| || !IsSpace(s[i])) &&
    j == (if i < |s| && (s[i] == '-' || s[i] == '+') then i + 1 else i) &&
    AllDigits(s[j..e]) && (e == |s| || !IsDigit(s[e]))
  }

  /** strtol of a number laid out as NumberAt says: the value of its digits,
      negated after '-', saturated at the range of long. What follows the
      digits is ignored, and no digits at all give 0. */
  lemma StrtolOfNumber(s: string, i: nat, j: nat, e: nat)
    requires NumberAt(s, i, j, e)
    ensures !(j > i && s[i] == '-') ==>
              Strtol(s) == if DigitsValue(s[j..e]) > LONG_MAX then LONG_MAX else DigitsValue(s[j..e])
    ensures j > i && s[i] == '-' ==>
              Strtol(s) == if DigitsValue(s[j..e]) > -LONG_MIN then LONG_MIN else -(DigitsValue(s[j..e]) as int)
    ensures e == j ==> Strtol(s) == 0
  {
    assert forall k :: 0 <= k < i ==> s[..i][k] == s[k];
    SpaceEndIs(s, 0, i);
    assert forall k :: j <= k < e ==> s[j..e][k - j] == s[k];
    DigitEndIs(s, j, e);
    if e == j {
      assert s[j..e] == [];
    }
  }

  /** (unsigned int)atoi of a number that fits 32 bits: its value, or after
      '-' the value wrapped around modulo 2^32 (so "-5" gives 4294967291). */
  lemma ParseIdOfNumber(s: string, i: nat, j: nat, e: nat)
    requires NumberAt(s, i, j, e) && DigitsValue(s[j..e]) < U32_MODULUS
    ensures !(j > i && s[i] == '-') ==> ParseId(s) == DigitsValue(s[j..e])
    ensures j > i && s[i] == '-' ==> ParseId(s) == (U32_MODULUS - DigitsValue(s[j..e])) % U32_MODULUS
  {
    var m: int := DigitsValue(s[j..e]);
    StrtolOfNumber(s, i, j, e);
    if j > i && s[i] == '-' {
      assert Strtol(s) == -m;
      WrapNegative(m);
    } else {
      assert Strtol(s) == m;
    }
  }

  /** Keeping the low 32 bits of -m. */
  lemma WrapNegative(m: int)
    requires 0 <= m < U32_MODULUS
    ensures (-m) % U32_MODULUS == (U32_MODULUS - m) % U32_MODULUS
  {
    if m > 0 {
      assert -m == (U32_MODULUS - m) - U32_MODULUS;
    }
  }

  lemma SpaceEndIs(s: string, i: nat, e: nat)
    requires i <= e <= |s|
    requires forall j :: i <= j < e ==> IsSpace(s[j])
    requires e == |s| || !IsSpace(s[e])
    ensures SpaceEnd(s, i) == e
  {
  }

  lemma DigitEndIs(s: string, i: nat, e: nat)
    requires i <= e <= |s|
    requires forall j :: i <= j < e ==> IsDigit(s[j])
    requires e == |s| || !IsDigit(s[e])
    ensures DigitEnd(s, i) == e
  {
    var t := DigitEnd(s, i);
    assert forall j :: i <= j < t ==> s[i..t][j - i] == s[j];
  }

  /** strtol of a plain run of digits is their value, when it fits a long. */
  lemma StrtolOfDigits(s: string)
    requires s != [] && AllDigits(s) && DigitsValue(s) <= LONG_MAX
    ensures Strtol(s) == DigitsValue(s)
  {
    assert !IsSpace(s[0]) && s[0] != '-' && s[0] != '+';
    assert SpaceEnd(s, 0) == 0;
    assert DigitEnd(s, 0) == |s|;
    assert s[0..|s|] == s;
  }

  /** Reading the fallback text of find back as an id gives the id again. */
  lemma ParseIdOfDecimal(n: u32)
    ensures ParseId(DecimalString(n)) == n
  {
    StrtolOfDigits(DecimalString(n));
  }

  /** The size of the text buffer find formats a missing id into. */
  const FIND_TEXT_SIZE: nat := 10

  /** sprintf(text, "%u", n) into a buffer of `size` bytes: the text when it
      fits with its terminating NUL, None when sprintf writes past the end. */
  function FormatInto(size: nat, n: nat): (r: Option<string>)
    ensures r.Some? <==> |DecimalString(n)| < size
    ensures r.Some? ==> |r.value| < size && AllDigits(r.value) && DigitsValue(r.value) == n
    ensures r.Some? ==> r.value != [] && (|r.value| > 1 ==> r.value[0] != '0')
  {
    var text := DecimalString(n);
    if |text| < size then Some(text) else None
  }

  /** A number below 10^k has at most k digits. */
  lemma {:induction false} DecimalLength(n: nat, k: nat)
    requires 0 < k && n < Pow10(k)
    ensures |DecimalString(n)| <= k
    decreases k
  {
    if n >= 10 {
      assert n / 10 < Pow10(k - 1);
      DecimalLength(n / 10, k - 1);
    }
  }

  /** A number of at least 10^k has more than k digits. */
  lemma {:induction false} DecimalLengthAtLeast(n: nat, k: nat)
    requires Pow10(k) <= n
    ensures |DecimalString(n)| > k
    decreases k
  {
    if k > 0 {
      assert n >= 10;
      assert Pow10(k - 1) <= n / 10;
      DecimalLengthAtLeast(n / 10, k - 1);
    }
  }

  function Pow10(k: nat): (p: nat)
    ensures p > 0
  {
    if k == 0 then 1 else 10 * Pow10(k - 1)
  }

  /** As written, find's ten-byte buffer overflows for a missing id of ten
      digits: "1000000000" and its NUL need eleven bytes. */
  lemma FindTextOverflows()
    ensures FormatInto(FIND_TEXT_SIZE, 999999999).Some?
    ensures FormatInto(FIND_TEXT_SIZE, 1000000000).None?
  {
    assert Pow10(9) == 1000000000;
    DecimalLength(999999999, 9);
    DecimalLengthAtLeast(1000000000, 9);
  }

  /** Eleven bytes hold the decimal text of every unsigned 32-bit id. */
  lemma FindTextFits(n: u32)
    ensures FormatInto(FIND_TEXT_SIZE + 1, n).Some?
  {
    assert Pow10(10) == 10000000000;
    DecimalLength(n, 10);
  }
}
