/**
 * The conversion boundary of csv_stream.h: `str_to_value` for `char`, `NChar`,
 * `short`, `unsigned short` and `unsigned char`, and the decimal text that
 * `std::to_string` produces for integers.
 *
 * `std::stoi` / `std::stoul` are modelled by `Stoi` / `Stoul` over a decimal
 * parser that accepts an optional sign followed by at least one digit, the
 * whole token.  `unsigned long` is 64 bits wide (LP64).
 */
module Conversion {
  import opened Wrappers

  const IntMin: int := -0x8000_0000
  const IntMax: int := 0x7FFF_FFFF
  const ShortMin: int := -0x8000
  const ShortMax: int := 0x7FFF
  const UShortMax: int := 0xFFFF
  const UCharMax: int := 0xFF
  const SCharMin: int := -0x80
  const SCharMax: int := 0x7F
  const ULongMax: int := 0xFFFF_FFFF_FFFF_FFFF
  /** Assigning an `unsigned long` to an `unsigned int` keeps it modulo 2^32. */
  const UIntModulus: int := 0x1_0000_0000

  /**
   * The outcome of a `str_to_value` call: whether it succeeded, and the value
   * of the destination afterwards (unchanged when it did not).
   */
  datatype Converted<T> = Converted(ok: bool, dest: T)

  predicate IsDigit(c: char) { '0' <= c <= '9' }

  predicate AllDigits(s: string) { forall i :: 0 <= i < |s| ==> IsDigit(s[i]) }

  /** The value of a string of decimal digits, most significant first. */
  function DigitsValue(s: string): nat
    requires AllDigits(s)
  {
    if s == [] then 0
    else DigitsValue(s[..|s| - 1]) * 10 + ((s[|s| - 1] as int) - ('0' as int))
  }

  /** A parsed integer literal: its sign and its magnitude. */
  datatype Decimal = Decimal(negative: bool, magnitude: nat)

  /** Optional '+' or '-' followed by one or more digits, and nothing else. */
  function ParseDecimal(s: string): (r: Option<Decimal>)
    ensures r.Some? ==> |s| > 0
    ensures r.Some? && r.value.negative ==> s[0] == '-'
  {
    var signed := |s| > 0 && (s[0] == '-' || s[0] == '+');
    var digits := if signed then s[1..] else s;
    if |digits| > 0 && AllDigits(digits) then
      Some(Decimal(signed && s[0] == '-', DigitsValue(digits)))
    else None
  }

  /** `std::stoi`: an `int`, or failure on invalid text or out-of-range values. */
  function Stoi(s: string): (r: Option<int>)
    ensures r.Some? ==> IntMin <= r.value <= IntMax
  {
    match ParseDecimal(s)
    case None => None
    case Some(d) =>
      var v := if d.negative then -(d.magnitude as int) else d.magnitude as int;
      if IntMin <= v <= IntMax then Some(v) else None
  }

  /**
   * `std::stoul` with a 64-bit `unsigned long`: the magnitude must fit, and a
   * leading '-' negates it in unsigned arithmetic.
   */
  function Stoul(s: string): (r: Option<int>)
    ensures r.Some? ==> 0 <= r.value <= ULongMax
  {
    match ParseDecimal(s)
    case None => None
    case Some(d) =>
      if d.magnitude > ULongMax then None
      else if d.negative then Some((ULongMax + 1 - d.magnitude) % (ULongMax + 1))
      else Some(d.magnitude)
  }

  /** The digits of a natural number, as `std::to_string` writes them. */
  function NatDigits(n: nat): (s: string)
    ensures |s| > 0 && AllDigits(s) && DigitsValue(s) == n
    ensures s[0] != '-'
  {
    var last := [(('0' as int) + n % 10) as char];
    if n < 10 then last
    else
      var prefix := NatDigits(n / 10);
      assert (prefix + last)[..|prefix + last| - 1] == prefix;
      prefix + last
  }

  /** `std::to_string` of an integer: a '-' for negative values, then the digits. */
  function DecimalString(n: int): string
  {
    if n < 0 then "-" + NatDigits(-n) else NatDigits(n)
  }

  /** Parsing the decimal text of an integer gives back its sign and magnitude. */
  lemma ParseDecimalString(n: int)
    ensures ParseDecimal(DecimalString(n)) == Some(Decimal(n < 0, if n < 0 then -n else n))
  {
    if n < 0 {
      var s := DecimalString(n);
      assert s[1..] == NatDigits(-n);
    }
  }

  /** `std::stoi` reads back what `std::to_string` wrote, for every `int`. */
  lemma StoiDecimalString(n: int)
    ensures Stoi(DecimalString(n)) == if IntMin <= n <= IntMax then Some(n) else None
  {
    ParseDecimalString(n);
  }

  /** `std::stoul` reads back the decimal text of every `unsigned long`. */
  lemma StoulDecimalString(n: nat)
    ensures Stoul(DecimalString(n)) == if n <= ULongMax then Some(n) else None
  {
    ParseDecimalString(n);
  }

  /** `str_to_value(src, char&)`: the first character; fails only on an empty token. */
  function StrToChar(src: string, dest: char): (r: Converted<char>)
    ensures r.ok <==> |src| > 0
    ensures r.ok ==> r.dest == src[0]
    ensures !r.ok ==> r.dest == dest
  {
    if |src| > 0 then Converted(true, src[0]) else Converted(false, dest)
  }

  /** `str_to_value(src, NChar&)`: a decimal code in [-128, 127]. */
  function StrToNChar(src: string, dest: int): (r: Converted<int>)
    ensures r.ok <==> Stoi(src).Some? && SCharMin <= Stoi(src).value <= SCharMax
    ensures r.ok ==> r.dest == Stoi(src).value
    ensures !r.ok ==> r.dest == dest
  {
    match Stoi(src)
    case None => Converted(false, dest)
    case Some(n) =>
      if n > SCharMax then Converted(false, dest)
      else if n < SCharMin then Converted(false, dest)
      else Converted(true, n)
  }

  /** `str_to_value(src, short&)`: `std::stoi` and then the `short` range check. */
  function StrToShort(src: string, dest: int): (r: Converted<int>)
    ensures r.ok <==> Stoi(src).Some? && ShortMin <= Stoi(src).value <= ShortMax
    ensures r.ok ==> r.dest == Stoi(src).value
    ensures !r.ok ==> r.dest == dest
  {
    match Stoi(src)
    case None => Converted(false, dest)
    case Some(n) =>
      if n > ShortMax then Converted(false, dest)
      else if n < ShortMin then Converted(false, dest)
      else Converted(true, n)
  }

  /**
   * `str_to_value(src, unsigned short&)` as written: the `unsigned long` from
   * `std::stoul` is first stored in an `unsigned int`, which keeps it modulo
   * 2^32, and only then compared with 65535.
   */
  function StrToUShortAsWritten(src: string, dest: int): (r: Converted<int>)
    ensures r.ok <==> Stoul(src).Some? && Stoul(src).value % UIntModulus <= UShortMax
    ensures r.ok ==> r.dest == Stoul(src).value % UIntModulus
    ensures !r.ok ==> r.dest == dest
  {
    match Stoul(src)
    case None => Converted(false, dest)
    case Some(wide) =>
      var n := wide % UIntModulus;
      if n > UShortMax then Converted(false, dest) else Converted(true, n)
  }

  /** `str_to_value(src, unsigned char&)` as written: the same truncation, then the check against 255. */
  function StrToUCharAsWritten(src: string, dest: int): (r: Converted<int>)
    ensures r.ok <==> Stoul(src).Some? && Stoul(src).value % UIntModulus <= UCharMax
    ensures r.ok ==> r.dest == Stoul(src).value % UIntModulus
    ensures !r.ok ==> r.dest == dest
  {
    match Stoul(src)
    case None => Converted(false, dest)
    case Some(wide) =>
      var n := wide % UIntModulus;
      if n > UCharMax then Converted(false, dest) else Converted(true, n)
  }

  /** `str_to_value(src, unsigned short&)` as intended: every value above 65535 fails. */
  function StrToUShort(src: string, dest: int): (r: Converted<int>)
    ensures r.ok <==> Stoul(src).Some? && Stoul(src).value <= UShortMax
    ensures r.ok ==> r.dest == Stoul(src).value
    ensures !r.ok ==> r.dest == dest
  {
    match Stoul(src)
    case None => Converted(false, dest)
    case Some(n) => if n > UShortMax then Converted(false, dest) else Converted(true, n)
  }

  /** `str_to_value(src, unsigned char&)` as intended: every value above 255 fails. */
  function StrToUChar(src: string, dest: int): (r: Converted<int>)
    ensures r.ok <==> Stoul(src).Some? && Stoul(src).value <= UCharMax
    ensures r.ok ==> r.dest == Stoul(src).value
    ensures !r.ok ==> r.dest == dest
  {
    match Stoul(src)
    case None => Converted(false, dest)
    case Some(n) => if n > UCharMax then Converted(false, dest) else Converted(true, n)
  }

  /**
   * An `NChar` written as the decimal form of its code reads back as the same
   * code; any other integer's decimal text is refused and leaves `dest` alone.
   */
  lemma NCharRoundTrip(code: int, dest: int)
    ensures StrToNChar(DecimalString(code), dest) ==
      if SCharMin <= code <= SCharMax then Converted(true, code) else Converted(false, dest)
  {
    StoiDecimalString(code);
  }

  /** A `short` round-trips through its decimal text; values outside the range are refused. */
  lemma ShortRoundTrip(n: int, dest: int)
    ensures StrToShort(DecimalString(n), dest) ==
      if ShortMin <= n <= ShortMax then Converted(true, n) else Converted(false, dest)
  {
    StoiDecimalString(n);
  }

  /** An `unsigned short` round-trips; every larger natural number is refused. */
  lemma UShortRoundTrip(n: nat, dest: int)
    ensures StrToUShort(DecimalString(n), dest) ==
      if n <= UShortMax then Converted(true, n) else Converted(false, dest)
  {
    StoulDecimalString(n);
  }

  /** An `unsigned char` round-trips; every larger natural number is refused. */
  lemma UCharRoundTrip(n: nat, dest: int)
    ensures StrToUChar(DecimalString(n), dest) ==
      if n <= UCharMax then Converted(true, n) else Converted(false, dest)
  {
    StoulDecimalString(n);
  }

  /** The first five digits of 2^32. */
  lemma LeadingDigitsOfTwoToThe32()
    ensures AllDigits("42949") && DigitsValue("42949") == 42949
  {
    assert DigitsValue("4") == 4;
    assert "42"[..1] == "4";
    assert DigitsValue("42") == 42;
    assert "429"[..2] == "42";
    assert DigitsValue("429") == 429;
    assert "4294"[..3] == "429";
    assert DigitsValue("4294") == 4294;
    assert "42949"[..4] == "4294";
  }

  /** The ten digits of 2^32 denote 2^32. */
  lemma TwoToThe32Digits()
    ensures AllDigits("4294967296") && DigitsValue("4294967296") == UIntModulus
  {
    LeadingDigitsOfTwoToThe32();
    assert "429496"[..5] == "42949";
    assert DigitsValue("429496") == 429496;
    assert "4294967"[..6] == "429496";
    assert DigitsValue("4294967") == 4294967;
    assert "42949672"[..7] == "4294967";
    assert DigitsValue("42949672") == 42949672;
    assert "429496729"[..8] == "42949672";
    assert DigitsValue("429496729") == 429496729;
    assert "4294967296"[..9] == "429496729";
  }

  /**
   * The as-written `unsigned char` and `unsigned short` conversions accept
   * "4294967296" (2^32) as 0; the intended ones refuse it.
   */
  lemma UnsignedAcceptsTwoToThe32(dest: int)
    ensures StrToUCharAsWritten("4294967296", dest) == Converted(true, 0)
    ensures StrToUShortAsWritten("4294967296", dest) == Converted(true, 0)
    ensures StrToUChar("4294967296", dest) == Converted(false, dest)
    ensures StrToUShort("4294967296", dest) == Converted(false, dest)
  {
    TwoToThe32Digits();
    assert ParseDecimal("4294967296") == Some(Decimal(false, UIntModulus));
  }
}
