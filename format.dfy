/**
 * The value coercions of include/littlesmith/text/Format.h: the `strto<T>`
 * specialisations for the integral types and bool, and the pair grammar
 * `<open><int><sep><int><close>` of `parsePair`/`formatPair`.
 *
 * The integral conversions go through the C++ library: `std::stoi`,
 * `std::stol`, `std::stoll`, `std::stoul` and `std::stoull`, which call
 * strtol/strtoul with base 10. They are modelled here on one scanner,
 * `ScanDecimal`. `int` is 32 bits, `long` and `long long` are 64 bits. The
 * out-parameter `idx` becomes the second component of the result.
 */
module Format {
  import opened Outcomes
  import Text

  const INT16_MIN: int := -0x8000
  const INT16_MAX: int := 0x7fff
  const UINT16_MAX: int := 0xffff
  const INT32_MIN: int := -0x8000_0000
  const INT32_MAX: int := 0x7fff_ffff
  const UINT32_MAX: int := 0xffff_ffff
  const INT64_MIN: int := -0x8000_0000_0000_0000
  const INT64_MAX: int := 0x7fff_ffff_ffff_ffff
  const UINT64_MAX: int := 0xffff_ffff_ffff_ffff

  // ---------------------------------------------------------------------
  // The decimal scanner of strtol/strtoul
  // ---------------------------------------------------------------------

  /** isspace in the "C" locale. */
  predicate IsSpace(c: char) {
    c == ' ' || c == '\t' || c == '\n' || c == '\U{000B}' || c == '\U{000C}' || c == '\r'
  }

  predicate IsDigit(c: char) { '0' <= c <= '9' }

  predicate AllDigits(s: string) {
    forall k :: 0 <= k < |s| ==> IsDigit(s[k])
  }

  predicate AllSpaces(s: string) {
    forall k :: 0 <= k < |s| ==> IsSpace(s[k])
  }

  /** The end of the white space that starts at `i`. */
  function SpaceEnd(s: string, i: nat): (r: nat)
    requires i <= |s|
    decreases |s| - i
    ensures i <= r <= |s|
    ensures forall k :: i <= k < r ==> IsSpace(s[k])
    ensures r == |s| || !IsSpace(s[r])
  {
    if i < |s| && IsSpace(s[i]) then SpaceEnd(s, i + 1) else i
  }

  /** The end of the run of decimal digits that starts at `i`. */
  function DigitEnd(s: string, i: nat): (r: nat)
    requires i <= |s|
    decreases |s| - i
    ensures i <= r <= |s|
    ensures forall k :: i <= k < r ==> IsDigit(s[k])
    ensures r == |s| || !IsDigit(s[r])
  {
    if i < |s| && IsDigit(s[i]) then DigitEnd(s, i + 1) else i
  }

  /** A run of white space is maximal at exactly one place. */
  lemma SpaceEndAt(s: string, i: nat, k: nat)
    requires i <= k <= |s|
    requires forall m :: i <= m < k ==> IsSpace(s[m])
    requires k == |s| || !IsSpace(s[k])
    ensures SpaceEnd(s, i) == k
  {
  }

  /** A run of digits is maximal at exactly one place. */
  lemma DigitEndAt(s: string, i: nat, k: nat)
    requires i <= k <= |s|
    requires forall m :: i <= m < k ==> IsDigit(s[m])
    requires k == |s| || !IsDigit(s[k])
    ensures DigitEnd(s, i) == k
  {
  }

  /** The number a string of decimal digits spells, most significant digit first. */
  function DigitsValue(ds: string): nat
    requires AllDigits(ds)
    decreases |ds|
  {
    if ds == [] then 0 else DigitsValue(ds[..|ds| - 1]) * 10 + (ds[|ds| - 1] as int - '0' as int)
  }

  /**
   * What strtol/strtoul consume: white space, an optional sign, then the
   * longest run of decimal digits. `end` is the count of characters
   * consumed; there is no conversion when there are no digits.
   */
  datatype Scan = Scan(negative: bool, magnitude: nat, end: nat)

  function ScanDecimal(s: string): (r: Option<Scan>)
    ensures r.Some? ==> r.value.end <= |s|
  {
    var i := SpaceEnd(s, 0);
    var j := SignEnd(s, i);
    var k := DigitEnd(s, j);
    if k == j then None
    else Some(Scan(j > i && s[i] == '-', DigitsValue(s[j..k]), k))
  }

  /** Just after the optional '+' or '-' at `i`. */
  function SignEnd(s: string, i: nat): nat
    requires i <= |s|
  {
    if i < |s| && (s[i] == '-' || s[i] == '+') then i + 1 else i
  }

  /**
   * The scan of a text that is white space up to i, has its optional sign
   * between i and j and its digits between j and k.
   */
  lemma ScanDecimalAt(s: string, i: nat, j: nat, k: nat)
    requires i <= j <= k <= |s|
    requires forall m :: 0 <= m < i ==> IsSpace(s[m])
    requires i == |s| || !IsSpace(s[i])
    requires j == SignEnd(s, i)
    requires forall m :: j <= m < k ==> IsDigit(s[m])
    requires k == |s| || !IsDigit(s[k])
    ensures ScanDecimal(s) == if k == j then None else Some(Scan(j > i && s[i] == '-', DigitsValue(s[j..k]), k))
  {
    SpaceEndAt(s, 0, i);
    DigitEndAt(s, j, k);
  }

  function SignedValue(sc: Scan): int {
    var m: int := sc.magnitude;
    if sc.negative then -m else m
  }

  /** A text without any digit has no conversion. */
  lemma NoDigitsNoScan(s: string)
    requires forall k :: 0 <= k < |s| ==> !IsDigit(s[k])
    ensures ScanDecimal(s).None?
  {
  }

  /** Text after the digits that the scan stopped at does not matter. */
  lemma ScanDecimalExtend(t: string, e: string)
    requires ScanDecimal(t).Some? && ScanDecimal(t).value.end < |t|
    ensures ScanDecimal(t + e) == ScanDecimal(t)
  {
    var s := t + e;
    var i := SpaceEnd(t, 0);
    var j := SignEnd(t, i);
    var k := DigitEnd(t, j);
    ScanDecimalAt(t, i, j, k);
    assert s[j..k] == t[j..k];
    ScanDecimalAt(s, i, j, k);
  }

  // ---------------------------------------------------------------------
  // The conversions of the C++ library
  // ---------------------------------------------------------------------

  /**
   * stoi, stol, stoll: invalid_argument without a conversion, out_of_range
   * when the value is outside [lo, hi]. (stoi checks the range of long and
   * then that of int, with the same exception, so one range suffices.)
   */
  function SignedConversion(s: string, lo: int, hi: int, what: string): (r: Result<(int, nat)>)
    ensures r.Ok? ==> lo <= r.value.0 <= hi && r.value.1 <= |s|
  {
    match ScanDecimal(s)
    case None => Err(InvalidArgument(what))
    case Some(sc) =>
      var v := SignedValue(sc);
      if v < lo || v > hi then Err(OutOfRange(what)) else Ok((v, sc.end))
  }

  /**
   * stoul, stoull: invalid_argument without a conversion, out_of_range when
   * the magnitude exceeds 2^64 - 1; a minus sign negates modulo 2^64.
   */
  function UnsignedConversion(s: string, what: string): (r: Result<(int, nat)>)
    ensures r.Ok? ==> 0 <= r.value.0 <= UINT64_MAX && r.value.1 <= |s|
  {
    match ScanDecimal(s)
    case None => Err(InvalidArgument(what))
    case Some(sc) =>
      if sc.magnitude > UINT64_MAX then Err(OutOfRange(what))
      else Ok((if sc.negative then (UINT64_MAX + 1 - sc.magnitude) % (UINT64_MAX + 1) else sc.magnitude, sc.end))
  }

  function Stoi(s: string): Result<(int, nat)> { SignedConversion(s, INT32_MIN, INT32_MAX, "stoi") }
  function Stol(s: string): Result<(int, nat)> { SignedConversion(s, INT64_MIN, INT64_MAX, "stol") }
  function Stoll(s: string): Result<(int, nat)> { SignedConversion(s, INT64_MIN, INT64_MAX, "stoll") }
  function Stoul(s: string): Result<(int, nat)> { UnsignedConversion(s, "stoul") }
  function Stoull(s: string): Result<(int, nat)> { UnsignedConversion(s, "stoull") }

  /** A caught exception rethrown as the same class with a new message. */
  function Rethrow(e: Error, what: string): (r: Error)
    ensures r.InvalidArgument? == e.InvalidArgument? && r.what == what
  {
    match e
    case InvalidArgument(_) => InvalidArgument(what)
    case OutOfRange(_) => OutOfRange(what)
  }

  function RethrowAs<T>(r: Result<T>, what: string): Result<T> {
    match r
    case Ok(v) => Ok(v)
    case Err(e) => Err(Rethrow(e, what))
  }

  // ---------------------------------------------------------------------
  // strto<T>
  // ---------------------------------------------------------------------

  /** A signed conversion accepts exactly the scans whose value lies in [lo, hi]. */
  predicate SignedAccepts(s: string, lo: int, hi: int) {
    ScanDecimal(s).Some? && lo <= SignedValue(ScanDecimal(s).value) <= hi
  }

  function StrToShort(s: string): (r: Result<(int, nat)>)
    ensures r.Ok? <==> SignedAccepts(s, INT16_MIN, INT16_MAX)
    ensures r.Ok? ==> r.value == (SignedValue(ScanDecimal(s).value), ScanDecimal(s).value.end)
    ensures r.Err? ==> r.error.what == "strto<short>"
                       && (r.error.InvalidArgument? <==> ScanDecimal(s).None?)
  {
    match Stoi(s)
    case Err(e) => Err(Rethrow(e, "strto<short>"))
    case Ok((n, idx)) =>
      if n < INT16_MIN || n > INT16_MAX then Err(OutOfRange("strto<short>")) else Ok((n, idx))
  }

  function StrToInt(s: string): (r: Result<(int, nat)>)
    ensures r.Ok? <==> SignedAccepts(s, INT32_MIN, INT32_MAX)
    ensures r.Ok? ==> r.value == (SignedValue(ScanDecimal(s).value), ScanDecimal(s).value.end)
    ensures r.Ok? ==> r.value.1 <= |s|
    ensures r.Err? ==> r.error.what == "strto<int>"
                       && (r.error.InvalidArgument? <==> ScanDecimal(s).None?)
  {
    RethrowAs(Stoi(s), "strto<int>")
  }

  function StrToLong(s: string): (r: Result<(int, nat)>)
    ensures r.Ok? <==> SignedAccepts(s, INT64_MIN, INT64_MAX)
    ensures r.Ok? ==> r.value == (SignedValue(ScanDecimal(s).value), ScanDecimal(s).value.end)
    ensures r.Err? ==> r.error.what == "strto<long>"
                       && (r.error.InvalidArgument? <==> ScanDecimal(s).None?)
  {
    RethrowAs(Stol(s), "strto<long>")
  }

  function StrToLongLong(s: string): (r: Result<(int, nat)>)
    ensures r.Ok? <==> SignedAccepts(s, INT64_MIN, INT64_MAX)
    ensures r.Ok? ==> r.value == (SignedValue(ScanDecimal(s).value), ScanDecimal(s).value.end)
    ensures r.Err? ==> r.error.what == "strto<long long>"
                       && (r.error.InvalidArgument? <==> ScanDecimal(s).None?)
  {
    RethrowAs(Stoll(s), "strto<long long>")
  }

  /** The value stoul returns for a scan it accepts. */
  function UnsignedValue(sc: Scan): int
    requires sc.magnitude <= UINT64_MAX
  {
    if sc.negative then (UINT64_MAX + 1 - sc.magnitude) % (UINT64_MAX + 1) else sc.magnitude
  }

  predicate UnsignedAccepts(s: string) {
    ScanDecimal(s).Some? && ScanDecimal(s).value.magnitude <= UINT64_MAX
  }

  function StrToULong(s: string): (r: Result<(int, nat)>)
    ensures r.Ok? <==> UnsignedAccepts(s)
    ensures r.Ok? ==> r.value == (UnsignedValue(ScanDecimal(s).value), ScanDecimal(s).value.end)
    ensures r.Err? ==> r.error.what == "strto<unsigned long>"
                       && (r.error.InvalidArgument? <==> ScanDecimal(s).None?)
  {
    RethrowAs(Stoul(s), "strto<unsigned long>")
  }

  function StrToULongLong(s: string): (r: Result<(int, nat)>)
    ensures r.Ok? <==> UnsignedAccepts(s)
    ensures r.Ok? ==> r.value == (UnsignedValue(ScanDecimal(s).value), ScanDecimal(s).value.end)
    ensures r.Err? ==> r.error.what == "strto<unsigned long long>"
                       && (r.error.InvalidArgument? <==> ScanDecimal(s).None?)
  {
    RethrowAs(Stoull(s), "strto<unsigned long long>")
  }

  /**
   * strto<unsigned int> stores the stoul result in an unsigned int, which
   * keeps it modulo 2^32; the test against UINT32_MAX that follows can
   * never fire, so every failure carries the message of the catch blocks,
   * spelt "strto<unsigned ini>" in the source.
   */
  function StrToUInt(s: string): (r: Result<(int, nat)>)
    ensures r.Ok? <==> UnsignedAccepts(s)
    ensures r.Ok? ==> r.value == (UnsignedValue(ScanDecimal(s).value) % (UINT32_MAX + 1), ScanDecimal(s).value.end)
    ensures r.Ok? ==> 0 <= r.value.0 <= UINT32_MAX && r.value.1 <= |s|
    ensures r.Err? ==> r.error.what == "strto<unsigned ini>"
                       && (r.error.InvalidArgument? <==> ScanDecimal(s).None?)
  {
    match Stoul(s)
    case Err(e) => Err(Rethrow(e, "strto<unsigned ini>"))
    case Ok((n, idx)) =>
      var m := n % (UINT32_MAX + 1);
      if m > UINT32_MAX then Err(OutOfRange("strto<unsigned int>")) else Ok((m, idx))
  }

  /**
   * strto<unsigned short> goes through strto<unsigned int>, so the range
   * test sees the value modulo 2^32.
   */
  function StrToUShort(s: string): (r: Result<(int, nat)>)
    ensures r.Ok? <==> UnsignedAccepts(s) && UnsignedValue(ScanDecimal(s).value) % (UINT32_MAX + 1) <= UINT16_MAX
    ensures r.Ok? ==> r.value == (UnsignedValue(ScanDecimal(s).value) % (UINT32_MAX + 1), ScanDecimal(s).value.end)
    ensures r.Ok? ==> 0 <= r.value.0 <= UINT16_MAX && r.value.1 <= |s|
    ensures r.Err? ==> r.error.what == "strto<unsigned short>"
                       && (r.error.InvalidArgument? <==> ScanDecimal(s).None?)
  {
    match StrToUInt(s)
    case Err(e) => Err(Rethrow(e, "strto<unsigned short>"))
    case Ok((n, idx)) =>
      if n > UINT16_MAX then Err(OutOfRange("strto<unsigned short>")) else Ok((n, idx))
  }

  /** strto<bool>: the words yes/on/true and no/off/false, in any case; `idx` is the length. */
  function StrToBool(s: string): (r: Result<(bool, nat)>)
    ensures r.Ok? <==> Text.ToLower(s) in {"yes", "on", "true", "no", "off", "false"}
    ensures r.Ok? ==> (r.value.0 <==> Text.ToLower(s) in {"yes", "on", "true"})
    ensures r.Ok? ==> r.value.1 == |s|
    ensures r.Err? ==> r.error == InvalidArgument("strto<bool>")
  {
    var t := Text.ToLower(s);
    if t == "yes" || t == "on" || t == "true" then Ok((true, |t|))
    else if t == "no" || t == "off" || t == "false" then Ok((false, |t|))
    else Err(InvalidArgument("strto<bool>"))
  }

  /** strto<bool> depends only on the text with capitals made small. */
  lemma StrToBoolCaseInsensitive(s: string, t: string)
    requires Text.ToLower(s) == Text.ToLower(t)
    ensures StrToBool(s) == StrToBool(t)
  {
    assert |s| == |Text.ToLower(s)| == |t|;
  }

  /** In particular capitals may be used anywhere. */
  lemma StrToBoolUpper(s: string)
    ensures StrToBool(Text.ToUpper(s)) == StrToBool(s)
  {
    Text.CaseFolding(s);
    StrToBoolCaseInsensitive(Text.ToUpper(s), s);
  }

  // ---------------------------------------------------------------------
  // Decimal output (operator<< of an integer)
  // ---------------------------------------------------------------------

  function DigitChar(d: nat): char
    requires d < 10
  {
    ('0' as int + d) as char
  }

  function Digits(n: nat): string
    decreases n
  {
    if n < 10 then [DigitChar(n)] else Digits(n / 10) + [DigitChar(n % 10)]
  }

  /** The digits of n are a non-empty string of decimal digits that spells n. */
  lemma {:induction false} DigitsSpell(n: nat)
    ensures Digits(n) != [] && AllDigits(Digits(n)) && DigitsValue(Digits(n)) == n
    decreases n
  {
    if n >= 10 {
      DigitsSpell(n / 10);
      var ds := Digits(n);
      assert ds[..|ds| - 1] == Digits(n / 10);
    }
  }

  /** An integer written to a std::ostream: decimal digits, '-' first when negative. */
  function Decimal(x: int): string {
    if x < 0 then "-" + Digits(-x) else Digits(x)
  }

  /** Scanning a written integer gives its sign, its magnitude and its length back. */
  lemma ScanDecimalOf(x: int, rest: string)
    requires rest == [] || !IsDigit(rest[0])
    ensures ScanDecimal(Decimal(x) + rest)
            == Some(Scan(x < 0, if x < 0 then -x else x, |Decimal(x)|))
  {
    var m: nat := if x < 0 then -x else x;
    DigitsSpell(m);
    var sign := if x < 0 then "-" else "";
    assert Decimal(x) == sign + Digits(m);
    ScanWritten(sign, Digits(m), rest);
  }

  /** The scan of an optional minus sign, digits, and a text not starting with a digit. */
  lemma ScanWritten(sign: string, ds: string, rest: string)
    requires sign == "" || sign == "-"
    requires ds != [] && AllDigits(ds)
    requires rest == [] || !IsDigit(rest[0])
    ensures ScanDecimal(sign + ds + rest) == Some(Scan(sign == "-", DigitsValue(ds), |sign| + |ds|))
  {
    var s := sign + ds + rest;
    WrittenLayout(sign, ds, rest);
    ScanDecimalAt(s, 0, |sign|, |sign| + |ds|);
  }

  /** Where the sign, the digits and the rest sit in a written number. */
  lemma WrittenLayout(sign: string, ds: string, rest: string)
    requires sign == "" || sign == "-"
    requires ds != [] && AllDigits(ds)
    requires rest == [] || !IsDigit(rest[0])
    ensures !IsSpace((sign + ds + rest)[0])
    ensures SignEnd(sign + ds + rest, 0) == |sign|
    ensures (sign + ds + rest)[|sign|..|sign| + |ds|] == ds
    ensures forall m :: |sign| <= m < |sign| + |ds| ==> IsDigit((sign + ds + rest)[m])
    ensures |sign| + |ds| == |sign + ds + rest| || !IsDigit((sign + ds + rest)[|sign| + |ds|])
  {
    var s := sign + ds + rest;
    var j := |sign|;
    var k := |sign| + |ds|;
    var head := sign + ds;
    assert s[j..k] == ds by {
      assert s[..k] == head;
      assert head[j..] == ds;
    }
    forall m | j <= m < k
      ensures IsDigit(s[m])
    {
      assert s[m] == head[m] == ds[m - j];
    }
    assert k < |s| ==> s[k] == rest[0];
  }

  lemma SignedValueOf(x: int)
    ensures SignedValue(Scan(x < 0, if x < 0 then -x else x, 0)) == x
  {
  }

  /** strto<int> reads back every written int, and stops where the digits end. */
  lemma StrToIntDecimal(x: int, rest: string)
    requires rest == [] || !IsDigit(rest[0])
    ensures INT32_MIN <= x <= INT32_MAX ==> StrToInt(Decimal(x) + rest) == Ok((x, |Decimal(x)|))
    ensures !(INT32_MIN <= x <= INT32_MAX) ==> StrToInt(Decimal(x) + rest) == Err(OutOfRange("strto<int>"))
  {
    ScanDecimalOf(x, rest);
  }

  /** strto<short> reads back exactly the written values that fit 16 bits. */
  lemma StrToShortDecimal(x: int, rest: string)
    requires rest == [] || !IsDigit(rest[0])
    ensures INT16_MIN <= x <= INT16_MAX ==> StrToShort(Decimal(x) + rest) == Ok((x, |Decimal(x)|))
    ensures !(INT16_MIN <= x <= INT16_MAX) ==> StrToShort(Decimal(x) + rest) == Err(OutOfRange("strto<short>"))
  {
    ScanDecimalOf(x, rest);
  }

  /** strto<long> and strto<long long> read back every written 64-bit value. */
  lemma StrToLongDecimal(x: int, rest: string)
    requires rest == [] || !IsDigit(rest[0])
    ensures INT64_MIN <= x <= INT64_MAX ==> StrToLong(Decimal(x) + rest) == Ok((x, |Decimal(x)|))
    ensures INT64_MIN <= x <= INT64_MAX ==> StrToLongLong(Decimal(x) + rest) == Ok((x, |Decimal(x)|))
    ensures !(INT64_MIN <= x <= INT64_MAX) ==> StrToLong(Decimal(x) + rest) == Err(OutOfRange("strto<long>"))
  {
    ScanDecimalOf(x, rest);
  }

  /**
   * Written unsigned values up to 2^64 - 1 are read back by
   * strto<unsigned long>; strto<unsigned int> keeps them modulo 2^32, and
   * strto<unsigned short> accepts those whose remainder fits 16 bits.
   */
  lemma StrToUnsignedDecimal(n: nat, rest: string)
    requires rest == [] || !IsDigit(rest[0])
    ensures n <= UINT64_MAX ==> StrToULong(Decimal(n) + rest) == Ok((n, |Decimal(n)|))
    ensures n <= UINT64_MAX ==> StrToUInt(Decimal(n) + rest) == Ok((n % 0x1_0000_0000, |Decimal(n)|))
    ensures n <= UINT64_MAX && n % 0x1_0000_0000 <= UINT16_MAX ==>
              StrToUShort(Decimal(n) + rest) == Ok((n % 0x1_0000_0000, |Decimal(n)|))
    ensures n > UINT64_MAX ==> StrToUInt(Decimal(n) + rest) == Err(OutOfRange("strto<unsigned ini>"))
    ensures n > UINT64_MAX || UINT16_MAX < n % 0x1_0000_0000 ==>
              StrToUShort(Decimal(n) + rest) == Err(OutOfRange("strto<unsigned short>"))
  {
    ScanDecimalOf(n, rest);
  }

  /** A 16-bit number written in decimal is read back by strto<unsigned short>. */
  lemma StrToUShortDecimal(n: nat, rest: string)
    requires n <= UINT16_MAX && (rest == [] || !IsDigit(rest[0]))
    ensures StrToUShort(Decimal(n) + rest) == Ok((n, |Decimal(n)|))
  {
    StrToUnsignedDecimal(n, rest);
    assert n % 0x1_0000_0000 == n;
  }

  /** A 32-bit number written in decimal is read back by strto<unsigned int>. */
  lemma StrToUIntDecimal(n: nat, rest: string)
    requires n <= UINT32_MAX && (rest == [] || !IsDigit(rest[0]))
    ensures StrToUInt(Decimal(n) + rest) == Ok((n, |Decimal(n)|))
  {
    StrToUnsignedDecimal(n, rest);
    assert n % 0x1_0000_0000 == n;
  }

  /** Between 2^16 and 2^32 - 1, strto<unsigned short> reports out of range. */
  lemma StrToUShortTooLarge(n: nat, rest: string)
    requires UINT16_MAX < n <= UINT32_MAX && (rest == [] || !IsDigit(rest[0]))
    ensures StrToUShort(Decimal(n) + rest) == Err(OutOfRange("strto<unsigned short>"))
  {
    StrToUnsignedDecimal(n, rest);
    assert n % 0x1_0000_0000 == n;
  }

  /** A minus sign in front of an unsigned conversion negates modulo 2^64. */
  lemma StrToULongNegative(m: nat, rest: string)
    requires 0 < m <= UINT64_MAX && (rest == [] || !IsDigit(rest[0]))
    ensures StrToULong(Decimal(-(m as int)) + rest) == Ok((UINT64_MAX + 1 - m, |Decimal(-(m as int))|))
  {
    ScanDecimalOf(-(m as int), rest);
  }

  // ---------------------------------------------------------------------
  // parsePair, formatPair
  // ---------------------------------------------------------------------

  /** std::string::operator[]: the character at i, and '\0' at i == size(). */
  function CharAt(s: string, i: nat): char
    requires i <= |s|
  {
    if i < |s| then s[i] else '\0'
  }

  /** std::string::substr(pos): out_of_range when pos > size(). */
  function Substr(s: string, pos: nat): (r: Result<string>)
    ensures r.Ok? <==> pos <= |s|
    ensures r.Ok? ==> |r.value| == |s| - pos && forall k :: 0 <= k < |r.value| ==> r.value[k] == s[pos + k]
    ensures r.Err? ==> r.error == OutOfRange("basic_string::substr")
  {
    if pos <= |s| then Ok(s[pos..]) else Err(OutOfRange("basic_string::substr"))
  }

  /**
   * parsePair<T>. Both numbers are read with strto<int>, whatever T is, and
   * nothing after the closing character is looked at.
   */
  function ParsePair(text: string, format: string): (r: Result<(int, int)>)
    ensures r.Ok? ==> INT32_MIN <= r.value.0 <= INT32_MAX && INT32_MIN <= r.value.1 <= INT32_MAX
    ensures |format| != 3 ==> r == Err(InvalidArgument("invalid pair format"))
    ensures |format| == 3 && CharAt(text, 0) != format[0] ==> r == Err(InvalidArgument("wrong or missing opening bracket"))
    ensures |format| == 3 && text == [] && format[0] == '\0' ==> r == Err(OutOfRange("basic_string::substr"))
    ensures |format| == 3 && text != [] && text[0] == format[0] ==> r == ParseNumbers(text[1..], format)
    ensures r.Err? && r.error.OutOfRange? && r.error.what != "strto<int>" ==> format[0] == '\0' || format[1] == '\0'
  {
    if |format| != 3 then Err(InvalidArgument("invalid pair format"))
    else if CharAt(text, 0) != format[0] then Err(InvalidArgument("wrong or missing opening bracket"))
    else
      var t :- Substr(text, 1);
      ParseNumbers(t, format)
  }

  /**
   * parsePair after the opening character: the first number, whose
   * strto<int> error is passed on, and the separator.
   */
  function ParseNumbers(t: string, format: string): (r: Result<(int, int)>)
    requires |format| == 3
    ensures r.Ok? ==> INT32_MIN <= r.value.0 <= INT32_MAX && INT32_MIN <= r.value.1 <= INT32_MAX
    ensures StrToInt(t).Err? ==> r == Err(StrToInt(t).error)
    ensures StrToInt(t).Ok? && CharAt(t, StrToInt(t).value.1) != format[1] ==>
              r == Err(InvalidArgument("wrong or missing separator"))
    ensures r.Ok? ==> StrToInt(t).Ok? && StrToInt(t).value.1 < |t| && t[StrToInt(t).value.1] == format[1]
                      && r.value.0 == StrToInt(t).value.0
    ensures r.Err? && r.error.OutOfRange? && r.error.what != "strto<int>" ==> format[1] == '\0'
  {
    var first :- StrToInt(t);
    var u := t[first.1..];
    if CharAt(u, 0) != format[1] then Err(InvalidArgument("wrong or missing separator"))
    else
      var v :- Substr(u, 1);
      ParseSecond(v, format, first.0)
  }

  /**
   * parsePair after the separator: the second number, whose strto<int>
   * error is passed on, and the closing character.
   */
  function ParseSecond(v: string, format: string, x: int): (r: Result<(int, int)>)
    requires |format| == 3
    ensures StrToInt(v).Err? ==> r == Err(StrToInt(v).error)
    ensures StrToInt(v).Ok? && CharAt(v, StrToInt(v).value.1) != format[2] ==>
              r == Err(InvalidArgument("wrong or missing closing bracket"))
    ensures r.Ok? ==> r.value == (x, StrToInt(v).value.0) && INT32_MIN <= r.value.1 <= INT32_MAX
    ensures r.Err? && r.error.OutOfRange? ==> r.error.what == "strto<int>"
  {
    var second :- StrToInt(v);
    if CharAt(v, second.1) != format[2] then Err(InvalidArgument("wrong or missing closing bracket"))
    else Ok((x, second.0))
  }

  /**
   * The text parsePair accepts, by position: the opening character, a
   * strto<int> number, the separator at index i, a second number and the
   * closing character (which may be the terminating '\0').
   */
  predicate PairLayout(text: string, format: string)
  {
    && |format| == 3 && |text| > 0 && text[0] == format[0]
    && StrToInt(text[1..]).Ok?
    && 1 + StrToInt(text[1..]).value.1 < |text|
    && text[1 + StrToInt(text[1..]).value.1] == format[1]
    && StrToInt(text[2 + StrToInt(text[1..]).value.1..]).Ok?
    && CharAt(text, 2 + StrToInt(text[1..]).value.1 + StrToInt(text[2 + StrToInt(text[1..]).value.1..]).value.1) == format[2]
  }

  /** parsePair succeeds exactly on that layout, and returns its two numbers. */
  lemma {:induction false} ParsePairLayout(text: string, format: string)
    ensures ParsePair(text, format).Ok? <==> PairLayout(text, format)
    ensures PairLayout(text, format) ==>
              ParsePair(text, format).value
              == (StrToInt(text[1..]).value.0, StrToInt(text[2 + StrToInt(text[1..]).value.1..]).value.0)
  {
    if |format| == 3 && |text| > 0 && text[0] == format[0] {
      var t := text[1..];
      if StrToInt(t).Ok? {
        var e := StrToInt(t).value.1;
        if e < |t| && t[e] == format[1] {
          var v := t[e..][1..];
          assert v == text[2 + e..];
          if StrToInt(v).Ok? {
            var e2 := StrToInt(v).value.1;
            assert CharAt(v, e2) == CharAt(text, 2 + e + e2);
          }
        }
      }
    }
  }

  /** formatPair<int>: the two numbers written between the three format characters. */
  function FormatPair(x: int, y: int, format: string): (r: Result<string>)
    ensures r.Ok? <==> |format| == 3
    ensures r.Err? ==> r.error == InvalidArgument("invalid pair format")
  {
    if |format| != 3 then Err(InvalidArgument("invalid pair format"))
    else Ok([format[0]] + Decimal(x) + [format[1]] + Decimal(y) + [format[2]])
  }

  /**
   * parsePair reads back what formatPair wrote, for 32-bit numbers and a
   * format whose separator and closing character are not digits.
   */
  lemma PairRoundTrip(x: int, y: int, format: string)
    requires INT32_MIN <= x <= INT32_MAX && INT32_MIN <= y <= INT32_MAX
    requires |format| == 3 && !IsDigit(format[1]) && !IsDigit(format[2])
    ensures FormatPair(x, y, format).Ok?
    ensures ParsePair(FormatPair(x, y, format).value, format) == Ok((x, y))
  {
    var close := [format[2]];
    var tail2 := Decimal(y) + close;
    var tail1 := Decimal(x) + ([format[1]] + tail2);
    var text := [format[0]] + tail1;
    assert FormatPair(x, y, format).value == text;
    assert text[1..] == tail1;
    StrToIntDecimal(x, [format[1]] + tail2);
    assert tail1[|Decimal(x)|..] == [format[1]] + tail2;
    assert ([format[1]] + tail2)[1..] == tail2;
    StrToIntDecimal(y, close);
  }

  /** What follows a parsed pair is never examined. */
  lemma ParsePairIgnoresTail(text: string, format: string, extra: string)
    requires ParsePair(text, format).Ok? && format[2] != '\0'
    ensures ParsePair(text + extra, format) == ParsePair(text, format)
  {
    DropThenAppend(text, extra, 1);
    ParseNumbersIgnoresTail(text[1..], format, extra);
  }

  lemma ParseNumbersIgnoresTail(t: string, format: string, extra: string)
    requires |format| == 3 && ParseNumbers(t, format).Ok? && format[2] != '\0'
    ensures ParseNumbers(t + extra, format) == ParseNumbers(t, format)
  {
    var first := StrToInt(t).value;
    var u := t[first.1..];
    assert u != [];
    StrToIntExtend(t, extra);
    DropThenAppend(t, extra, first.1);
    DropThenAppend(u, extra, 1);
    ParseSecondIgnoresTail(u[1..], format, first.0, extra);
  }

  lemma ParseSecondIgnoresTail(v: string, format: string, x: int, extra: string)
    requires |format| == 3 && ParseSecond(v, format, x).Ok? && format[2] != '\0'
    ensures ParseSecond(v + extra, format, x) == ParseSecond(v, format, x)
  {
    assert StrToInt(v).value.1 < |v|;
    StrToIntExtend(v, extra);
  }

  lemma DropThenAppend(t: string, e: string, i: nat)
    requires i <= |t|
    ensures (t + e)[i..] == t[i..] + e
  {
  }

  /** strto<int> does not look past a character that is not a digit. */
  lemma StrToIntExtend(t: string, extra: string)
    requires StrToInt(t).Ok? && StrToInt(t).value.1 < |t|
    ensures StrToInt(t + extra) == StrToInt(t)
  {
    ScanDecimalExtend(t, extra);
  }
}
