/**
 * The value type `Version` of include/littlesmith/util/Version.h: a 16-bit
 * major, a 16-bit minor and a 32-bit revision, packed into and out of a
 * 64-bit integer and written and read as "major.minor.revision".
 */
module Versions {
  import opened Outcomes
  import Format

  type UInt16 = x: int | 0 <= x < 0x1_0000
  type UInt32 = x: int | 0 <= x < 0x1_0000_0000
  type UInt64 = x: int | 0 <= x < 0x1_0000_0000_0000_0000

  /** The constructor of the three components. */
  datatype Version = Version(major: UInt16, minor: UInt16, revision: UInt32)

  /** The default constructor. */
  function DefaultVersion(): Version {
    Version(0, 0, 0)
  }

  /**
   * Version(unsigned long bytes): revision in bits 0-31, minor in bits
   * 32-47, major in bits 48-63. On an unsigned value `& (2^k - 1)` is the
   * remainder modulo 2^k and `>> k` the quotient by 2^k.
   */
  function FromBytes(bytes: UInt64): (v: Version)
    ensures bytes == v.major * 0x1_0000_0000_0000 + v.minor * 0x1_0000_0000 + v.revision
  {
    var revision := bytes % 0x1_0000_0000;
    var rest := bytes / 0x1_0000_0000;
    var minor := rest % 0x1_0000;
    var rest' := rest / 0x1_0000;
    var major := rest' % 0x1_0000;
    assert bytes == rest * 0x1_0000_0000 + revision;
    assert rest == rest' * 0x1_0000 + minor;
    Version(major, minor, revision)
  }

  /** toBytes; `<< k` is a product with 2^k, which cannot overflow here. */
  function ToBytes(v: Version): (b: UInt64)
    ensures b % 0x1_0000_0000 == v.revision
    ensures (b / 0x1_0000_0000) % 0x1_0000 == v.minor
    ensures b / 0x1_0000_0000_0000 == v.major
  {
    var bytes := v.major;
    var bytes1 := bytes * 0x1_0000;
    var bytes2 := bytes1 + v.minor;
    var bytes3 := bytes2 * 0x1_0000_0000;
    Split32(bytes2, v.revision);
    Split16(v.major, v.minor);
    Split48(v.major, v.minor * 0x1_0000_0000 + v.revision);
    bytes3 + v.revision
  }

  lemma Split32(a: nat, b: nat)
    requires b < 0x1_0000_0000
    ensures (a * 0x1_0000_0000 + b) / 0x1_0000_0000 == a && (a * 0x1_0000_0000 + b) % 0x1_0000_0000 == b
  {
  }

  lemma Split48(a: nat, b: nat)
    requires b < 0x1_0000_0000_0000
    ensures (a * 0x1_0000_0000_0000 + b) / 0x1_0000_0000_0000 == a
  {
  }

  lemma Split16(a: nat, b: nat)
    requires b < 0x1_0000
    ensures (a * 0x1_0000 + b) / 0x1_0000 == a && (a * 0x1_0000 + b) % 0x1_0000 == b
  {
  }

  /** Packing a version and unpacking it gives the version back. */
  lemma FromToBytes(v: Version)
    ensures FromBytes(ToBytes(v)) == v
  {
    var high := v.major * 0x1_0000 + v.minor;
    Split32(high, v.revision);
    Split16(v.major, v.minor);
  }

  /** Unpacking any 64-bit value and packing it again gives the value back. */
  lemma ToFromBytes(bytes: UInt64)
    ensures ToBytes(FromBytes(bytes)) == bytes
  {
    var high := bytes / 0x1_0000_0000;
    assert bytes == high * 0x1_0000_0000 + bytes % 0x1_0000_0000;
    assert high == (high / 0x1_0000) * 0x1_0000 + high % 0x1_0000;
    assert high / 0x1_0000 < 0x1_0000;
  }

  /** The default version is 0.0.0, which packs into 0. */
  lemma DefaultVersionBytes()
    ensures ToBytes(DefaultVersion()) == 0 && FromBytes(0) == DefaultVersion()
  {
    assert ToBytes(DefaultVersion()) == 0;
    FromToBytes(DefaultVersion());
  }

  /** toString: the three components in decimal, separated by dots. */
  function ToString(v: Version): string {
    Format.Decimal(v.major) + "." + Format.Decimal(v.minor) + "." + Format.Decimal(v.revision)
  }

  /**
   * Version(std::string): major and minor are read with strto<unsigned
   * short>, and after each exactly one character, whatever it is, is
   * skipped; the revision is read with strto<unsigned int>, and whatever
   * follows it is ignored.
   */
  function FromString(s: string): (r: Result<Version>)
    ensures r.Ok? ==> Format.StrToUShort(s).Ok? && r.value.major == Format.StrToUShort(s).value.0
    ensures Format.StrToUShort(s).Err? ==> r == Err(Format.StrToUShort(s).error)
    ensures r.Err? ==> r.error.what in {"strto<unsigned short>", "basic_string::substr", "strto<unsigned ini>"}
  {
    var major :- Format.StrToUShort(s);
    var s1 :- Format.Substr(s, major.1 + 1);
    MinorFrom(s1, major.0)
  }

  /** Version(std::string) after the major component and its separator. */
  function MinorFrom(s1: string, major: UInt16): (r: Result<Version>)
    ensures r.Ok? ==> r.value.major == major
    ensures r.Ok? ==> Format.StrToUShort(s1).Ok? && r.value.minor == Format.StrToUShort(s1).value.0
    ensures Format.StrToUShort(s1).Err? ==> r == Err(Format.StrToUShort(s1).error)
    ensures r.Err? ==> r.error.what in {"strto<unsigned short>", "basic_string::substr", "strto<unsigned ini>"}
  {
    var minor :- Format.StrToUShort(s1);
    var s2 :- Format.Substr(s1, minor.1 + 1);
    RevisionFrom(s2, major, minor.0)
  }

  /** Version(std::string) after the minor component and its separator. */
  function RevisionFrom(s2: string, major: UInt16, minor: UInt16): (r: Result<Version>)
    ensures r.Ok? <==> Format.StrToUInt(s2).Ok?
    ensures r.Ok? ==> r.value == Version(major, minor, Format.StrToUInt(s2).value.0)
    ensures r.Err? ==> r == Err(Format.StrToUInt(s2).error) && r.error.what == "strto<unsigned ini>"
  {
    var revision :- Format.StrToUInt(s2);
    Ok(Version(major, minor, revision.0))
  }

  /**
   * The three components written in decimal are read back whatever single
   * non-digit characters separate them and whatever non-numeric text follows.
   */
  lemma FromStringWritten(v: Version, sep1: char, sep2: char, tail: string)
    requires !Format.IsDigit(sep1) && !Format.IsDigit(sep2)
    requires tail == [] || !Format.IsDigit(tail[0])
    ensures FromString(Format.Decimal(v.major) + [sep1] + Format.Decimal(v.minor) + [sep2]
                       + Format.Decimal(v.revision) + tail) == Ok(v)
  {
    var d1, d2, d3 := Format.Decimal(v.major), Format.Decimal(v.minor), Format.Decimal(v.revision);
    var s2 := d3 + tail;
    var s1 := d2 + ([sep2] + s2);
    WrittenAssoc(d1, sep1, d2, sep2, d3, tail);
    ReadComponent(v.major, sep1, s1);
    MinorStage(v, sep2, tail);
  }

  /** The minor component, its separator and the revision are read back. */
  lemma MinorStage(v: Version, sep2: char, tail: string)
    requires !Format.IsDigit(sep2)
    requires tail == [] || !Format.IsDigit(tail[0])
    ensures MinorFrom(Format.Decimal(v.minor) + ([sep2] + (Format.Decimal(v.revision) + tail)), v.major) == Ok(v)
  {
    ReadComponent(v.minor, sep2, Format.Decimal(v.revision) + tail);
    RevisionStage(v, tail);
  }

  /** The revision is read back, whatever non-numeric text follows it. */
  lemma RevisionStage(v: Version, tail: string)
    requires tail == [] || !Format.IsDigit(tail[0])
    ensures RevisionFrom(Format.Decimal(v.revision) + tail, v.major, v.minor) == Ok(v)
  {
    Format.StrToUIntDecimal(v.revision, tail);
  }

  lemma WrittenAssoc(d1: string, c1: char, d2: string, c2: char, d3: string, tail: string)
    ensures d1 + [c1] + d2 + [c2] + d3 + tail == d1 + ([c1] + (d2 + ([c2] + (d3 + tail))))
  {
  }

  /** A 16-bit component and the one character after it are read and skipped. */
  lemma ReadComponent(n: UInt16, sep: char, rest: string)
    requires !Format.IsDigit(sep)
    ensures Format.StrToUShort(Format.Decimal(n) + ([sep] + rest)) == Ok((n, |Format.Decimal(n)|))
    ensures Format.Substr(Format.Decimal(n) + ([sep] + rest), |Format.Decimal(n)| + 1) == Ok(rest)
  {
    Format.StrToUShortDecimal(n, [sep] + rest);
    SkipSeparator(Format.Decimal(n), sep, rest);
  }

  lemma SkipSeparator(d: string, sep: char, rest: string)
    ensures Format.Substr(d + ([sep] + rest), |d| + 1) == Ok(rest)
  {
    assert (d + ([sep] + rest))[|d| + 1..] == rest;
  }

  /** Reading what toString writes gives the version back. */
  lemma FromToString(v: Version)
    ensures FromString(ToString(v)) == Ok(v)
  {
    FromStringWritten(v, '.', '.', []);
    assert ToString(v) == Format.Decimal(v.major) + ['.'] + Format.Decimal(v.minor) + ['.']
                          + Format.Decimal(v.revision) + [];
  }

  /** A major component between 2^16 and 2^32 - 1 is out of range. */
  lemma FromStringMajorTooLarge(n: nat, rest: string)
    requires Format.UINT16_MAX < n <= Format.UINT32_MAX
    requires rest == [] || !Format.IsDigit(rest[0])
    ensures FromString(Format.Decimal(n) + rest) == Err(OutOfRange("strto<unsigned short>"))
  {
    Format.StrToUShortTooLarge(n, rest);
  }

  /** A minor component between 2^16 and 2^32 - 1 is out of range too. */
  lemma FromStringMinorTooLarge(a: UInt16, sep: char, n: nat, rest: string)
    requires !Format.IsDigit(sep)
    requires Format.UINT16_MAX < n <= Format.UINT32_MAX
    requires rest == [] || !Format.IsDigit(rest[0])
    ensures FromString(Format.Decimal(a) + [sep] + Format.Decimal(n) + rest) == Err(OutOfRange("strto<unsigned short>"))
  {
    var d := Format.Decimal(a);
    assert d + [sep] + Format.Decimal(n) + rest == d + ([sep] + (Format.Decimal(n) + rest));
    ReadComponent(a, sep, Format.Decimal(n) + rest);
    Format.StrToUShortTooLarge(n, rest);
  }

  /** A lone number has no character after it to skip, so substr throws. */
  lemma FromStringMajorOnly(n: UInt16)
    ensures FromString(Format.Decimal(n)).Err? && FromString(Format.Decimal(n)).error.OutOfRange?
  {
    Format.StrToUShortDecimal(n, []);
    assert Format.Decimal(n) + [] == Format.Decimal(n);
  }
}
