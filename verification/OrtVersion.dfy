/**
 The API version in the host's version string, following
 onnxruntime/core/providers/qnn/ort_api_version_parser.h. `std::from_chars` reads the longest run of
 digits, after a minus sign if the type is signed, and fails without digits or out of range.
 */
module OrtVersion {
  import opened Text
  import opened Wrappers

  function DigitRun(s: string): (n: nat)
    ensures n <= |s| && AllDigits(s[..n]) && (n < |s| ==> !IsDigit(s[n]))
  {
    if s != [] && IsDigit(s[0]) then
      var n := 1 + DigitRun(s[1..]);
      assert s[..n] == [s[0]] + s[1..][..n - 1];
      n
    else 0
  }

  /** The value read and how much text it took; None on an error. */
  function FromCharsUnsigned(s: string, limit: nat): Option<(nat, nat)> {
    var n := DigitRun(s);
    if n == 0 || NumberOf(s[..n]) >= limit then None else Some((NumberOf(s[..n]), n))
  }

  function FromCharsInt(s: string): Option<(int, nat)> {
    if s != [] && s[0] == '-' then
      match FromCharsUnsigned(s[1..], 0x8000_0001)
      case None => None
      case Some((value, n)) => Some((-(value as int), n + 1))
    else
      match FromCharsUnsigned(s, 0x8000_0000)
      case None => None
      case Some((value, n)) => Some((value, n))
  }

  /** A null pointer is None. */
  function ParseRuntimeOrtApiVersion(version: Option<string>): nat {
    if version.None? then 0
    else
      var s := version.value;
      match FromCharsInt(s)
      case None => 0
      case Some((major, n)) =>
        if n >= |s| || s[n] != '.' || major != 1 then 0
        else match FromCharsUnsigned(s[n + 1..], 0x1_0000_0000)
          case None => 0
          case Some((minor, _)) => minor
  }

  /** The string is a major part that denotes 1, a dot, the digits of a 32-bit minor part, and no further digit. */
  ghost predicate IsVersion(s: string, major: string, digits: string, suffix: string) {
    && s == major + ['.'] + digits + suffix
    && major != "" && AllDigits(major) && NumberOf(major) == 1
    && digits != "" && AllDigits(digits) && NumberOf(digits) < 0x1_0000_0000
    && (suffix != "" ==> !IsDigit(suffix[0]))
  }

  lemma {:induction false} DigitRunIs(digits: string, rest: string)
    requires AllDigits(digits) && (rest != "" ==> !IsDigit(rest[0]))
    ensures DigitRun(digits + rest) == |digits|
  {
    if digits == "" {
      assert digits + rest == rest;
    } else {
      assert (digits + rest)[1..] == digits[1..] + rest;
      DigitRunIs(digits[1..], rest);
    }
  }

  lemma ReadsDigits(digits: string, rest: string, limit: nat)
    requires digits != "" && AllDigits(digits) && (rest != "" ==> !IsDigit(rest[0])) && NumberOf(digits) < limit
    ensures FromCharsUnsigned(digits + rest, limit) == Some((NumberOf(digits), |digits|))
  {
    hide DigitRun, NumberOf;
    DigitRunIs(digits, rest);
    assert (digits + rest)[..|digits|] == digits;
  }

  lemma ReadsVersion(s: string, major: string, digits: string, suffix: string)
    requires IsVersion(s, major, digits, suffix)
    ensures ParseRuntimeOrtApiVersion(Some(s)) == NumberOf(digits)
  {
    hide FromCharsUnsigned, NumberOf;
    var rest := ['.'] + digits + suffix;
    assert s == major + rest && IsDigit(s[0]);
    ReadsDigits(major, rest, 0x8000_0000);
    assert s[|major|] == '.' && s[|major| + 1..] == digits + suffix;
    ReadsDigits(digits, suffix, 0x1_0000_0000);
  }

  /** A number other than 0 comes only from a version string, and is its minor part. */
  lemma OnlyVersionsCount(s: string)
    requires ParseRuntimeOrtApiVersion(Some(s)) != 0
    ensures exists major, digits, suffix ::
              IsVersion(s, major, digits, suffix) && ParseRuntimeOrtApiVersion(Some(s)) == NumberOf(digits)
  {
    hide NumberOf, DigitRun;
    var n := DigitRun(s);
    var t := s[n + 1..];
    var k := DigitRun(t);
    assert s == s[..n] + ['.'] + t[..k] + t[k..];
    assert IsVersion(s, s[..n], t[..k], t[k..]);
  }

  /** Every version of the 1.x line is read as its minor number. */
  lemma VersionRoundTrip(n: nat, suffix: string)
    requires n < 0x1_0000_0000 && (suffix != "" ==> !IsDigit(suffix[0]))
    ensures ParseRuntimeOrtApiVersion(Some("1." + Decimal(n) + suffix)) == n
  {
    hide Decimal, ParseRuntimeOrtApiVersion;
    NumberOfDecimal(n);
    assert NumberOf("1") == 1 by { assert "1"[..0] == ""; }
    var s := "1." + Decimal(n) + suffix;
    assert s == "1" + ['.'] + Decimal(n) + suffix;
    ReadsVersion(s, "1", Decimal(n), suffix);
  }
}
