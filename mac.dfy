/** The MAC address value type of src/mac.rs: six bytes, parsed from and
    rendered as colon-separated hexadecimal text. */
module Mac {
  import opened Wrappers

  /** An unsigned 8-bit value (Rust's `u8`). */
  type byte = x: int | 0 <= x < 256

  /** The six octets of an address, most significant first (Rust's `[u8; 6]`). */
  type Octets = s: seq<byte> | |s| == 6 witness [0, 0, 0, 0, 0, 0]

  /** A MAC address (`MACAddress`). */
  datatype MacAddress = MacAddress(octets: Octets)

  /** Why `from_string` rejected its input. */
  datatype ParseError =
    | WrongSegmentCount(found: nat)                  // the `:`-split did not give 6 segments
    | InvalidSegment(position: nat, segment: string)  // 1-based position of the first bad segment

  // ---------------------------------------------------------------------------
  // Byte accessors

  /** `MACAddress::from_bytes`. */
  function FromBytes(bytes: Octets): (mac: MacAddress)
    ensures AsBytes(mac) == bytes
  {
    MacAddress(bytes)
  }

  /** `MACAddress::as_bytes`. */
  function AsBytes(mac: MacAddress): (bytes: Octets)
    ensures MacAddress(bytes) == mac
  {
    mac.octets
  }

  /** The accessors are mutually inverse. */
  lemma BytesRoundTrip(bytes: Octets, mac: MacAddress)
    ensures AsBytes(FromBytes(bytes)) == bytes
    ensures FromBytes(AsBytes(mac)) == mac
  {
  }

  // ---------------------------------------------------------------------------
  // Hexadecimal digits

  /** The digits Rust's `char::to_digit(16)` accepts: 0-9, a-f and A-F. */
  predicate IsHexDigit(c: char) {
    '0' <= c <= '9' || 'a' <= c <= 'f' || 'A' <= c <= 'F'
  }

  /** The digits `{:02X}` writes: 0-9 and A-F. */
  predicate IsUpperHexDigit(c: char) {
    '0' <= c <= '9' || 'A' <= c <= 'F'
  }

  function DigitValue(c: char): (v: nat)
    requires IsHexDigit(c)
    ensures v < 16
  {
    if '0' <= c <= '9' then c as int - '0' as int
    else if 'a' <= c <= 'f' then c as int - 'a' as int + 10
    else c as int - 'A' as int + 10
  }

  /** The upper-case digit for a value below 16. */
  function HexDigit(d: nat): (c: char)
    requires d < 16
    ensures IsUpperHexDigit(c) && IsHexDigit(c)
    ensures DigitValue(c) == d
  {
    if d < 10 then ('0' as int + d) as char else ('A' as int + d - 10) as char
  }

  predicate AllHexDigits(s: string) {
    forall i :: 0 <= i < |s| ==> IsHexDigit(s[i])
  }

  /** The value of a string of hexadecimal digits, most significant first. */
  function HexValue(digits: string): nat
    requires AllHexDigits(digits)
  {
    if |digits| == 0 then 0
    else HexValue(digits[..|digits| - 1]) * 16 + DigitValue(digits[|digits| - 1])
  }

  function Pow16(n: nat): (p: nat)
    ensures p >= 1
  {
    if n == 0 then 1 else 16 * Pow16(n - 1)
  }

  lemma {:induction false} HexValueBound(digits: string)
    requires AllHexDigits(digits)
    ensures HexValue(digits) < Pow16(|digits|)
  {
    if |digits| > 0 {
      HexValueBound(digits[..|digits| - 1]);
    }
  }

  /** A leading zero digit does not change the value. */
  lemma {:induction false} HexValueLeadingZero(digits: string)
    requires AllHexDigits(digits)
    ensures AllHexDigits(['0'] + digits)
    ensures HexValue(['0'] + digits) == HexValue(digits)
  {
    var z := ['0'] + digits;
    assert forall i :: 0 <= i < |z| ==> IsHexDigit(z[i]) by {
      forall i | 0 <= i < |z| ensures IsHexDigit(z[i]) {
        if i > 0 { assert z[i] == digits[i - 1]; }
      }
    }
    if |digits| > 0 {
      assert z[..|z| - 1] == ['0'] + digits[..|digits| - 1];
      HexValueLeadingZero(digits[..|digits| - 1]);
    }
  }

  // ---------------------------------------------------------------------------
  // Segment parsing: Rust's `u8::from_str_radix(segment, 16)`

  /** The digits `from_str_radix` reads: a single leading `+` is skipped. */
  function DigitsOf(segment: string): string {
    if |segment| > 0 && segment[0] == '+' then segment[1..] else segment
  }

  /** `u8::from_str_radix(segment, 16)`: an optional `+`, then one or more
      hexadecimal digits of either case (leading zeros allowed) whose value fits
      in a byte. `None` for an empty segment, a lone `+`, a `-` sign, any other
      character, or a value above 255. */
  function ParseHexByte(segment: string): (r: Option<byte>)
    ensures r.Some? ==> |segment| >= 1 && (segment[0] == '+' || IsHexDigit(segment[0]))
    ensures r.Some? ==> forall i :: 1 <= i < |segment| ==> IsHexDigit(segment[i])
  {
    var digits := DigitsOf(segment);
    if |digits| == 0 || !AllHexDigits(digits) then None
    else if HexValue(digits) < 256 then Some(HexValue(digits))
    else None
  }

  /** One or two hexadecimal digits never overflow a byte. */
  lemma ShortDigitsAccepted(digits: string)
    requires 1 <= |digits| <= 2 && AllHexDigits(digits)
    ensures ParseHexByte(digits) == Some(HexValue(digits))
  {
    HexValueBound(digits);
    assert Pow16(|digits|) <= 256;
  }

  /** Leading zeros are ignored (e.g. `0FF` reads as 255). */
  lemma LeadingZeroIgnored(segment: string)
    requires |segment| > 0 && segment[0] != '+'
    ensures ParseHexByte(['0'] + segment) == ParseHexByte(segment)
  {
    var z := ['0'] + segment;
    assert DigitsOf(z) == z;
    assert DigitsOf(segment) == segment;
    if AllHexDigits(segment) {
      HexValueLeadingZero(segment);
    } else {
      var i :| 0 <= i < |segment| && !IsHexDigit(segment[i]);
      assert z[i + 1] == segment[i];
    }
  }

  /** One leading `+` is ignored; a second one is not (so `++1` is rejected). */
  lemma PlusSignIgnored(segment: string)
    requires |segment| == 0 || segment[0] != '+'
    ensures ParseHexByte(['+'] + segment) == ParseHexByte(segment)
  {
    assert DigitsOf(['+'] + segment) == segment;
  }

  /** A segment with two leading `+` signs is rejected. */
  lemma DoublePlusRejected(segment: string)
    requires |segment| > 0 && segment[0] == '+'
    ensures ParseHexByte(['+'] + segment) == None
  {
    assert DigitsOf(['+'] + segment) == segment;
    assert !IsHexDigit(segment[0]);
  }

  /** The upper-case form of a character; every other character is kept. */
  function UpperChar(c: char): char {
    if 'a' <= c <= 'z' then (c as int - 32) as char else c
  }

  function UpperCase(s: string): (u: string)
    ensures |u| == |s|
    ensures forall i :: 0 <= i < |s| ==> u[i] == UpperChar(s[i])
  {
    if |s| == 0 then [] else UpperCase(s[..|s| - 1]) + [UpperChar(s[|s| - 1])]
  }

  lemma {:induction false} HexValueIgnoresCase(digits: string)
    requires AllHexDigits(digits)
    ensures AllHexDigits(UpperCase(digits))
    ensures HexValue(UpperCase(digits)) == HexValue(digits)
  {
    var u := UpperCase(digits);
    if |digits| > 0 {
      var n := |digits|;
      assert u[..n - 1] == UpperCase(digits[..n - 1]);
      HexValueIgnoresCase(digits[..n - 1]);
    }
  }

  /** Upper-casing commutes with skipping the sign. */
  lemma DigitsOfUpperCase(segment: string)
    ensures DigitsOf(UpperCase(segment)) == UpperCase(DigitsOf(segment))
  {
    if |segment| > 0 && segment[0] == '+' {
      assert UpperCase(segment)[1..] == UpperCase(segment[1..]);
    }
  }

  /** Upper-casing neither makes nor unmakes a hexadecimal digit. */
  lemma AllHexDigitsUpperCase(d: string)
    ensures AllHexDigits(UpperCase(d)) == AllHexDigits(d)
  {
    if !AllHexDigits(d) {
      var i :| 0 <= i < |d| && !IsHexDigit(d[i]);
      assert UpperCase(d)[i] == UpperChar(d[i]);
    }
  }

  /** Lower- and upper-case digits are read alike (e.g. `ff` and `FF`). */
  lemma ParseHexByteIgnoresCase(segment: string)
    ensures ParseHexByte(UpperCase(segment)) == ParseHexByte(segment)
  {
    var d := DigitsOf(segment);
    DigitsOfUpperCase(segment);
    AllHexDigitsUpperCase(d);
    if AllHexDigits(d) {
      HexValueIgnoresCase(d);
    }
  }

  /** Segments `from_str_radix` rejects. */
  lemma ParseHexByteRejects()
    ensures ParseHexByte("") == None
    ensures ParseHexByte("+") == None
    ensures ParseHexByte("-1") == None
    ensures ParseHexByte("1G") == None
    ensures ParseHexByte("100") == None
  {
    assert !IsHexDigit("-1"[0]);
    assert !IsHexDigit("1G"[1]);
    assert HexValue("10") == 16 by { assert "10"[..1] == "1"; }
    assert HexValue("100") == 256 by { assert "100"[..2] == "10"; }
  }

  /** Segments `from_str_radix` accepts, with their values. */
  lemma ParseHexByteAccepts()
    ensures ParseHexByte("7") == Some(7)
    ensures ParseHexByte("ff") == Some(255)
    ensures ParseHexByte("0FF") == Some(255)
    ensures ParseHexByte("+aB") == Some(171)
  {
    assert HexValue("ff") == 255 by { assert "ff"[..1] == "f"; }
    assert HexValue("0F") == 15 by { assert "0F"[..1] == "0"; }
    assert HexValue("0FF") == 255 by { assert "0FF"[..2] == "0F"; }
    assert DigitsOf("+aB") == "aB";
    assert HexValue("aB") == 171 by { assert "aB"[..1] == "a"; }
  }

  // ---------------------------------------------------------------------------
  // Splitting on a separator: Rust's `str::split(sep)`

  function Count(s: string, c: char): nat {
    if |s| == 0 then 0 else (if s[0] == c then 1 else 0) + Count(s[1..], c)
  }

  /** The segments written between separators, in order (empty ones included). */
  function Join(segments: seq<string>, sep: char): string {
    if |segments| == 0 then ""
    else if |segments| == 1 then segments[0]
    else segments[0] + [sep] + Join(segments[1..], sep)
  }

  /** `s.split(sep)`: the pieces of `s` between separators, in order, empty
      ones included. */
  function Split(s: string, sep: char): (segments: seq<string>)
    ensures |segments| >= 1
    ensures forall i :: 0 <= i < |segments| ==> sep !in segments[i]
  {
    if |s| == 0 then [""]
    else
      var rest := Split(s[1..], sep);
      if s[0] == sep then [""] + rest
      else [[s[0]] + rest[0]] + rest[1..]
  }

  /** Joining the segments with the separator gives the text back. */
  lemma {:induction false} JoinSplit(s: string, sep: char)
    ensures Join(Split(s, sep), sep) == s
  {
    if |s| > 0 {
      var rest := Split(s[1..], sep);
      JoinSplit(s[1..], sep);
      if s[0] == sep {
        assert ([""] + rest)[1..] == rest;
      } else {
        JoinConsChar(s[0], rest, sep);
      }
    }
  }

  /** `s.split(sep)` has one more segment than `s` has separators. */
  lemma {:induction false} SplitCount(s: string, sep: char)
    ensures |Split(s, sep)| == Count(s, sep) + 1
  {
    if |s| > 0 {
      SplitCount(s[1..], sep);
    }
  }

  lemma JoinConsChar(c: char, segments: seq<string>, sep: char)
    requires |segments| >= 1
    ensures Join([[c] + segments[0]] + segments[1..], sep) == [c] + Join(segments, sep)
  {
    var t := [[c] + segments[0]] + segments[1..];
    assert t[1..] == segments[1..];
  }

  lemma {:induction false} SplitSingle(a: string, sep: char)
    requires sep !in a
    ensures Split(a, sep) == [a]
  {
    if |a| > 0 {
      assert sep !in a[1..];
      SplitSingle(a[1..], sep);
      assert [a[0]] + a[1..] == a;
    }
  }

  lemma {:induction false} SplitAfterSegment(a: string, rest: string, sep: char)
    requires sep !in a
    ensures Split(a + [sep] + rest, sep) == [a] + Split(rest, sep)
  {
    var s := a + [sep] + rest;
    if |a| == 0 {
      assert s[1..] == rest;
    } else {
      assert s[1..] == a[1..] + [sep] + rest;
      assert sep !in a[1..];
      SplitAfterSegment(a[1..], rest, sep);
      assert [a[0]] + a[1..] == a;
    }
  }

  /** Splitting undoes joining when no segment contains the separator. */
  lemma {:induction false} SplitJoin(segments: seq<string>, sep: char)
    requires |segments| >= 1
    requires forall i :: 0 <= i < |segments| ==> sep !in segments[i]
    ensures Split(Join(segments, sep), sep) == segments
  {
    if |segments| == 1 {
      SplitSingle(segments[0], sep);
    } else {
      SplitJoin(segments[1..], sep);
      SplitAfterSegment(segments[0], Join(segments[1..], sep), sep);
      assert [segments[0]] + segments[1..] == segments;
    }
  }

  // ---------------------------------------------------------------------------
  // `MACAddress::from_string`

  /** The index of the first segment `from_str_radix` rejects, or the number of
      segments when it accepts them all. */
  function FirstInvalid(segments: seq<string>): (k: nat)
    ensures k <= |segments|
    ensures forall j :: 0 <= j < k ==> ParseHexByte(segments[j]).Some?
    ensures k < |segments| ==> ParseHexByte(segments[k]).None?
  {
    if |segments| == 0 then 0
    else if ParseHexByte(segments[0]).None? then 0
    else 1 + FirstInvalid(segments[1..])
  }

  /** `FirstInvalid` is characterised by its contract. */
  lemma {:induction false} FirstInvalidIs(segments: seq<string>, k: nat)
    requires k <= |segments|
    requires forall j :: 0 <= j < k ==> ParseHexByte(segments[j]).Some?
    requires k < |segments| ==> ParseHexByte(segments[k]).None?
    ensures FirstInvalid(segments) == k
  {
    if k > 0 {
      assert ParseHexByte(segments[0]).Some?;
      FirstInvalidIs(segments[1..], k - 1);
    }
  }

  /** The bytes of segments that all parse, in order. */
  function SegmentValues(segments: seq<string>): (values: seq<byte>)
    requires forall j :: 0 <= j < |segments| ==> ParseHexByte(segments[j]).Some?
    ensures |values| == |segments|
    ensures forall j :: 0 <= j < |segments| ==> ParseHexByte(segments[j]) == Some(values[j])
  {
    if |segments| == 0 then []
    else [ParseHexByte(segments[0]).value] + SegmentValues(segments[1..])
  }

  /** What `from_string` returns: the segment count is checked first, then the
      segments in order, the first rejected one being reported by its 1-based
      position and its text. */
  function Parse(text: string): (r: Result<MacAddress, ParseError>)
    ensures r.Err? && r.error.WrongSegmentCount? ==> r.error.found == Count(text, ':') + 1 != 6
    ensures r.Err? && r.error.InvalidSegment? ==>
      1 <= r.error.position <= 6 && ParseHexByte(r.error.segment).None? && ':' !in r.error.segment
    ensures r.Ok? ==> Count(text, ':') == 5
  {
    SplitCount(text, ':');
    ParseSegments(Split(text, ':'))
  }

  /** `from_string` once the text is split. */
  function ParseSegments(segments: seq<string>): (r: Result<MacAddress, ParseError>)
    ensures r.Err? && r.error.WrongSegmentCount? ==> r.error.found == |segments| != 6
    ensures r.Err? && r.error.InvalidSegment? ==>
      |segments| == 6 && 1 <= r.error.position <= 6 &&
      r.error.segment == segments[r.error.position - 1] && ParseHexByte(r.error.segment).None? &&
      forall j :: 0 <= j < r.error.position - 1 ==> ParseHexByte(segments[j]).Some?
    ensures r.Ok? ==> |segments| == 6 && forall j :: 0 <= j < 6 ==> ParseHexByte(segments[j]) == Some(r.value.octets[j])
  {
    if |segments| != 6 then Err(WrongSegmentCount(|segments|))
    else
      var k := FirstInvalid(segments);
      if k < 6 then Err(InvalidSegment(k + 1, segments[k]))
      else Ok(MacAddress(SegmentValues(segments)))
  }

  /** With six segments, the first that does not parse is reported. */
  lemma SegmentsFirstBad(segments: seq<string>, k: nat)
    requires |segments| == 6 && k < 6
    requires forall j :: 0 <= j < k ==> ParseHexByte(segments[j]).Some?
    requires ParseHexByte(segments[k]).None?
    ensures ParseSegments(segments) == Err(InvalidSegment(k + 1, segments[k]))
  {
    FirstInvalidIs(segments, k);
  }

  /** Six segments that all parse give the address of their values. */
  lemma SegmentsAllParse(segments: seq<string>, values: seq<byte>)
    requires |segments| == 6 && |values| == 6
    requires forall j :: 0 <= j < 6 ==> ParseHexByte(segments[j]) == Some(values[j])
    ensures ParseSegments(segments) == Ok(MacAddress(values))
  {
    FirstInvalidIs(segments, 6);
    assert SegmentValues(segments) == values;
  }

  /** `MACAddress::from_string`, filling the byte array in place as the
      segments are read. */
  method FromString(text: string) returns (r: Result<MacAddress, ParseError>)
    ensures r == Parse(text)
  {
    var bytes := new byte[6](_ => 0);
    var i := 0;

    var segments := Split(text, ':');
    if |segments| != 6 {
      return Err(WrongSegmentCount(|segments|));
    }

    while i < |segments|
      invariant 0 <= i <= 6
      invariant forall j :: 0 <= j < i ==> ParseHexByte(segments[j]) == Some(bytes[j])
    {
      var b := ParseHexByte(segments[i]);
      if b.None? {
        SegmentsFirstBad(segments, i);
        return Err(InvalidSegment(i + 1, segments[i]));
      }
      bytes[i] := b.value;
      i := i + 1;
    }

    SegmentsAllParse(segments, bytes[..]);
    return Ok(MacAddress(bytes[..]));
  }

  /** The segment count is checked before any segment: a text without exactly
      five colons is rejected with its segment count, whatever the segments hold. */
  lemma CountCheckedFirst(text: string)
    requires Count(text, ':') != 5
    ensures Parse(text) == Err(WrongSegmentCount(Count(text, ':') + 1))
  {
    SplitCount(text, ':');
  }

  /** With six segments, the first one that does not parse is the one reported. */
  lemma FirstBadSegmentReported(text: string, k: nat)
    requires |Split(text, ':')| == 6
    requires k < 6
    requires forall j :: 0 <= j < k ==> ParseHexByte(Split(text, ':')[j]).Some?
    requires ParseHexByte(Split(text, ':')[k]).None?
    ensures Parse(text) == Err(InvalidSegment(k + 1, Split(text, ':')[k]))
  {
    SegmentsFirstBad(Split(text, ':'), k);
  }

  /** Parsing succeeds exactly on six parseable segments, and byte `i` is the
      value of segment `i`. */
  lemma ParseSucceeds(text: string)
    ensures Parse(text).Ok? <==>
      |Split(text, ':')| == 6 &&
      forall j :: 0 <= j < 6 ==> ParseHexByte(Split(text, ':')[j]).Some?
    ensures Parse(text).Ok? ==>
      forall j :: 0 <= j < 6 ==> ParseHexByte(Split(text, ':')[j]) == Some(Parse(text).value.octets[j])
  {
    var segments := Split(text, ':');
    assert Parse(text) == ParseSegments(segments);
    SegmentsSucceed(segments);
  }

  lemma SegmentsSucceed(segments: seq<string>)
    ensures ParseSegments(segments).Ok? <==>
      |segments| == 6 && forall j :: 0 <= j < 6 ==> ParseHexByte(segments[j]).Some?
    ensures ParseSegments(segments).Ok? ==>
      forall j :: 0 <= j < 6 ==> ParseHexByte(segments[j]) == Some(ParseSegments(segments).value.octets[j])
  {
    if |segments| == 6 && forall j :: 0 <= j < 6 ==> ParseHexByte(segments[j]).Some? {
      FirstInvalidIs(segments, 6);
    }
  }

  /** `"ZZ:00"` is rejected for its segment count, not for `ZZ`; a bad first of
      six segments is reported at position 1. */
  lemma ParseTwoSegmentExample()
    ensures Parse("ZZ:00") == Err(WrongSegmentCount(2))
  {
    SplitSingle("00", ':');
    SplitAfterSegment("ZZ", "00", ':');
    assert "ZZ:00" == "ZZ" + [':'] + "00";
  }

  lemma ParseShortExample()
    ensures Parse("AA:BB:CC") == Err(WrongSegmentCount(3))
  {
    SplitSingle("CC", ':');
    SplitAfterSegment("BB", "CC", ':');
    SplitAfterSegment("AA", "BB:CC", ':');
    assert "BB:CC" == "BB" + [':'] + "CC";
    assert "AA:BB:CC" == "AA" + [':'] + "BB:CC";
  }

  lemma ParseBadSegmentExample()
    ensures Parse("ZZ:00:00:00:00:00") == Err(InvalidSegment(1, "ZZ"))
  {
    var segments := ["ZZ", "00", "00", "00", "00", "00"];
    assert Join(segments, ':') == "ZZ:00:00:00:00:00";
    SplitJoin(segments, ':');
    assert !IsHexDigit('Z');
    SegmentsFirstBad(segments, 0);
  }

  // ---------------------------------------------------------------------------
  // `Display for MACAddress`

  /** `{:02X}`: two upper-case digits, zero-padded. */
  function HexPair(b: byte): (pair: string)
    ensures |pair| == 2 && IsUpperHexDigit(pair[0]) && IsUpperHexDigit(pair[1])
    ensures 16 * DigitValue(pair[0]) + DigitValue(pair[1]) == b
  {
    [HexDigit(b / 16), HexDigit(b % 16)]
  }

  /** `from_str_radix` reads back what `{:02X}` writes. */
  lemma HexPairRoundTrip(b: byte)
    ensures ParseHexByte(HexPair(b)) == Some(b)
  {
    var p := HexPair(b);
    assert DigitsOf(p) == p;
    assert p[..1] == [p[0]] && p[..1][..0] == [];
    assert HexValue(p[..1]) == DigitValue(p[0]);
    assert HexValue(p) == 16 * DigitValue(p[0]) + DigitValue(p[1]);
  }

  function Pairs(mac: MacAddress): (pairs: seq<string>)
    ensures |pairs| == 6
    ensures forall i :: 0 <= i < 6 ==> pairs[i] == HexPair(mac.octets[i])
  {
    seq(6, i requires 0 <= i < 6 => HexPair(mac.octets[i]))
  }

  /** `MACAddress` as text: the six octets as upper-case hex pairs joined by `:`. */
  function Format(mac: MacAddress): (text: string)
    ensures |text| == 17
    ensures forall i :: 0 <= i < 17 ==> (text[i] == ':' <==> i % 3 == 2)
    ensures forall i :: 0 <= i < 17 && i % 3 != 2 ==> IsUpperHexDigit(text[i])
    ensures forall k :: 0 <= k < 6 ==> text[3 * k .. 3 * k + 2] == HexPair(mac.octets[k])
  {
    var pairs := Pairs(mac);
    JoinedPairs(pairs);
    Join(pairs, ':')
  }

  /** The layout of two-character segments joined by `:`. */
  lemma {:induction false} JoinedPairs(pairs: seq<string>)
    requires |pairs| >= 1
    requires forall k :: 0 <= k < |pairs| ==> |pairs[k]| == 2
    ensures |Join(pairs, ':')| == 3 * |pairs| - 1
    ensures forall i :: 0 <= i < 3 * |pairs| - 1 ==>
      Join(pairs, ':')[i] == if i % 3 == 2 then ':' else pairs[i / 3][i % 3]
    ensures forall k :: 0 <= k < |pairs| ==> Join(pairs, ':')[3 * k .. 3 * k + 2] == pairs[k]
  {
    var s := Join(pairs, ':');
    if |pairs| > 1 {
      JoinedPairs(pairs[1..]);
      var t := Join(pairs[1..], ':');
      assert s == pairs[0] + [':'] + t;
      forall i | 0 <= i < 3 * |pairs| - 1
        ensures s[i] == if i % 3 == 2 then ':' else pairs[i / 3][i % 3]
      {
        if i >= 3 {
          assert s[i] == t[i - 3];
          assert (i - 3) / 3 == i / 3 - 1 && (i - 3) % 3 == i % 3;
          assert pairs[1..][i / 3 - 1] == pairs[i / 3];
        }
      }
    }
  }

  /** The formatted text parses back to the same address. */
  lemma FormatParseRoundTrip(mac: MacAddress)
    ensures Parse(Format(mac)) == Ok(mac)
  {
    var pairs := Pairs(mac);
    assert forall k :: 0 <= k < 6 ==> ':' !in pairs[k] by {
      forall k | 0 <= k < 6 ensures ':' !in pairs[k] {
        assert IsUpperHexDigit(pairs[k][0]) && IsUpperHexDigit(pairs[k][1]);
      }
    }
    SplitJoin(pairs, ':');
    assert Split(Format(mac), ':') == pairs;
    forall k | 0 <= k < 6 ensures ParseHexByte(pairs[k]) == Some(mac.octets[k]) {
      HexPairRoundTrip(mac.octets[k]);
    }
    SegmentsAllParse(pairs, mac.octets);
  }
}
