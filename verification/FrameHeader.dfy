/** Unsigned big-endian integers as `struct` packs them. */
module BigEndian {
  import opened Common

  function Limit(width: nat): nat {
    if width == 0 then 1 else 256 * Limit(width - 1)
  }

  function Encode(n: nat, width: nat): (r: Bytes)
    ensures |r| == width
  {
    if width == 0 then [] else Encode(n / 256, width - 1) + [n % 256]
  }

  function Decode(b: Bytes): (n: nat)
    ensures n < Limit(|b|)
  {
    if b == [] then 0 else 256 * Decode(b[..|b| - 1]) + b[|b| - 1]
  }

  lemma {:induction false} RoundTrip(n: nat, width: nat)
    requires n < Limit(width)
    ensures Decode(Encode(n, width)) == n
  {
    if width > 0 {
      RoundTrip(n / 256, width - 1);
      var b := Encode(n, width);
      assert b[..width - 1] == Encode(n / 256, width - 1);
    }
  }

  /** The first byte is the most significant one. */
  lemma DecodeIsBigEndian(b: Bytes)
    ensures |b| == 2 ==> Decode(b) == 0x100 * (b[0] as int) + b[1]
    ensures |b| == 4 ==>
              Decode(b) == 0x100_0000 * (b[0] as int) + 0x1_0000 * (b[1] as int) + 0x100 * (b[2] as int) + b[3]
    ensures |b| == 8 ==>
              Decode(b) == 0x1_0000_0000 * Decode(b[..4]) + Decode(b[4..])
  {
    if |b| == 2 {
      DecodeStep(b);
      DecodeStep(b[..1]);
    } else if |b| == 4 {
      DecodeStep(b);
      DecodeStep(b[..3]);
      DecodeStep(b[..3][..2]);
      DecodeStep(b[..3][..2][..1]);
    } else if |b| == 8 {
      DecodeSplit(b[..4], b[4..]);
      assert b[..4] + b[4..] == b;
      Limits();
    }
  }

  lemma DecodeStep(b: Bytes)
    requires b != []
    ensures Decode(b) == 0x100 * Decode(b[..|b| - 1]) + b[|b| - 1]
    ensures |b| == 1 ==> Decode(b) == b[0]
  {
  }

  lemma {:induction false} DecodeSplit(a: Bytes, b: Bytes)
    ensures Decode(a + b) == Limit(|b|) * Decode(a) + Decode(b)
  {
    if b == [] {
      assert a + b == a;
    } else {
      var n := |b| - 1;
      assert Limit(n + 1) == 256 * Limit(n);
      DecodeStep(b);
      DecodeStep(a + b);
      assert (a + b)[..|a + b| - 1] == a + b[..n] && (a + b)[|a + b| - 1] == b[n];
      hide Decode, Limit;
      DecodeSplit(a, b[..n]);
      MulAssoc(Limit(n), Decode(a));
    }
  }

  lemma MulAssoc(x: nat, y: nat)
    ensures 256 * (x * y) == (256 * x) * y
  {
  }

  lemma Limits()
    ensures Limit(1) == 0x100 && Limit(2) == 0x1_0000
    ensures Limit(4) == 0x1_0000_0000 && Limit(8) == 0x1_0000_0000_0000_0000
  {
    assert Limit(1) == 256 * Limit(0);
    assert Limit(2) == 256 * Limit(1);
    assert Limit(3) == 256 * Limit(2);
    assert Limit(4) == 256 * Limit(3);
    assert Limit(5) == 256 * Limit(4);
    assert Limit(6) == 256 * Limit(5);
    assert Limit(7) == 256 * Limit(6);
    assert Limit(8) == 256 * Limit(7);
  }
}

/** protocol/header.py: the binary frame header, versions 2 and 1. */
module FrameHeaders {
  import opened Common
  import opened BigEndian

  const MAGIC: Bytes := [0x44, 0x52, 0x43, 0x30]         // "DRC0"
  const LEGACY_MAGIC: Bytes := [0x44, 0x52, 0x54, 0x43]  // "DRTC"
  const VERSION := 2
  const LEGACY_VERSION := 1
  const HEADER_SIZE := 26
  const LEGACY_HEADER_SIZE := 16
  const HEADER_PREFIX_SIZE := 6
  const FRAGMENT_INFO_SIZE := 8

  datatype FrameType = DataFrame | AckFrame | ErrorFrame | HeartbeatFrame | EofFrame | ControlFrame

  datatype FragmentInfo = FragmentInfo(index: int, total: int, framePayloadLen: int)

  datatype FrameHeader = FrameHeader(
    frameType: FrameType, sequence: int, nameLen: int, payloadLen: int, timestampNs: int,
    contentType: int, flags: int, version: int, fragment: Option<FragmentInfo>)

  /** `HeaderError` is a ValueError; `ValueError` stands for the ones that are not a HeaderError. */
  datatype Failure = HeaderError | ValueError

  function Code(t: FrameType): (c: nat)
    ensures c <= 5
  {
    match t
    case DataFrame => 0
    case AckFrame => 1
    case ErrorFrame => 2
    case HeartbeatFrame => 3
    case EofFrame => 4
    case ControlFrame => 5
  }

  function FrameTypeOf(code: int): Option<FrameType> {
    if code == 0 then Some(DataFrame)
    else if code == 1 then Some(AckFrame)
    else if code == 2 then Some(ErrorFrame)
    else if code == 3 then Some(HeartbeatFrame)
    else if code == 4 then Some(EofFrame)
    else if code == 5 then Some(ControlFrame)
    else None
  }

  // ---- Flags: the type in the low four bits, then "fragmented" and "more fragments" ----

  function ComposeFlags(t: FrameType, fragmented: bool, more: bool): (f: byte)
  {
    Code(t) + (if fragmented then 0x10 else 0) + (if more then 0x20 else 0)
  }

  predicate IsFragmented(flags: int) {
    flags / 0x10 % 2 == 1
  }

  predicate HasMore(flags: int) {
    flags / 0x20 % 2 == 1
  }

  lemma FlagsRoundTrip(t: FrameType, fragmented: bool, more: bool)
    ensures var f := ComposeFlags(t, fragmented, more);
            FrameTypeOf(f % 0x10) == Some(t) && IsFragmented(f) == fragmented && HasMore(f) == more
  {
  }

  // ---- Serialising ----

  /** `n & 0xFFFF`, `n & 0xFFFFFFFF` and `n & 0xFFFFFFFFFFFFFFFF`. */
  function Mask16(n: int): (r: nat)
    ensures r < 0x1_0000 && (0 <= n <= 0xFFFF ==> r == n)
  {
    n % 0x1_0000
  }

  function Mask32(n: int): (r: nat)
    ensures r < 0x1_0000_0000 && (0 <= n <= 0xFFFF_FFFF ==> r == n)
  {
    n % 0x1_0000_0000
  }

  function Mask64(n: int): (r: nat)
    ensures r < 0x1_0000_0000_0000_0000
  {
    n % 0x1_0000_0000_0000_0000
  }

  predicate ValidFragment(f: FragmentInfo) {
    f.total > 0 && 0 <= f.index < f.total && f.framePayloadLen >= 0
  }

  function Effective(version: int): int {
    if version == 0 then VERSION else version
  }

  function FragmentBytes(f: FragmentInfo): (b: Bytes)
    ensures |b| == FRAGMENT_INFO_SIZE
  {
    Encode(Mask16(f.index), 2) + Encode(Mask16(f.total), 2) + Encode(Mask32(f.framePayloadLen), 4)
  }

  /** Magic, version, flags and the three fields both versions share. */
  function CommonBytes(magic: Bytes, version: byte, flags: byte, h: FrameHeader): (b: Bytes)
    requires |magic| == 4
    ensures |b| == LEGACY_HEADER_SIZE
  {
    magic + [version] + [flags]
    + Encode(Mask32(h.sequence), 4) + Encode(Mask16(h.nameLen), 2) + Encode(Mask32(h.payloadLen), 4)
  }

  function FixedBytes(h: FrameHeader, flags: byte): (b: Bytes)
    ensures |b| == if Effective(h.version) == VERSION then HEADER_SIZE else LEGACY_HEADER_SIZE
  {
    if Effective(h.version) == VERSION then
      CommonBytes(MAGIC, VERSION, flags, h)
      + Encode(Mask64(h.timestampNs), 8) + Encode(Mask16(h.contentType), 2)
    else
      CommonBytes(LEGACY_MAGIC, LEGACY_VERSION, flags, h)
  }

  /** The flags that go out are recomputed from the header's type and fragment. */
  function SentFlags(h: FrameHeader): byte {
    ComposeFlags(h.frameType, h.fragment.Some?, HasMore(h.flags))
  }

  function ToBytes(h: FrameHeader): Result<Bytes, Failure> {
    if h.nameLen < 0 || h.nameLen > 0xFFFF then Err(HeaderError)
    else if h.payloadLen < 0 || h.payloadLen > 0xFFFF_FFFF then Err(HeaderError)
    else if h.timestampNs < 0 then Err(HeaderError)
    else if h.contentType < 0 || h.contentType > 0xFFFF then Err(HeaderError)
    else if h.fragment.Some? && !ValidFragment(h.fragment.value) then Err(ValueError)
    else if Effective(h.version) != VERSION && Effective(h.version) != LEGACY_VERSION then Err(HeaderError)
    else Ok(FixedBytes(h, SentFlags(h)) + if h.fragment.Some? then FragmentBytes(h.fragment.value) else [])
  }

  // ---- Parsing ----

  /** The header length a prefix announces, if its magic and version are known. */
  function HeaderLength(prefix: Bytes, allowLegacy: bool): Option<nat>
    requires |prefix| >= HEADER_PREFIX_SIZE
  {
    var extra := if IsFragmented(prefix[5]) then FRAGMENT_INFO_SIZE else 0;
    if prefix[..4] == MAGIC && prefix[4] == VERSION then Some(HEADER_SIZE + extra)
    else if allowLegacy && prefix[..4] == LEGACY_MAGIC && prefix[4] == LEGACY_VERSION then
      Some(LEGACY_HEADER_SIZE + extra)
    else None
  }

  function FromBytes(raw: Bytes, allowLegacy: bool): Result<FrameHeader, Failure> {
    if |raw| < HEADER_PREFIX_SIZE || HeaderLength(raw, allowLegacy) == None then Err(HeaderError)
    else
      var fixed := if raw[4] == VERSION then HEADER_SIZE else LEGACY_HEADER_SIZE;
      if |raw| < fixed then Err(HeaderError)
      else if FrameTypeOf(raw[5] % 0x10) == None then Err(HeaderError)
      else if |raw| < HeaderLength(raw, allowLegacy).value then Err(HeaderError)
      else
        var fragment :=
          if IsFragmented(raw[5]) then Some(FragmentInfo(
            Decode(raw[fixed..fixed + 2]), Decode(raw[fixed + 2..fixed + 4]), Decode(raw[fixed + 4..fixed + 8])))
          else None;
        if fragment.Some? && !ValidFragment(fragment.value) then Err(ValueError)
        else Ok(FrameHeader(
          FrameTypeOf(raw[5] % 0x10).value,
          Decode(raw[6..10]), Decode(raw[10..12]), Decode(raw[12..16]),
          if raw[4] == VERSION then Decode(raw[16..24]) else 0,
          if raw[4] == VERSION then Decode(raw[24..26]) else 0,
          raw[5], raw[4], fragment))
  }

  // ---- Round trip ----

  /** What a header is read back as: wide numbers are cut to their field, a version 1 header loses
      its timestamp and content type, and the flags are the ones sent. */
  function AsRead(h: FrameHeader): FrameHeader {
    var modern := Effective(h.version) == VERSION;
    FrameHeader(
      h.frameType, Mask32(h.sequence), h.nameLen, h.payloadLen,
      if modern then Mask64(h.timestampNs) else 0,
      if modern then h.contentType else 0,
      SentFlags(h), Effective(h.version),
      if h.fragment.Some? then
        Some(h.fragment.value.(framePayloadLen := Mask32(h.fragment.value.framePayloadLen)))
      else None)
  }

  /** The reader accepts the version and the fragment total fits its 16 bits. */
  predicate Readable(h: FrameHeader, allowLegacy: bool) {
    && (Effective(h.version) == LEGACY_VERSION ==> allowLegacy)
    && (h.fragment.Some? ==> h.fragment.value.total <= 0xFFFF)
  }

  /** A packed integer is read back from wherever it was put. */
  lemma FieldAt(before: Bytes, n: nat, width: nat, after: Bytes)
    requires n < Limit(width)
    ensures Decode((before + Encode(n, width) + after)[|before|..|before| + width]) == n
  {
    RoundTrip(n, width);
    assert (before + Encode(n, width) + after)[|before|..|before| + width] == Encode(n, width);
  }

  lemma CommonFields(magic: Bytes, version: byte, flags: byte, h: FrameHeader, rest: Bytes)
    requires |magic| == 4 && 0 <= h.nameLen <= 0xFFFF && 0 <= h.payloadLen <= 0xFFFF_FFFF
    ensures var raw := CommonBytes(magic, version, flags, h) + rest;
            && raw[..4] == magic && raw[4] == version && raw[5] == flags
            && Decode(raw[6..10]) == Mask32(h.sequence)
            && Decode(raw[10..12]) == h.nameLen && Decode(raw[12..16]) == h.payloadLen
  {
    Limits();
    hide Encode, Decode, Limit, Mask16, Mask32, Mask64;
    var prefix := magic + [version] + [flags];
    var s := Encode(Mask32(h.sequence), 4);
    var n := Encode(h.nameLen, 2);
    var p := Encode(h.payloadLen, 4);
    var raw := CommonBytes(magic, version, flags, h) + rest;
    FieldAt(prefix, Mask32(h.sequence), 4, n + p + rest);
    assert raw == prefix + s + (n + p + rest);
    FieldAt(prefix + s, h.nameLen, 2, p + rest);
    assert raw == prefix + s + n + (p + rest);
    FieldAt(prefix + s + n, h.payloadLen, 4, rest);
    assert raw == prefix + s + n + p + rest;
  }

  lemma FragmentFields(before: Bytes, f: FragmentInfo)
    requires ValidFragment(f) && f.total <= 0xFFFF
    ensures var raw := before + FragmentBytes(f);
            var n := |before|;
            && Decode(raw[n..n + 2]) == f.index && Decode(raw[n + 2..n + 4]) == f.total
            && Decode(raw[n + 4..n + 8]) == Mask32(f.framePayloadLen)
  {
    Limits();
    hide Encode, Decode, Limit, Mask16, Mask32, Mask64;
    var i := Encode(f.index, 2);
    var t := Encode(f.total, 2);
    var l := Encode(Mask32(f.framePayloadLen), 4);
    var raw := before + FragmentBytes(f);
    FieldAt(before, f.index, 2, t + l);
    assert raw == before + i + (t + l);
    FieldAt(before + i, f.total, 2, l);
    assert raw == before + i + t + l;
    FieldAt(before + i + t, Mask32(f.framePayloadLen), 4, []);
    assert raw == before + i + t + l + [];
  }

  lemma MetadataFields(before: Bytes, timestamp: nat, contentType: nat, rest: Bytes)
    requires |before| == 16 && timestamp < 0x1_0000_0000_0000_0000 && contentType <= 0xFFFF
    ensures var raw := before + Encode(timestamp, 8) + Encode(contentType, 2) + rest;
            Decode(raw[16..24]) == timestamp && Decode(raw[24..26]) == contentType
  {
    Limits();
    hide Encode, Decode, Limit, Mask16, Mask32, Mask64;
    var t := Encode(timestamp, 8);
    var c := Encode(contentType, 2);
    FieldAt(before, timestamp, 8, c + rest);
    assert before + t + c + rest == before + t + (c + rest);
    FieldAt(before + t, contentType, 2, rest);
  }

  lemma ModernFields(h: FrameHeader, flags: byte, tail: Bytes)
    requires Effective(h.version) == VERSION
    requires 0 <= h.nameLen <= 0xFFFF && 0 <= h.payloadLen <= 0xFFFF_FFFF && 0 <= h.contentType <= 0xFFFF
    ensures var raw := FixedBytes(h, flags) + tail;
            && raw[..4] == MAGIC && raw[4] == VERSION && raw[5] == flags
            && Decode(raw[6..10]) == Mask32(h.sequence)
            && Decode(raw[10..12]) == h.nameLen && Decode(raw[12..16]) == h.payloadLen
            && Decode(raw[16..24]) == Mask64(h.timestampNs)
            && Decode(raw[24..26]) == h.contentType
  {
    var common := CommonBytes(MAGIC, VERSION, flags, h);
    var t := Mask64(h.timestampNs);
    hide Encode, Decode, CommonBytes, Mask16, Mask32, Mask64;
    CommonFields(MAGIC, VERSION, flags, h, Encode(t, 8) + Encode(h.contentType, 2) + tail);
    MetadataFields(common, t, h.contentType, tail);
    assert FixedBytes(h, flags) + tail == common + (Encode(t, 8) + Encode(h.contentType, 2) + tail);
    assert FixedBytes(h, flags) + tail == common + Encode(t, 8) + Encode(h.contentType, 2) + tail;
  }

  /** The fixed part of a serialised header, whatever follows it. */
  lemma FixedFields(h: FrameHeader, tail: Bytes)
    requires ToBytes(h).Ok?
    ensures var raw := FixedBytes(h, SentFlags(h)) + tail;
            var modern := Effective(h.version) == VERSION;
            && raw[..4] == (if modern then MAGIC else LEGACY_MAGIC)
            && raw[4] == Effective(h.version) && raw[5] == SentFlags(h)
            && Decode(raw[6..10]) == AsRead(h).sequence
            && Decode(raw[10..12]) == AsRead(h).nameLen && Decode(raw[12..16]) == AsRead(h).payloadLen
            && (modern ==> Decode(raw[16..24]) == AsRead(h).timestampNs && Decode(raw[24..26]) == AsRead(h).contentType)
  {
    hide Encode, Decode, CommonBytes, ComposeFlags, Mask16, Mask32, Mask64;
    if Effective(h.version) == VERSION {
      ModernFields(h, SentFlags(h), tail);
    } else {
      CommonFields(LEGACY_MAGIC, LEGACY_VERSION, SentFlags(h), h, tail);
    }
  }

  lemma OwnLength(h: FrameHeader, allowLegacy: bool)
    requires ToBytes(h).Ok? && (Effective(h.version) == LEGACY_VERSION ==> allowLegacy)
    ensures var raw := ToBytes(h).value;
            && |raw| >= HEADER_PREFIX_SIZE && HeaderLength(raw, allowLegacy) == Some(|raw|)
            && FrameTypeOf(raw[5] % 0x10) == Some(h.frameType) && IsFragmented(raw[5]) == h.fragment.Some?
  {
    FlagsRoundTrip(h.frameType, h.fragment.Some?, HasMore(h.flags));
    FixedFields(h, if h.fragment.Some? then FragmentBytes(h.fragment.value) else []);
    hide Encode, Decode, FragmentBytes, FixedBytes, Mask16, Mask32, Mask64, ComposeFlags, IsFragmented, HasMore, Code, FrameTypeOf;
  }

  /** What the parser makes of bytes whose fields are known. */
  lemma ReadBack(raw: Bytes, h: FrameHeader, allowLegacy: bool)
    requires ToBytes(h).Ok? && |raw| >= HEADER_PREFIX_SIZE && HeaderLength(raw, allowLegacy) == Some(|raw|)
    requires FrameTypeOf(raw[5] % 0x10) == Some(h.frameType) && IsFragmented(raw[5]) == h.fragment.Some?
    requires raw[4] == Effective(h.version) && raw[5] == SentFlags(h)
    requires |raw| == FixedSize(h) + if h.fragment.Some? then FRAGMENT_INFO_SIZE else 0
    requires var r := AsRead(h);
             && Decode(raw[6..10]) == r.sequence && Decode(raw[10..12]) == r.nameLen
             && Decode(raw[12..16]) == r.payloadLen
             && (r.version == VERSION ==>
                   Decode(raw[16..24]) == r.timestampNs && Decode(raw[24..26]) == r.contentType)
    requires h.fragment.Some? ==>
               var n, f := FixedSize(h), AsRead(h).fragment.value;
               && Decode(raw[n..n + 2]) == f.index && Decode(raw[n + 2..n + 4]) == f.total
               && Decode(raw[n + 4..n + 8]) == f.framePayloadLen
    ensures FromBytes(raw, allowLegacy) == Ok(AsRead(h))
  {
    hide Decode, Mask32, Mask64, SentFlags, IsFragmented, FrameTypeOf, HeaderLength, FixedBytes, FragmentBytes;
  }

  function FixedSize(h: FrameHeader): nat {
    if Effective(h.version) == VERSION then HEADER_SIZE else LEGACY_HEADER_SIZE
  }

  /** Every header that serialises and is readable comes back as `AsRead`, and its own first six
      bytes announce its length. */
  lemma HeaderRoundTrip(h: FrameHeader, allowLegacy: bool)
    requires ToBytes(h).Ok? && Readable(h, allowLegacy)
    ensures var raw := ToBytes(h).value;
            && |raw| >= HEADER_PREFIX_SIZE && HeaderLength(raw, allowLegacy) == Some(|raw|)
            && FromBytes(raw, allowLegacy) == Ok(AsRead(h))
  {
    var fixed := FixedBytes(h, SentFlags(h));
    var tail := if h.fragment.Some? then FragmentBytes(h.fragment.value) else [];
    assert ToBytes(h).value == fixed + tail;
    OwnLength(h, allowLegacy);
    FixedFields(h, tail);
    if h.fragment.Some? {
      FragmentFields(fixed, h.fragment.value);
    }
    hide Decode, FragmentBytes, FixedBytes, Mask32, Mask64, SentFlags, IsFragmented, FrameTypeOf, HeaderLength, FromBytes, ToBytes;
    ReadBack(fixed + tail, h, allowLegacy);
  }

  // ---- The layout, and what is refused ----

  /** A header is written exactly when its numbers fit; the fragment is looked at before the version. */
  lemma WrittenIff(h: FrameHeader)
    ensures ToBytes(h).Ok? <==>
            && 0 <= h.nameLen <= 65535 && 0 <= h.payloadLen <= 4294967295
            && h.timestampNs >= 0 && 0 <= h.contentType <= 65535 && h.version in {0, 1, 2}
            && (h.fragment.Some? ==>
                  0 <= h.fragment.value.index < h.fragment.value.total && h.fragment.value.framePayloadLen >= 0)
    ensures ToBytes(h) == Err(ValueError) <==>
            && 0 <= h.nameLen <= 65535 && 0 <= h.payloadLen <= 4294967295
            && h.timestampNs >= 0 && 0 <= h.contentType <= 65535 && h.fragment.Some?
            && !(0 <= h.fragment.value.index < h.fragment.value.total && h.fragment.value.framePayloadLen >= 0)
  {
    hide FixedBytes, FragmentBytes, SentFlags;
  }

  /** Magic, version and flags in the first six bytes, as the constants of the format have them. */
  lemma PrefixLayout(h: FrameHeader)
    requires ToBytes(h).Ok?
    ensures var raw := ToBytes(h).value;
            var code := match h.frameType
                        case DataFrame => 0 case AckFrame => 1 case ErrorFrame => 2
                        case HeartbeatFrame => 3 case EofFrame => 4 case ControlFrame => 5;
            && |raw| == (if h.version == 1 then 16 else 26) + (if h.fragment.Some? then 8 else 0)
            && raw[..4] == (if h.version == 1 then [0x44, 0x52, 0x54, 0x43] else [0x44, 0x52, 0x43, 0x30])
            && raw[4] == (if h.version == 1 then 1 else 2)
            && raw[5] == code + (if h.fragment.Some? then 16 else 0) + (if h.flags / 32 % 2 == 1 then 32 else 0)
  {
    FixedFields(h, if h.fragment.Some? then FragmentBytes(h.fragment.value) else []);
    hide Encode, Decode, FragmentBytes, FixedBytes, Mask16, Mask32, Mask64;
  }

  /** Where the numbers stand: sequence at 6, name length at 10, payload length at 12; in version 2 the
      timestamp at 16 and the content type at 24; the fragment's index, total and frame length last. */
  lemma FieldLayout(h: FrameHeader)
    requires ToBytes(h).Ok? && (h.fragment.Some? ==> h.fragment.value.total <= 65535)
    ensures var raw := ToBytes(h).value;
            && |raw| == (if h.version == 1 then 16 else 26) + (if h.fragment.Some? then 8 else 0)
            && Decode(raw[6..10]) == h.sequence % 4294967296
            && Decode(raw[10..12]) == h.nameLen && Decode(raw[12..16]) == h.payloadLen
            && (h.version != 1 ==>
                  && Decode(raw[16..24]) == h.timestampNs % 18446744073709551616
                  && Decode(raw[24..26]) == h.contentType)
            && (h.fragment.Some? ==>
                  var n := |raw| - 8;
                  && Decode(raw[n..n + 2]) == h.fragment.value.index
                  && Decode(raw[n + 2..n + 4]) == h.fragment.value.total
                  && Decode(raw[n + 4..n + 8]) == h.fragment.value.framePayloadLen % 4294967296)
  {
    FixedFields(h, if h.fragment.Some? then FragmentBytes(h.fragment.value) else []);
    if h.fragment.Some? {
      FragmentFields(FixedBytes(h, SentFlags(h)), h.fragment.value);
    }
    hide Encode, Decode, FragmentBytes, FixedBytes, SentFlags, Code;
  }

  /** A prefix is accepted exactly with version 2 and its magic, or, where allowed, version 1 and its. */
  predicate Accepted(prefix: Bytes, allowLegacy: bool)
    requires |prefix| >= 6
  {
    || (prefix[..4] == [0x44, 0x52, 0x43, 0x30] && prefix[4] == 2)
    || (allowLegacy && prefix[..4] == [0x44, 0x52, 0x54, 0x43] && prefix[4] == 1)
  }

  function AnnouncedLength(prefix: Bytes): nat
    requires |prefix| >= 6
  {
    (if prefix[4] == 1 then 16 else 26) + (if prefix[5] / 16 % 2 == 1 then 8 else 0)
  }

  lemma AcceptedIff(prefix: Bytes, allowLegacy: bool)
    requires |prefix| >= 6
    ensures HeaderLength(prefix, allowLegacy) ==
              if Accepted(prefix, allowLegacy) then Some(AnnouncedLength(prefix)) else None
  {
  }

  /** The type in the low four bits is one of the six. */
  predicate KnownType(flags: int) {
    flags % 16 <= 5
  }

  /** The fragment block at `n` can be that of a fragment: an index below a total that is not 0. */
  predicate FragmentReadable(raw: Bytes, n: nat)
    requires n + 8 <= |raw|
  {
    Decode(raw[n..n + 2]) < Decode(raw[n + 2..n + 4])
  }

  /** What the parser says of a header of the announced length. */
  lemma ReadIff(raw: Bytes, allowLegacy: bool)
    requires |raw| >= 6 && Accepted(raw, allowLegacy) && |raw| == AnnouncedLength(raw)
    ensures FromBytes(raw, allowLegacy) == Err(HeaderError) <==> !KnownType(raw[5])
    ensures FromBytes(raw, allowLegacy) == Err(ValueError) <==>
            KnownType(raw[5]) && raw[5] / 16 % 2 == 1 && !FragmentReadable(raw, |raw| - 8)
    ensures FromBytes(raw, allowLegacy).Ok? ==>
              var h := FromBytes(raw, allowLegacy).value;
              h.nameLen == Decode(raw[10..12]) && h.payloadLen == Decode(raw[12..16])
  {
    AcceptedIff(raw, allowLegacy);
    hide HeaderLength, Decode;
  }
}
