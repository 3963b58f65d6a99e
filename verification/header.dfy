/**
 * The glyph-bundle header decoder of GoogleBackendService (`parseHeader_`).
 *
 * A response starts with a 32-byte big-endian header: the ASCII magic "BSAC",
 * version major and minor bytes, two reserved bytes, a 20-byte signature, a
 * 16-bit glyph count and 16-bit flags; the glyph payload follows at offset 32.
 * The decoder does no length check of its own: a read past the end of the
 * buffer makes the DataView throw a RangeError, modelled as `OutOfRange`.
 */
module GlyphBundleHeader {
  import opened Results
  import Radix
  import Strings

  type Byte = x: int | 0 <= x < 256

  const Magic: string := "BSAC"
  const MagicBytes: seq<Byte> := [66, 83, 65, 67]
  const HeaderSize: nat := 32

  /** The two ways decoding fails: a wrong magic (carrying the four characters read) or a read past the end. */
  datatype HeaderError = BadMagic(magic: string) | OutOfRange

  /** What a successful decode hands back: the header fields, the payload offset and the whole buffer. */
  datatype GlyphBundleResponse = GlyphBundleResponse(
    version: string,
    signature: string,
    count: nat,
    flags: nat,
    offset: nat,
    glyphData: seq<Byte>)

  /** DataView.getUint8: the byte at `offset`, or a RangeError past the end. */
  function GetUint8(buf: seq<Byte>, offset: nat): (r: Result<Byte, HeaderError>)
    ensures r.Success? <==> offset < |buf|
    ensures r.Success? ==> r.value == buf[offset]
    ensures r.Failure? ==> r.error == OutOfRange
  {
    if offset < |buf| then Success(buf[offset]) else Failure(OutOfRange)
  }

  /** DataView.getUint16 in its default big-endian order, or a RangeError when the two bytes are not both inside. */
  function GetUint16(buf: seq<Byte>, offset: nat): (r: Result<nat, HeaderError>)
    ensures r.Success? <==> offset + 2 <= |buf|
    ensures r.Success? ==> r.value < 0x1_0000 && Uint16Bytes(r.value) == buf[offset..offset + 2]
    ensures r.Failure? ==> r.error == OutOfRange
  {
    if offset + 2 <= |buf| then Success((buf[offset] as nat) * 256 + buf[offset + 1])
    else Failure(OutOfRange)
  }

  /** The big-endian two bytes of a 16-bit value. */
  function Uint16Bytes(v: nat): seq<Byte>
    requires v < 0x1_0000
  {
    [v / 256, v % 256]
  }

  /** String.fromCharCode applied to each byte. */
  function AsChars(bytes: seq<Byte>): (r: string)
    ensures |r| == |bytes|
    ensures forall i :: 0 <= i < |r| ==> r[i] as int == bytes[i]
  {
    seq(|bytes|, i requires 0 <= i < |bytes| => bytes[i] as char)
  }

  /** The four characters the magic loop builds from bytes 0..3. */
  function MagicOf(buf: seq<Byte>): string
    requires |buf| >= 4
  {
    AsChars(buf[..4])
  }

  /** The magic characters are "BSAC" exactly when the first four bytes are its ASCII codes. */
  lemma MagicMatches(buf: seq<Byte>)
    requires |buf| >= 4
    ensures MagicOf(buf) == Magic <==> buf[..4] == MagicBytes
  {
  }

  /** The version text: the decimal major, a dot, the decimal minor. */
  function VersionString(major: Byte, minor: Byte): (r: string)
    ensures var k := |Radix.ToRadix(major, 10)|;
      && 1 <= k < |r| - 1
      && r[k] == '.'
      && forall i :: 0 <= i < |r| && i != k ==> Radix.IsDigit(r[i], 10)
  {
    Radix.ToRadix(major, 10) + "." + Radix.ToRadix(minor, 10)
  }

  /** A lower-case hexadecimal digit. */
  predicate IsLowerHexDigit(c: char)
  {
    '0' <= c <= '9' || 'a' <= c <= 'f'
  }

  /**
   * The signature text: each byte in lower-case hex WITHOUT padding,
   * concatenated, so each byte adds one or two digits.
   */
  function SignatureHex(bytes: seq<Byte>): (r: string)
    ensures |bytes| <= |r| <= 2 * |bytes|
    ensures forall i :: 0 <= i < |r| ==> IsLowerHexDigit(r[i])
  {
    if |bytes| == 0 then ""
    else
      HexOfByte(bytes[|bytes| - 1]);
      SignatureHex(bytes[..|bytes| - 1]) + Radix.ToRadix(bytes[|bytes| - 1], 16)
  }

  /** One byte in hex is one or two lower-case hex digits. */
  lemma HexOfByte(b: Byte)
    ensures 1 <= |Radix.ToRadix(b, 16)| <= 2
    ensures forall i :: 0 <= i < |Radix.ToRadix(b, 16)| ==> IsLowerHexDigit(Radix.ToRadix(b, 16)[i])
  {
  }

  /**
   * The header layout read declaratively, in the order failures surface: fewer
   * than 4 bytes fail before the magic is compared; a wrong magic fails with the
   * four characters read; a right magic with fewer than 32 bytes fails on a read
   * past the end; otherwise the fields sit at their fixed offsets.
   */
  function HeaderLayout(glyphData: seq<Byte>): (r: Result<GlyphBundleResponse, HeaderError>)
    ensures r.Success? <==> |glyphData| >= HeaderSize && glyphData[..4] == MagicBytes
    ensures r.Failure? && r.error.BadMagic? <==> |glyphData| >= 4 && glyphData[..4] != MagicBytes
    ensures r.Failure? && r.error.BadMagic? ==> r.error.magic == AsChars(glyphData[..4])
    ensures r.Success? ==> r.value.offset == HeaderSize && r.value.glyphData == glyphData
    ensures r.Success? ==> r.value.count < 0x1_0000 && Uint16Bytes(r.value.count) == glyphData[28..30]
    ensures r.Success? ==> r.value.flags < 0x1_0000 && Uint16Bytes(r.value.flags) == glyphData[30..32]
  {
    if |glyphData| >= 4 then MagicMatches(glyphData); HeaderFields(glyphData) else Failure(OutOfRange)
  }

  /** The layout once at least four bytes are known to be there. */
  function HeaderFields(glyphData: seq<Byte>): Result<GlyphBundleResponse, HeaderError>
    requires |glyphData| >= 4
  {
    if MagicOf(glyphData) != Magic then Failure(BadMagic(MagicOf(glyphData)))
    else if |glyphData| < HeaderSize then Failure(OutOfRange)
    else Success(GlyphBundleResponse(
      VersionString(glyphData[4], glyphData[5]),
      SignatureHex(glyphData[8..28]),
      (glyphData[28] as nat) * 256 + glyphData[29],
      (glyphData[30] as nat) * 256 + glyphData[31],
      HeaderSize,
      glyphData))
  }

  /** The magic loop: four one-byte reads from offset 0, each turned into a character. */
  method ReadMagic(glyphData: seq<Byte>) returns (r: Result<string, HeaderError>)
    ensures |glyphData| >= 4 ==> r == Success(MagicOf(glyphData))
    ensures |glyphData| < 4 ==> r == Failure(OutOfRange)
  {
    var magicNumber := "";
    for i := 0 to 4
      invariant i <= |glyphData|
      invariant magicNumber == AsChars(glyphData[..i])
    {
      var b :- GetUint8(glyphData, i);
      assert glyphData[..i + 1] == glyphData[..i] + [b];
      magicNumber := magicNumber + [b as char];
    }
    return Success(magicNumber);
  }

  /** The signature loop: twenty one-byte reads from offset 8, each appended in unpadded hex. */
  method ReadSignature(glyphData: seq<Byte>) returns (r: Result<string, HeaderError>)
    ensures |glyphData| >= 28 ==> r == Success(SignatureHex(glyphData[8..28]))
    ensures |glyphData| < 28 ==> r == Failure(OutOfRange)
  {
    var signature := "";
    for i := 0 to 20
      invariant i > 0 ==> 8 + i <= |glyphData|
      invariant signature == if i == 0 then "" else SignatureHex(glyphData[8..8 + i])
    {
      var b :- GetUint8(glyphData, 8 + i);
      assert glyphData[8..8 + i + 1][..i] == glyphData[8..8 + i];
      signature := signature + Radix.ToRadix(b, 16);
    }
    return Success(signature);
  }

  /**
   * `parseHeader_`: reads the magic; on "BSAC" reads the version bytes at 4
   * and 5, skips the reserved bytes 6 and 7, reads the signature, then the
   * count at 28 and the flags at 30, and records offset 32 where it stopped.
   * Every read past the end throws, which ends the decode.
   */
  method ParseHeader(glyphData: seq<Byte>) returns (r: Result<GlyphBundleResponse, HeaderError>)
    ensures r == HeaderLayout(glyphData)
    ensures |glyphData| < 4 ==> r == Failure(OutOfRange)
    ensures |glyphData| >= 4 && glyphData[..4] != MagicBytes ==> r == Failure(BadMagic(AsChars(glyphData[..4])))
    ensures |glyphData| >= 4 && glyphData[..4] == MagicBytes && |glyphData| < HeaderSize ==> r == Failure(OutOfRange)
    ensures r.Success? <==> |glyphData| >= HeaderSize && glyphData[..4] == MagicBytes
  {
    var magicNumber :- ReadMagic(glyphData);
    MagicMatches(glyphData);
    if magicNumber == Magic {
      var major :- GetUint8(glyphData, 4);
      var minor :- GetUint8(glyphData, 5);
      var version := VersionString(major, minor);
      var signature :- ReadSignature(glyphData);
      var count :- GetUint16(glyphData, 28);
      var flags :- GetUint16(glyphData, 30);
      r := Success(GlyphBundleResponse(version, signature, count, flags, HeaderSize, glyphData));
    } else {
      r := Failure(BadMagic(magicNumber));
    }
  }

  /** Reads a version text back into its major and minor numbers. */
  function ParseVersion(version: string): Option<(nat, nat)>
  {
    var parts :- Strings.SplitFirst(version, '.');
    var major :- Radix.FromRadix(parts.0, 10);
    var minor :- Radix.FromRadix(parts.1, 10);
    Some((major, minor))
  }

  /** The version text names its two bytes unambiguously. */
  lemma {:induction false} VersionRoundTrip(major: Byte, minor: Byte)
    ensures ParseVersion(VersionString(major, minor)) == Some((major as nat, minor as nat))
  {
    var a, b := Radix.ToRadix(major, 10), Radix.ToRadix(minor, 10);
    assert '.' !in a;
    assert VersionString(major, minor) == a + ['.'] + b;
    Strings.SplitFirstJoin(a, '.', b);
    Radix.FromToRadix(major, 10);
    Radix.FromToRadix(minor, 10);
  }

  /** The signature text of a concatenation is the concatenation of the texts. */
  lemma {:induction false} SignatureHexAppend(a: seq<Byte>, b: seq<Byte>)
    ensures SignatureHex(a + b) == SignatureHex(a) + SignatureHex(b)
    decreases |b|
  {
    if |b| > 0 {
      var n := |b| - 1;
      var p, x := b[..n], b[n];
      SplitLastByte(a, b);
      SignatureHexSnoc(p, x);
      SignatureHexSnoc(a + p, x);
      SignatureHexAppend(a, p);
    } else {
      assert a + b == a;
    }
  }

  /** A non-empty tail splits off its last byte, alone and after a prefix. */
  lemma SplitLastByte(a: seq<Byte>, b: seq<Byte>)
    requires |b| > 0
    ensures b == b[..|b| - 1] + [b[|b| - 1]]
    ensures a + b == (a + b[..|b| - 1]) + [b[|b| - 1]]
  {
  }

  /** Appending one byte appends its hex digits. */
  lemma SignatureHexSnoc(p: seq<Byte>, x: Byte)
    ensures SignatureHex(p + [x]) == SignatureHex(p) + Radix.ToRadix(x, 16)
  {
  }

  /** All-zero signature bytes render as one '0' per byte, not two. */
  lemma {:induction false} SignatureOfZeros(n: nat)
    ensures SignatureHex(seq(n, _ => 0)) == seq(n, _ => '0')
  {
    if n > 0 {
      var z: seq<Byte> := seq(n, _ => 0);
      assert z[..n - 1] == seq(n - 1, _ => 0);
      SignatureOfZeros(n - 1);
      assert Radix.ToRadix(0, 16) == "0";
      assert seq(n - 1, _ => '0') + "0" == seq(n, _ => '0');
    }
  }

  /** The signature text of two bytes. */
  lemma SignatureHexPair(x: Byte, y: Byte)
    ensures SignatureHex([x, y]) == Radix.ToRadix(x, 16) + Radix.ToRadix(y, 16)
  {
  }

  /** Without padding, the byte pair 1, 17 and the byte pair 17, 1 both render as "111". */
  lemma SignatureCollision(tail: seq<Byte>)
    ensures [1, 17] + tail != [17, 1] + tail
    ensures SignatureHex([1, 17] + tail) == SignatureHex([17, 1] + tail)
  {
    assert ([1, 17] + tail)[0] != ([17, 1] + tail)[0];
    assert Radix.ToRadix(1, 16) == "1";
    assert Radix.ToRadix(17, 16) == "11";
    SignatureHexPair(1, 17);
    SignatureHexPair(17, 1);
    SignatureHexAppend([1, 17], tail);
    SignatureHexAppend([17, 1], tail);
  }

  /** On success, the signature text is 20 to 40 lower-case hex digits. */
  lemma DecodedSignatureLength(glyphData: seq<Byte>)
    requires HeaderLayout(glyphData).Success?
    ensures 20 <= |HeaderLayout(glyphData).value.signature| <= 40
    ensures forall i :: 0 <= i < |HeaderLayout(glyphData).value.signature| ==>
      IsLowerHexDigit(HeaderLayout(glyphData).value.signature[i])
  {
  }

  /** On success, the version text gives bytes 4 and 5 back. */
  lemma DecodedVersion(glyphData: seq<Byte>)
    requires HeaderLayout(glyphData).Success?
    ensures ParseVersion(HeaderLayout(glyphData).value.version) == Some((glyphData[4] as nat, glyphData[5] as nat))
  {
    VersionRoundTrip(glyphData[4], glyphData[5]);
  }

  /** On success, the version and signature texts are exactly those of bytes 4, 5 and 8 to 27. */
  lemma DecodedTexts(glyphData: seq<Byte>)
    requires HeaderLayout(glyphData).Success?
    ensures HeaderLayout(glyphData).value.version == VersionString(glyphData[4], glyphData[5])
    ensures HeaderLayout(glyphData).value.signature == SignatureHex(glyphData[8..28])
  {
  }

  /** A decode result with the buffer reference dropped: what the header says. */
  function HeaderPart(r: Result<GlyphBundleResponse, HeaderError>): Result<GlyphBundleResponse, HeaderError>
  {
    if r.Success? then Success(r.value.(glyphData := [])) else r
  }

  /** The reserved bytes 6 and 7 never influence the decode. */
  lemma ReservedBytesIgnored(a: seq<Byte>, b: seq<Byte>)
    requires |a| == |b|
    requires forall i :: 0 <= i < |a| && i != 6 && i != 7 ==> a[i] == b[i]
    ensures HeaderPart(HeaderLayout(a)) == HeaderPart(HeaderLayout(b))
  {
    if |a| >= 4 {
      assert a[..4] == b[..4];
    }
    if |a| >= HeaderSize {
      assert a[8..28] == b[8..28];
      assert a[4] == b[4] && a[5] == b[5];
      assert a[28] == b[28] && a[29] == b[29] && a[30] == b[30] && a[31] == b[31];
    }
  }

  /** Bytes from offset 32 on never influence the header. */
  lemma PayloadIgnored(a: seq<Byte>, b: seq<Byte>)
    requires |a| >= HeaderSize && |b| >= HeaderSize
    requires a[..HeaderSize] == b[..HeaderSize]
    ensures HeaderPart(HeaderLayout(a)) == HeaderPart(HeaderLayout(b))
  {
    assert forall i :: 0 <= i < HeaderSize ==> a[i] == a[..HeaderSize][i] == b[i];
    assert a[..4] == b[..4];
    assert a[8..28] == b[8..28];
  }

  /** The 32 header bytes a server writes for the given fields. */
  function EncodeHeader(major: Byte, minor: Byte, reserved: seq<Byte>, signature: seq<Byte>, count: nat, flags: nat): seq<Byte>
    requires |reserved| == 2 && |signature| == 20
    requires count < 0x1_0000 && flags < 0x1_0000
  {
    MagicBytes + [major, minor] + reserved + signature + Uint16Bytes(count) + Uint16Bytes(flags)
  }

  /** Decoding an encoded header followed by any payload gives the fields back, with offset 32 and the buffer itself. */
  lemma ParseEncodedHeader(major: Byte, minor: Byte, reserved: seq<Byte>, signature: seq<Byte>,
                           count: nat, flags: nat, payload: seq<Byte>)
    requires |reserved| == 2 && |signature| == 20
    requires count < 0x1_0000 && flags < 0x1_0000
    ensures HeaderLayout(EncodeHeader(major, minor, reserved, signature, count, flags) + payload)
         == Success(GlyphBundleResponse(VersionString(major, minor), SignatureHex(signature), count, flags,
                                        HeaderSize, EncodeHeader(major, minor, reserved, signature, count, flags) + payload))
  {
    var buf := EncodeHeader(major, minor, reserved, signature, count, flags) + payload;
    EncodedBytes(major, minor, reserved, signature, count, flags, payload);
    MagicMatches(buf);
  }

  /** Where each field lands in an encoded header followed by a payload. */
  lemma EncodedBytes(major: Byte, minor: Byte, reserved: seq<Byte>, signature: seq<Byte>,
                     count: nat, flags: nat, payload: seq<Byte>)
    requires |reserved| == 2 && |signature| == 20
    requires count < 0x1_0000 && flags < 0x1_0000
    ensures var buf := EncodeHeader(major, minor, reserved, signature, count, flags) + payload;
      && |buf| >= HeaderSize
      && buf[..4] == MagicBytes
      && buf[4] == major && buf[5] == minor
      && buf[8..28] == signature
      && (buf[28] as nat) * 256 + buf[29] == count
      && (buf[30] as nat) * 256 + buf[31] == flags
  {
  }

  /**
   * Version bytes 1 and 0, twenty zero signature bytes, count 5 and flags 0
   * decode to version "1.0", a signature of twenty '0's, count 5.
   */
  lemma ZeroSignatureExample(reserved: seq<Byte>, payload: seq<Byte>)
    requires |reserved| == 2
    ensures var buf := EncodeHeader(1, 0, reserved, seq(20, _ => 0), 5, 0) + payload;
      HeaderLayout(buf) == Success(GlyphBundleResponse("1.0", seq(20, _ => '0'), 5, 0, 32, buf))
  {
    ParseEncodedHeader(1, 0, reserved, seq(20, _ => 0), 5, 0, payload);
    SignatureOfZeros(20);
    assert Radix.ToRadix(1, 10) == "1" && Radix.ToRadix(0, 10) == "0";
    assert VersionString(1, 0) == "1.0";
  }
}
