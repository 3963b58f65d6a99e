# TachyFont GoogleBackendService, modelled in Dafny

TachyFont's Google backend client does three pieces of pure work around its
network calls, and this project models each of them and proves what they
promise:

- **Header decoding** (`parseHeader_`). A glyph-bundle response begins with
  a fixed 32-byte big-endian header:
  - the magic `BSAC`;
  - version major and minor bytes;
  - two reserved bytes;
  - a 20-byte signature;
  - a 16-bit glyph count and 16-bit flags.

  The decoder turns it into a `GlyphBundleResponse` that holds the payload
  offset 32 and the original buffer. It fails with `BadMagic` carrying the
  four characters read, or with `OutOfRange` when a `DataView` read runs
  past the end of the buffer (the RangeError of section 25.3.1.5 of
  ECMA-262). Module `GlyphBundleHeader` (`header.dfy`).
- **Code-point list compression** (`compressedGlyphsList_`). Every
  code point 45 (hyphen-minus) moves to the front, and the rest keep their
  order. Module `GlyphList` (`glyphlist.dfy`).
- **Data URL building** (`getDataUrl_`). The URL has the shape
  `{baseUrl}/{prefix}/{segment}/{version}/{fontKit}.{suffix}`. The segment
  is the family path, or, when that is empty, the family name with its
  spaces removed and lower-cased. Module `DataUrl` (`url.dfy`). The two
  request kinds, glyphs (`g`, `glyphs`) and framework (`t`, `framework`),
  are in module `GoogleBackendService` (`backend.dfy`).

Supporting modules:

- `Results` (`results.dfy`): `Option` and `Result`.
- `Radix` (`radix.dfy`): JavaScript's `Number.prototype.toString(radix)` on
  naturals, with its inverse.
- `Strings` (`strings.dfy`): splitting at the first or last separator, used
  by the inverses.

Each operation has a partner and a lemma that ties the two together:

- The header decoder is a method with the source's loops. It is proved
  equal to `HeaderLayout`, a declarative reference definition. That
  definition is in turn proved to invert `EncodeHeader`, which is what a
  server writes.
- The compressor is proved to be a stable partition and a permutation, and
  to be idempotent.
- The URL builder is inverted by `ParseDataUrl` whenever no component
  holds its separator.

**Two consequences of the code as written.** The signature loop (line 100)
appends `toString(16)` of each byte with no zero padding. A byte below 16
therefore contributes one hex digit and any other byte two, so the
signature text is 20 to 40 characters long. Twenty zero bytes give twenty
`0`s (`ZeroSignatureExample`), and two different byte strings can give the
same text (`SignatureCollision`). The decoder has no length check of its
own: a read past the end of the buffer throws a RangeError, modelled as
`OutOfRange`. The first read that fails ends the decode, so a buffer
shorter than 4 bytes fails this way before the magic is compared.

## Model

| member | source | states |
|---|---|---|
| GlyphBundleHeader.ParseHeader | run_time/src/gae_server/www/js/tachyfont/googlebackendservice.js:86-112 | The decode equals the declarative header layout. Under 4 bytes it fails out of range. With 4 or more bytes and a wrong magic it fails with exactly the four characters read. A right magic with under 32 bytes fails out of range. It succeeds exactly when the buffer holds 32 bytes starting with BSAC. |
| GlyphBundleHeader.ReadMagic | run_time/src/gae_server/www/js/tachyfont/googlebackendservice.js:88-92 | The magic loop yields the first four bytes as characters, or fails out of range when the buffer has fewer than 4 bytes. |
| GlyphBundleHeader.ReadSignature | run_time/src/gae_server/www/js/tachyfont/googlebackendservice.js:98-101 | The signature loop yields the unpadded hex of bytes 8 to 27, or fails out of range when the buffer has fewer than 28 bytes. |
| GlyphBundleHeader.MagicMatches | run_time/src/gae_server/www/js/tachyfont/googlebackendservice.js:94 | The characters read equal BSAC exactly when bytes 0 to 3 are 66, 83, 65, 67. |
| GlyphBundleHeader.VersionRoundTrip | run_time/src/gae_server/www/js/tachyfont/googlebackendservice.js:95-96 | The version text (decimal major, a dot, decimal minor) parses back to the two bytes it was built from. |
| GlyphBundleHeader.DecodedVersion | run_time/src/gae_server/www/js/tachyfont/googlebackendservice.js:95-96 | On success, the version text gives bytes 4 and 5 back. |
| GlyphBundleHeader.DecodedTexts | run_time/src/gae_server/www/js/tachyfont/googlebackendservice.js:95-101 | On success, the version text is exactly that of bytes 4 and 5, and the signature text exactly that of bytes 8 to 27. |
| GlyphBundleHeader.SignatureHexAppend | run_time/src/gae_server/www/js/tachyfont/googlebackendservice.js:98-101 | The signature text of a concatenation of bytes is the concatenation of their texts. |
| GlyphBundleHeader.GetUint8 | run_time/src/gae_server/www/js/tachyfont/googlebackendservice.js:91 | A one-byte DataView read succeeds exactly when the offset is inside the buffer and then gives the byte there; otherwise it fails out of range. |
| GlyphBundleHeader.GetUint16 | run_time/src/gae_server/www/js/tachyfont/googlebackendservice.js:102-105 | A two-byte DataView read succeeds exactly when both bytes are inside the buffer. Its value is below 65536, and its big-endian bytes are the two bytes read; otherwise it fails out of range. |
| GlyphBundleHeader.AsChars | run_time/src/gae_server/www/js/tachyfont/googlebackendservice.js:91 | String.fromCharCode on each byte: one character per byte, whose code is that byte. |
| GlyphBundleHeader.VersionString | run_time/src/gae_server/www/js/tachyfont/googlebackendservice.js:95-96 | The version text is decimal digits, one dot right after the digits of the major byte, then at least one more digit. |
| GlyphBundleHeader.SignatureHex | run_time/src/gae_server/www/js/tachyfont/googlebackendservice.js:98-101 | Each byte adds one or two lower-case hex digits, so n bytes give between n and 2n characters, all lower-case hex. |
| GlyphBundleHeader.HeaderLayout | run_time/src/gae_server/www/js/tachyfont/googlebackendservice.js:87-111 | The layout succeeds exactly with 32 or more bytes starting with BSAC. It fails with BadMagic exactly with 4 or more bytes not starting with BSAC, carrying those four characters. On success the offset is 32, the buffer is kept, and count and flags are the big-endian values of bytes 28-29 and 30-31. |
| Radix.ToRadix | run_time/src/gae_server/www/js/tachyfont/googlebackendservice.js:100 | toString(radix) of a natural number is a non-empty string of digits of that base. It has one digit exactly when the number is below the base, and it starts with '0' only for zero. |
| GlyphBundleHeader.DecodedSignatureLength | run_time/src/gae_server/www/js/tachyfont/googlebackendservice.js:98-101 | On success, the signature is 20 to 40 lower-case hex digits. |
| GlyphBundleHeader.SignatureOfZeros | run_time/src/gae_server/www/js/tachyfont/googlebackendservice.js:100 | Zero bytes render as one '0' each, because there is no padding. |
| GlyphBundleHeader.SignatureCollision | run_time/src/gae_server/www/js/tachyfont/googlebackendservice.js:100 | The byte pairs 1, 17 and 17, 1 differ but give the same signature text, whatever bytes follow. |
| GlyphBundleHeader.ReservedBytesIgnored | run_time/src/gae_server/www/js/tachyfont/googlebackendservice.js:97 | Buffers that differ only in bytes 6 and 7 decode to the same header. |
| GlyphBundleHeader.PayloadIgnored | run_time/src/gae_server/www/js/tachyfont/googlebackendservice.js:102-107 | Buffers that agree on their first 32 bytes decode to the same header, whatever follows. |
| GlyphBundleHeader.ParseEncodedHeader | run_time/src/gae_server/www/js/tachyfont/googlebackendservice.js:94-107 | Decoding an encoded header followed by any payload gives back the version, the signature text, the big-endian count and flags, offset 32, and the whole buffer unchanged. |
| GlyphBundleHeader.ZeroSignatureExample | run_time/src/gae_server/www/js/tachyfont/googlebackendservice.js:94-107 | Version bytes 1 and 0, twenty zero signature bytes, count 5 and flags 0 decode to version "1.0", twenty '0's, count 5, flags 0 and offset 32. |
| Radix.FromToRadix | run_time/src/gae_server/www/js/tachyfont/googlebackendservice.js:100 | Reading back the digits that toString(radix) writes gives the number. |
| Radix.ToRadixInjective | run_time/src/gae_server/www/js/tachyfont/googlebackendservice.js:100 | Two numbers get the same digit string exactly when they are equal. |
| Radix.HexByteLength | run_time/src/gae_server/www/js/tachyfont/googlebackendservice.js:100 | A byte below 16 has one hex digit, and any other byte has two. |
| GlyphList.CompressFrom | run_time/src/gae_server/www/js/tachyfont/googlebackendservice.js:162-171 | The loop from index i onward, given the text built so far, puts one dash in front per remaining 45. It appends the remaining non-45 code points in order. |
| GlyphList.CompressedGlyphsList | run_time/src/gae_server/www/js/tachyfont/googlebackendservice.js:160-173 | The result is as many dashes as the input has 45s, followed by the input with every 45 removed, in input order. |
| GlyphList.CompressIsPermutation | run_time/src/gae_server/www/js/tachyfont/googlebackendservice.js:160-173 | The result is a permutation of the input (equal multisets), so it has the same length. |
| GlyphList.CompressShape | run_time/src/gae_server/www/js/tachyfont/googlebackendservice.js:164-170 | The first k positions, for k the number of 45s, are all 45. No later position holds 45. The non-45 code points are in the input order. |
| GlyphList.DashCountIsMultiplicity | run_time/src/gae_server/www/js/tachyfont/googlebackendservice.js:164-170 | The number of leading dashes is the multiplicity of 45 in the input. |
| GlyphList.PartitionMultiset | run_time/src/gae_server/www/js/tachyfont/googlebackendservice.js:164-170 | The dashes and the non-dashes together hold exactly the code points of the input. |
| GlyphList.CompressWithoutDash | run_time/src/gae_server/www/js/tachyfont/googlebackendservice.js:164-165 | A list without 45 comes back unchanged. |
| GlyphList.CompressSingleDash | run_time/src/gae_server/www/js/tachyfont/googlebackendservice.js:166-170 | A single 45 at any position moves to the front, and the rest keep their order. |
| GlyphList.CompressIdempotent | run_time/src/gae_server/www/js/tachyfont/googlebackendservice.js:160-173 | Compressing a compressed list changes nothing. |
| GlyphList.AppendSplits | run_time/src/gae_server/www/js/tachyfont/googlebackendservice.js:162-171 | Counting 45s and removing them both distribute over concatenation. |
| DataUrl.RemoveSpaces | run_time/src/gae_server/www/js/tachyfont/googlebackendservice.js:148 | The result holds no space and the same other characters as the input. Its length is the input length minus the number of spaces. |
| DataUrl.LowerAscii | run_time/src/gae_server/www/js/tachyfont/googlebackendservice.js:148 | Lower-casing one character leaves no upper-case ASCII letter, and it changes the character exactly when it is an upper-case ASCII letter. An upper-case letter becomes the lower-case letter at the same place in the alphabet. |
| DataUrl.ToLowerAscii | run_time/src/gae_server/www/js/tachyfont/googlebackendservice.js:148 | The result has the same length as the input. Every A to Z becomes its lower-case letter, every other character stays, and no upper-case ASCII letter remains. |
| DataUrl.PathSegment | run_time/src/gae_server/www/js/tachyfont/googlebackendservice.js:145-149 | A non-empty family path is used verbatim. Otherwise the segment holds no space and no upper-case letter, and its length is the family name's length minus its spaces. |
| DataUrl.FamilyNameFallbackExample | run_time/src/gae_server/www/js/tachyfont/googlebackendservice.js:145-148 | With an empty family path, the family name Noto Sans JP gives the path segment notosansjp. |
| DataUrl.GetDataUrl | run_time/src/gae_server/www/js/tachyfont/googlebackendservice.js:143-152 | The URL starts with baseUrl/prefix/ and ends with fontKit.suffix, and its length is the sum of the parts plus five separators. |
| DataUrl.ParseDataUrl | run_time/src/gae_server/www/js/tachyfont/googlebackendservice.js:150-151 | The inverse reader splits at the last '.' and the last four '/'. What it returns holds no separator in the fields that must not. |
| DataUrl.DataUrlRoundTrip | run_time/src/gae_server/www/js/tachyfont/googlebackendservice.js:150-151 | When no component holds its separator, reading the built URL gives back baseUrl, prefix, segment, version, fontKit and suffix. |
| DataUrl.DataUrlInjective | run_time/src/gae_server/www/js/tachyfont/googlebackendservice.js:150-151 | Two fonts with separable components and the same URL have the same segment, version and font kit. |
| DataUrl.NameSegmentSeparable | run_time/src/gae_server/www/js/tachyfont/googlebackendservice.js:146-148 | With an empty family path, a family name without '/' gives a segment without '/'. |
| DataUrl.RemoveSpacesAppend | run_time/src/gae_server/www/js/tachyfont/googlebackendservice.js:148 | Removing spaces distributes over concatenation. |
| DataUrl.RemoveSpacesIdentity | run_time/src/gae_server/www/js/tachyfont/googlebackendservice.js:148 | Removing spaces leaves a string unchanged exactly when it holds none. |
| DataUrl.ToLowerIdempotent | run_time/src/gae_server/www/js/tachyfont/googlebackendservice.js:148 | Lower-casing twice is lower-casing once. |
| DataUrl.RemoveSpacesLowerCommute | run_time/src/gae_server/www/js/tachyfont/googlebackendservice.js:148 | Removing spaces and lower-casing commute. |
| DataUrl.NormalisedNameIsFixed | run_time/src/gae_server/www/js/tachyfont/googlebackendservice.js:148 | Normalising an already normalised family name changes nothing. |
| GoogleBackendService.GlyphsUrl | run_time/src/gae_server/www/js/tachyfont/googlebackendservice.js:67-69 | The glyph request URL starts with baseUrl/g/ and ends with fontKit.glyphs. |
| GoogleBackendService.FrameworkUrl | run_time/src/gae_server/www/js/tachyfont/googlebackendservice.js:117-119 | The base-font request URL starts with baseUrl/t/ and ends with fontKit.framework. |
| GoogleBackendService.GlyphsAndFrameworkUrlsDiffer | run_time/src/gae_server/www/js/tachyfont/googlebackendservice.js:48-60 | No glyph URL equals a framework URL on the same base URL, whatever the two fonts. |
| GoogleBackendService.GlyphsUrlRoundTrip | run_time/src/gae_server/www/js/tachyfont/googlebackendservice.js:48-52 | A glyph URL reads back with prefix g and suffix glyphs and the font's components. |
| GoogleBackendService.FrameworkUrlRoundTrip | run_time/src/gae_server/www/js/tachyfont/googlebackendservice.js:56-60 | A framework URL reads back with prefix t and suffix framework and the font's components. |
| GoogleBackendService.GlyphsUrlExample | run_time/src/gae_server/www/js/tachyfont/googlebackendservice.js:67-69 | The glyph URL for base URL http://x and a font with family path notosansjapanese, version 100 and font kit n1 is exactly http://x/g/notosansjapanese/100/n1.glyphs. |

## Left out

- `requestCodepoints`, `requestFontBase` and `log` (lines 64-76 and 116-130) are left out. They are asynchronous calls through `requestUrl`, a base-class transport that is not part of this model. `log` resolves to an empty buffer without any network action. Only the URLs these methods build are modelled, as `GlyphsUrl` and `FrameworkUrl`.
- The form body `glyphs=` plus `encodeURIComponent` of the compressed list (line 71) is left out. Percent-encoding is a library call outside this model.
- `tachyfont.utils.stringFromCodePoint` is not part of this model. The compressed list is kept as a sequence of code points, each emitted as exactly one character, so UTF-16 surrogate pairs are not modelled.
- The `FontInfo` getters and the `GlyphBundleResponse` constructor are not part of this model. They are taken as plain record fields.
- The constructor and `goog.inherits` wiring (lines 40-44) are left out. They are class plumbing with no behaviour.
- DataUrl.LowerAscii: changes only A to Z, the same ASCII restriction as `ToLowerAscii`.
- DataUrl.ToLowerAscii: lower-cases only A to Z, not the full Unicode `toLowerCase`. Non-ASCII family names are therefore not lower-cased as a browser would.
- DataUrl.PathSegment: `!familyPath` is modelled as the empty string only. A null or undefined family path cannot occur with a string-typed field.
- The thrown `Error` for a bad magic is modelled as the value `BadMagic(magic)`, without its message text.
- The running `offset` variable of `parseHeader_` is modelled by the literal offsets it takes (0 to 3, 4, 5, 8 to 27, 28, 30, 32).
