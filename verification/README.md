# UTF-8 codec of utf.hpp, modelled and proved in Dafny

This project models the UTF-8 codec `utf::utf_traits<utf8>` of the header-only library
utf.hpp. The codec maps one Unicode codepoint to the one to four bytes that encode it,
and back, using the bit layout of section 3 of RFC 3629. It has five static operations:

- `read_length` gives the length of the subsequence that a lead byte begins.
- `write_length` gives the number of bytes that encode a codepoint, or 0 if the
  codepoint cannot be encoded.
- `validate` checks the structure of one delimited subsequence.
- `encode` writes a codepoint's bytes through an output iterator.
- `decode` reads a codepoint from the front of a byte buffer.

Files:

- `utf8.dfy` (module `Utf8`) holds the operations and the functions that specify them.
  `read_length` and `write_length` are functions, as in the source. `validate`, `encode`
  and `decode` are methods with the source's loops, and each is proved against a
  specification function: `WellFormed`, `EncodeBytes` and `DecodeValue`.
- `utf8_properties.dfy` (module `Utf8Properties`) holds the theorems:
  - round trips in both directions;
  - the per-length bit layout;
  - which encoder outputs `validate` accepts;
  - which non-scalar values `validate` lets through;
  - the test vectors.

Code units are unsigned bytes 0..255 (`Utf8.Byte`). Codepoints are values of the 32-bit
unsigned codepoint type (`Utf8.Codepoint`), which need not be scalar values. The
source's mask tests (for example `(b & 0xe0) == 0xc0`) are written as the byte ranges
they select, and its shifts by 6 as division and multiplication by 64.
`Utf8.MaskPatterns` proves on 8-bit vectors that every mask in the codec selects exactly
that range or remainder. `Utf8Properties.ReadLengthMatchesMasks` and
`Utf8Properties.WellFormedMatchesMasks` use it to show that `read_length` and `validate`,
written with the source's masks, agree with the range forms.

The sink of `encode` is an array with a start index. This stands for the pre-sized
iterator of the tests (`buf.begin()`). The method writes the bytes from the index on and
returns the index just past them.

The header also declares a UTF-16 codec, and the sample program calls a transcoding view
(`make_stringview`, `codeunits`, `to<>`). Neither is implemented: every member of
`utf_traits<utf16>` is a stub that returns a default value, and the view is not defined
anywhere. No UTF-32 codec exists. This model covers only the UTF-8 codec that the code
implements.

## Model

| member | source | states |
|---|---|---|
| `Utf8.MaskPatterns` | utf.hpp:19-133 | On 8-bit values, each lead-pattern mask test (`& 0x80`, `& 0xe0`, `& 0xf0`, `& 0xf8`) and the continuation test (`& 0xc0`) holds exactly on the byte range the model tests. Each payload mask (`& 0x3f`, `& 0x1f`, `& 0x0f`, `& 0x07`) is the matching remainder. |
| `Utf8.ReadLength` | utf.hpp:19-26 | The length is always 1 to 4. A byte that cannot begin a subsequence (a continuation byte 0x80–0xBF, or 0xF8–0xFF) gives 1, so a scanner resynchronises by one byte. |
| `Utf8Properties.ReadLengthCountsHighBits` | utf.hpp:19-26 | `read_length` is the number of leading one bits of the lead byte when that number is 2 to 4, and 1 otherwise. |
| `Utf8Properties.ReadLengthMatchesMasks` | utf.hpp:19-26 | On every 8-bit code unit, `ReadLength` equals `read_length` written with the source's masks. |
| `Utf8.WriteLength` | utf.hpp:27-36 | The result is at most 4. It is 0 exactly for surrogates 0xD800–0xDFFF and for values of 0x110000 and above. Otherwise it is the shortest length whose payload holds the codepoint: 1 below 0x80, 2 below 0x800, 3 below 0x10000, 4 above that. |
| `Utf8.EncodeBytes` | utf.hpp:86-105 | The encoded bytes number `write_length(c)`. `read_length` of the first byte equals that number, and every later byte has the form `10xxxxxx`. |
| `Utf8.Pack` | utf.hpp:86-105 | Its loop fills the four-byte scratch array backward, six bits at a time, and then sets the lead byte. The first `write_length(c)` bytes are then exactly the encoding of `c`. |
| `Utf8.Encode` | utf.hpp:83-113 | For an encodable codepoint, writes exactly `write_length(c)` bytes starting at the sink index and returns the index plus that length. Leaves every other sink position unchanged. |
| `Utf8.DecodeValue` | utf.hpp:117-133 | The decoded value fits in 21 bits. When the first byte is a legal lead, the value is below the capacity of the subsequence's length. |
| `Utf8.Decode` | utf.hpp:115-135 | Its loop folds the lead payload and the 6-bit continuation payloads into the codepoint that `DecodeValue` specifies. It requires the buffer to hold at least `read_length(s[0])` bytes. |
| `Utf8.Validate` | utf.hpp:39-81 | Accepts exactly the subsequences satisfying `WellFormed`. An accepted subsequence has 1 to 4 bytes and `read_length(s[0]) == \|s\|`, so empty, padded and truncated input is rejected. Every later byte is a continuation byte. The lead is not 0xC0 or 0xC1. The input is not lead 0xF0 followed by a byte below 0x90. |
| `Utf8Properties.WellFormedMatchesMasks` | utf.hpp:39-81 | On every sequence of 8-bit code units, `WellFormed` accepts exactly what `validate` written with the source's masks and unsigned comparisons accepts. |
| `Utf8Properties.DecodeEncode` | utf.hpp:84-135 | Round trip: `decode(encode(c)) == c` for every codepoint with `write_length(c) != 0`. |
| `Utf8Properties.EncodeDecode` | utf.hpp:39-135 | Reverse round trip: suppose `validate` accepts `s` and `s` decodes to a scalar value `v`. Then `write_length(v) == \|s\|` and `encode(v)` writes exactly `s`. |
| `Utf8Properties.DecodeLayout` | utf.hpp:121-133 | For each length, the decoded value is the lead payload (all 8, or 5, 4 or 3 bits) followed by 6 bits per continuation byte. |
| `Utf8Properties.EncodeLayout` | utf.hpp:91-102 | For each length, the encoded bytes are the lead marker plus `c >> 6(n-1)`, followed by `0x80` plus each lower 6-bit group. |
| `Utf8Properties.WellFormedIsShortestForm` | utf.hpp:65-78 | No overlong form is accepted: a subsequence that `validate` accepts decodes to a value that needs all of its bytes. |
| `Utf8Properties.EncodeIsWellFormed` | utf.hpp:39-113 | `validate` accepts the output of `encode` for every encodable codepoint outside 0x800–0xFFF. |
| `Utf8Properties.EncodeE0Rejected` | utf.hpp:70-71 | For every codepoint 0x800–0xFFF, `encode` writes a 3-byte subsequence with lead 0xE0, and `validate` rejects it. |
| `Utf8Properties.EncodedSurrogateAccepted` | utf.hpp:38-81 | `validate` checks the encoding, not the codepoint. It accepts every ED A0..BF followed by a continuation byte, which decodes into the surrogates 0xD800–0xDFFF, and `write_length` rejects all of them. |
| `Utf8Properties.BeyondMaxAfterF4Accepted` | utf.hpp:38-81 | Every F4 90..BF followed by two continuation bytes is accepted and decodes to 0x110000 or more, which `write_length` rejects. |
| `Utf8Properties.LeadsF5ToF7Accepted` | utf.hpp:38-81 | Every lead F5..F7 followed by three continuation bytes is accepted and decodes to 0x140000 or more, which `write_length` rejects. |
| `Utf8Properties.WellFormedAcceptsNonScalar` | utf.hpp:38-81 | An accepted subsequence decodes to a non-scalar value exactly when it belongs to one of those three families. |
| `Utf8Properties.NoPaddingNoTruncation` | utf.hpp:41-58 | A subsequence that `validate` accepts is rejected once bytes are added after it, and rejected once cut short. |
| `Utf8Properties.EncodeVectors` | tests.cpp:83-118 | `encode` maps 0x00, 0x61, 0xF8, 0x20AC and 0x1F4A9 to 00, 61, C3 B8, E2 82 AC and F0 9F 92 A9. |
| `Utf8Properties.DecodeVectors` | tests.cpp:144-163 | `decode` reads those byte vectors back to the same codepoints. |
| `Utf8Properties.ValidateVectors` | tests.cpp:177-295 | These are the subsequences that `validate` accepts and rejects: valid 1- to 4-byte characters, empty input, bad leads (0x80, 0xFB, 0xFD, 0xFE, 0xFF), padding, truncation at every length, a bad continuation at every position and overlong forms. |
| `Utf8Properties.EncodeIsWellFormedIntended` | utf.hpp:70-71 | With the corrected 3-byte check (lead 0xE0 needs a second byte of at least 0xA0), every encodable codepoint's encoding is accepted. |
| `Utf8Properties.WellFormedIntendedIsShortestForm` | utf.hpp:70-71 | The corrected check still accepts no overlong form. |
| `Utf8Properties.WellFormedVersusIntended` | utf.hpp:70-71 | The rule as written is the corrected rule minus every 3-byte subsequence with lead 0xE0. The two differ exactly on E0 A0..BF followed by a continuation byte. |

## Left out

- `utf_traits<utf16>` (utf.hpp:138-153): every member is a stub that returns a default value. No surrogate-pair logic exists to model.
- UTF-32 codec and transcoding view (`stringview`, `make_stringview`, `codeunits`, `to<>`): not defined in the code, so not part of this model.
- sample.cpp is a console driver, and tests.cpp is a test harness. The test vectors appear only as lemmas.
- Utf8.Encode: models only a pre-sized output iterator (an array and an index). A growing `back_inserter` is not modelled, and neither is any other output iterator.
- Utf8.Encode: requires `write_length(c) != 0`. With length 0 the unsigned loop counter wraps, and the loop writes out of bounds from its first pass. The behaviour is undefined, and the assert at utf.hpp:104 comes too late to guard it, so that path has nothing to model.
- Utf8.Decode: requires the buffer to hold at least `read_length` of its first byte. Reading past the end is undefined in the source.
- Utf8.Validate: returns false on an empty range. The source dereferences `*first` before looking at the length.
- Utf8.Decode: code units are unsigned bytes. A signed `char` lone lead byte at or above 0x80 would be sign-extended in the one-byte case of the source. This happens only on malformed input, and the model reads the byte as unsigned.
- Shifts on the 32-bit codepoint type are modelled as division and multiplication by 64. No value in the codec reaches 2^32, so no wrap-around is lost. Only the 8-bit masks are also checked on bit-vectors.

## Findings

| source | as written | input that shows it | evidently intended | confidence | as-written member | corrected member |
|---|---|---|---|---|---|---|
| utf.hpp:70-71 | The 3-byte overlong check rejects every subsequence whose lead is 0xE0. | Codepoint 0x800: `encode` writes E0 A0 80, and `validate` rejects it. The same holds for all of 0x800–0xFFF. | Lead 0xE0 is overlong only with a second byte below 0xA0 (section 4 of RFC 3629). | high (not executed) | `Utf8Properties.EncodeE0Rejected` | `Utf8Properties.EncodeIsWellFormedIntended` |

`Utf8.Validate` keeps the check as written, because it models the code.
`Utf8Properties.WellFormedIntended` is the corrected rule. It is proved to accept every
encoder output (`EncodeIsWellFormedIntended`) and to let no overlong form through
(`WellFormedIntendedIsShortestForm`).
