/** What the UTF-8 codec guarantees across its operations: the length functions
    agree with the bit patterns, `decode` inverts `encode` in both directions, and
    what `validate` accepts and rejects, including where it departs from the
    well-formed byte sequences of section 4 of RFC 3629. */
module Utf8Properties {
  import opened Utf8

  /** `read_length` reads the lead byte's high one bits: none means one byte, two to
      four mean that many bytes, and exactly one (a continuation byte) or five or
      more (`11111xxx`) mean a malformed lead that is skipped as one byte. */
  lemma ReadLengthCountsHighBits(b: Byte)
    ensures var k := LeadingOnes(b, 8);
      ReadLength(b) == if 2 <= k <= 4 then k else 1
  {
  }

  /** The six-bit groups of `x` below its top bits, read back after those top bits,
      give `x` again. */
  lemma {:induction false} CombineGroups(x: nat, k: nat)
    ensures Combine(Shr(x, k), Groups(x, k)) == x
  {
    if k > 0 {
      var g := Groups(x, k);
      assert g[..|g| - 1] == Groups(x / 64, k - 1);
      CombineGroups(x / 64, k - 1);
      assert Combine(Shr(x, k), g) == x / 64 * 64 + (0x80 + x % 64) % 64;
    }
  }

  /** Reading continuation bytes into a value and splitting that value into groups
      again gives back the same bytes and the same top bits. */
  lemma {:induction false} GroupsCombine(p: nat, cont: seq<Byte>)
    requires forall i :: 0 <= i < |cont| ==> IsContinuation(cont[i])
    ensures Groups(Combine(p, cont), |cont|) == cont
    ensures Shr(Combine(p, cont), |cont|) == p
  {
    if cont != [] {
      var init := cont[..|cont| - 1];
      var last := cont[|cont| - 1];
      GroupsCombine(p, init);
      var x := Combine(p, cont);
      assert x / 64 == Combine(p, init) && x % 64 == last % 64;
      assert 0x80 + last % 64 == last;
      assert cont == init + [last];
    }
  }

  /** Round trip: `decode` gives back every codepoint that `encode` accepts. */
  lemma DecodeEncode(c: Codepoint)
    requires WriteLength(c) != 0
    ensures DecodeValue(EncodeBytes(c)) == c
  {
    var n := WriteLength(c);
    var s := EncodeBytes(c);
    LeadFits(c);
    assert s[0] == LeadMarker(n) + Shr(c, n - 1);
    assert LeadPayload(s[0]) == Shr(c, n - 1);
    assert s[1..n] == Groups(c, n - 1);
    CombineGroups(c, n - 1);
  }

  /** The bit layout `decode` reads, per subsequence length, as in the table of
      section 3 of RFC 3629. */
  lemma DecodeLayout(s: seq<Byte>)
    requires 1 <= |s| && ReadLength(s[0]) <= |s|
    ensures ReadLength(s[0]) == 1 ==> DecodeValue(s) == s[0]
    ensures ReadLength(s[0]) == 2 ==> DecodeValue(s) == s[0] as int % 32 * 64 + s[1] as int % 64
    ensures ReadLength(s[0]) == 3 ==>
      DecodeValue(s) == s[0] as int % 16 * 4096 + s[1] as int % 64 * 64 + s[2] as int % 64
    ensures ReadLength(s[0]) == 4 ==>
      DecodeValue(s) == s[0] as int % 8 * 262144 + s[1] as int % 64 * 4096 + s[2] as int % 64 * 64 + s[3] as int % 64
  {
    var n := ReadLength(s[0]);
    var p := LeadPayload(s[0]);
    if n >= 2 {
      assert s[1..2][..0] == [];
      assert Combine(p, s[1..2]) == p * 64 + s[1] % 64;
    }
    if n >= 3 {
      assert s[1..3][..1] == s[1..2];
      assert Combine(p, s[1..3]) == (p * 64 + s[1] % 64) * 64 + s[2] % 64;
    }
    if n == 4 {
      assert s[1..4][..2] == s[1..3];
      assert Combine(p, s[1..4]) == ((p * 64 + s[1] % 64) * 64 + s[2] % 64) * 64 + s[3] % 64;
    }
  }

  /** No overlong form gets past `validate`: what an accepted subsequence decodes to
      needs every one of its bytes. */
  lemma WellFormedIsShortestForm(s: seq<Byte>)
    requires WellFormed(s)
    ensures Capacity(|s| - 1) <= DecodeValue(s) < Capacity(|s|)
  {
    DecodeLayout(s);
  }

  /** A scalar value in the payload range of exactly `n` bytes is written with `n`. */
  lemma WriteLengthOfRange(v: Codepoint, n: nat)
    requires 1 <= n <= 4 && IsScalarValue(v)
    requires Capacity(n - 1) <= v < Capacity(n)
    ensures WriteLength(v) == n
  {
  }

  /** A legal lead is its marker plus its payload. */
  lemma LeadRestored(b: Byte)
    requires IsLead(b)
    ensures LeadMarker(ReadLength(b)) + LeadPayload(b) == b
  {
  }

  /** Round trip the other way: an accepted subsequence that decodes to a scalar value
      is exactly what `encode` writes for that value. */
  lemma EncodeDecode(s: seq<Byte>)
    requires WellFormed(s)
    requires IsScalarValue(DecodeValue(s))
    ensures WriteLength(DecodeValue(s)) == |s|
    ensures EncodeBytes(DecodeValue(s)) == s
  {
    var n := |s|;
    var v := DecodeValue(s);
    var p := LeadPayload(s[0]);
    var cont := s[1..n];
    WellFormedIsShortestForm(s);
    WriteLengthOfRange(v, n);
    assert forall i :: 0 <= i < |cont| ==> IsContinuation(cont[i]);
    assert v == Combine(p, cont);
    GroupsCombine(p, cont);
    LeadRestored(s[0]);
    assert EncodeBytes(v) == [LeadMarker(n) + Shr(v, n - 1)] + Groups(v, n - 1);
    assert s == [s[0]] + cont;
  }

  /** The bytes `encode` writes, per length, as in the table of section 3 of RFC 3629. */
  lemma EncodeLayout(c: Codepoint)
    requires WriteLength(c) != 0
    ensures WriteLength(c) == 1 ==> EncodeBytes(c) == [c]
    ensures WriteLength(c) == 2 ==> EncodeBytes(c) == [0xC0 + c / 64, 0x80 + c % 64]
    ensures WriteLength(c) == 3 ==>
      EncodeBytes(c) == [0xE0 + c / 4096, 0x80 + c / 64 % 64, 0x80 + c % 64]
    ensures WriteLength(c) == 4 ==>
      EncodeBytes(c) == [0xF0 + c / 262144, 0x80 + c / 4096 % 64, 0x80 + c / 64 % 64, 0x80 + c % 64]
  {
    var n := WriteLength(c);
    var s := EncodeBytes(c);
    assert s == [LeadMarker(n) + Shr(c, n - 1)] + Groups(c, n - 1);
    assert Shr(c, 1) == c / 64;
    assert c / 64 / 64 == c / 4096;
    assert c / 4096 / 64 == c / 262144;
    assert Shr(c, 2) == Shr(c / 64, 1) == c / 4096;
    assert Shr(c, 3) == Shr(c / 64, 2) == Shr(c / 4096, 1) == c / 262144;
    if n >= 2 {
      GroupsCons(c, 0);
    }
    if n >= 3 {
      GroupsCons(c, 1);
    }
    if n == 4 {
      GroupsCons(c, 2);
    }
  }

  /** `validate` accepts what `encode` writes, except for 0x800..0xFFF (see
      EncodeE0Rejected). */
  lemma EncodeIsWellFormed(c: Codepoint)
    requires WriteLength(c) != 0
    requires !(0x800 <= c < 0x1000)
    ensures WellFormed(EncodeBytes(c))
  {
    EncodeLayout(c);
  }

  /** The 3-byte overlong check rejects every lead 0xE0, so `validate` refuses the
      bytes `encode` writes for each of 0x800..0xFFF, 0x800 (E0 A0 80) included. */
  lemma EncodeE0Rejected(c: Codepoint)
    requires 0x800 <= c < 0x1000
    ensures WriteLength(c) == 3
    ensures EncodeBytes(c)[0] == 0xE0
    ensures !WellFormed(EncodeBytes(c))
  {
    EncodeLayout(c);
  }

  /** `validate` checks structure, not the codepoint: it accepts every encoded
      surrogate, ED A0..BF followed by a continuation byte. */
  lemma EncodedSurrogateAccepted(s: seq<Byte>)
    requires |s| == 3 && s[0] == 0xED && 0xA0 <= s[1] < 0xC0 && IsContinuation(s[2])
    ensures WellFormed(s)
    ensures 0xD800 <= DecodeValue(s) <= 0xDFFF && WriteLength(DecodeValue(s)) == 0
  {
    DecodeLayout(s);
  }

  /** It accepts lead 0xF4 with a first continuation byte of 0x90 or more, which
      stands for a value above 0x10FFFF. */
  lemma BeyondMaxAfterF4Accepted(s: seq<Byte>)
    requires |s| == 4 && s[0] == 0xF4 && 0x90 <= s[1] < 0xC0
    requires IsContinuation(s[2]) && IsContinuation(s[3])
    ensures WellFormed(s)
    ensures 0x110000 <= DecodeValue(s) && WriteLength(DecodeValue(s)) == 0
  {
    DecodeLayout(s);
  }

  /** It accepts the leads 0xF5..0xF7, whose every subsequence stands for a value of
      0x140000 or more. */
  lemma LeadsF5ToF7Accepted(s: seq<Byte>)
    requires |s| == 4 && 0xF5 <= s[0] <= 0xF7
    requires IsContinuation(s[1]) && IsContinuation(s[2]) && IsContinuation(s[3])
    ensures WellFormed(s)
    ensures 0x140000 <= DecodeValue(s) && WriteLength(DecodeValue(s)) == 0
  {
    DecodeLayout(s);
  }

  /** The three families above are exactly the accepted subsequences that do not
      stand for a scalar value, so none of them is an encoder output. */
  lemma WellFormedAcceptsNonScalar(s: seq<Byte>)
    requires WellFormed(s)
    ensures !IsScalarValue(DecodeValue(s)) <==>
      || (|s| == 3 && s[0] == 0xED && 0xA0 <= s[1])
      || (|s| == 4 && s[0] == 0xF4 && 0x90 <= s[1])
      || (|s| == 4 && 0xF5 <= s[0])
  {
    DecodeLayout(s);
  }

  /** A subsequence is never accepted with bytes added after it or with its last
      bytes cut off. */
  lemma NoPaddingNoTruncation(s: seq<Byte>, t: seq<Byte>, k: nat)
    requires WellFormed(s)
    ensures t != [] ==> !WellFormed(s + t)
    ensures 1 <= k < |s| ==> !WellFormed(s[..k])
  {
    if t != [] {
      assert (s + t)[0] == s[0];
    }
    if 1 <= k < |s| {
      assert s[..k][0] == s[0];
    }
  }

  /** The byte vectors `encode` is expected to write. */
  lemma EncodeVectors()
    ensures EncodeBytes(0x00) == [0x00] && EncodeBytes(0x61) == [0x61]
    ensures EncodeBytes(0xF8) == [0xC3, 0xB8]
    ensures EncodeBytes(0x20AC) == [0xE2, 0x82, 0xAC]
    ensures EncodeBytes(0x1F4A9) == [0xF0, 0x9F, 0x92, 0xA9]
  {
    EncodeLayout(0x00);
    EncodeLayout(0x61);
    EncodeLayout(0xF8);
    EncodeLayout(0x20AC);
    EncodeLayout(0x1F4A9);
  }

  /** The codepoints `decode` is expected to read back. */
  lemma DecodeVectors()
    ensures DecodeValue([0x00]) == 0x00 && DecodeValue([0x61]) == 0x61
    ensures DecodeValue([0xC3, 0xB8]) == 0xF8
    ensures DecodeValue([0xE2, 0x82, 0xAC]) == 0x20AC
    ensures DecodeValue([0xF0, 0x9F, 0x92, 0xA9]) == 0x1F4A9
  {
    DecodeLayout([0x00]);
    DecodeLayout([0x61]);
    DecodeLayout([0xC3, 0xB8]);
    DecodeLayout([0xE2, 0x82, 0xAC]);
    DecodeLayout([0xF0, 0x9F, 0x92, 0xA9]);
  }

  /** The subsequences `validate` is expected to accept and reject. */
  lemma ValidateVectors()
    ensures WellFormed([0x00]) && WellFormed([0x61]) && WellFormed([0xC3, 0xB8])
    ensures WellFormed([0xE2, 0x82, 0xAC]) && WellFormed([0xF0, 0x9F, 0x92, 0xA9])
    ensures !WellFormed([])
    ensures !WellFormed([0xFB, 0x9F, 0x92, 0xA9, 0x80]) && !WellFormed([0xFD, 0x9F, 0x92, 0xA9, 0x80, 0x80])
    ensures !WellFormed([0xFE, 0x9F, 0x92, 0xA9, 0x80]) && !WellFormed([0xFF, 0x9F, 0x92, 0xA9, 0x80])
    ensures !WellFormed([0x80, 0x9F, 0x92, 0xA9, 0x80])
    ensures !WellFormed([0xF0, 0x9F, 0x92, 0xA9, 0x00])
    ensures !WellFormed([0xC3]) && !WellFormed([0xE2]) && !WellFormed([0xE2, 0x82])
    ensures !WellFormed([0xF0]) && !WellFormed([0xF0, 0x9F]) && !WellFormed([0xF0, 0x9F, 0x92])
    ensures !WellFormed([0xC3, 0x00])
    ensures !WellFormed([0xE2, 0x82, 0x00]) && !WellFormed([0xE2, 0x00, 0xAC])
    ensures !WellFormed([0xF0, 0x9F, 0x92, 0x00]) && !WellFormed([0xF0, 0x9F, 0x00, 0xA9])
    ensures !WellFormed([0xF0, 0x00, 0x92, 0xA9])
    ensures !WellFormed([0xC0, 0xB8]) && !WellFormed([0xC1, 0xB8])
    ensures !WellFormed([0xE0, 0x82, 0xAC]) && !WellFormed([0xF0, 0x8F, 0x92, 0xA9])
  {
    assert !IsContinuation([0xC3, 0x00][1]);
    assert !IsContinuation([0xE2, 0x00, 0xAC][1]);
    assert !IsContinuation([0xE2, 0x82, 0x00][2]);
    assert !IsContinuation([0xF0, 0x9F, 0x92, 0x00][3]);
    assert !IsContinuation([0xF0, 0x9F, 0x00, 0xA9][2]);
    assert !IsContinuation([0xF0, 0x00, 0x92, 0xA9][1]);
  }

  /** `read_length` as the source writes it, with masks on the 8-bit code unit. */
  function MaskedReadLength(u: bv8): nat
  {
    if u & 0x80 == 0x00 then 1
    else if u & 0xE0 == 0xC0 then 2
    else if u & 0xF0 == 0xE0 then 3
    else if u & 0xF8 == 0xF0 then 4
    else 1
  }

  /** The range form of `read_length` agrees with the masked form on every byte. */
  lemma ReadLengthMatchesMasks(u: bv8)
    ensures ReadLength(u as int) == MaskedReadLength(u)
  {
    MaskPatterns(u);
  }

  /** The code units `t` read as unsigned byte values. */
  function ByteValues(t: seq<bv8>): (s: seq<Byte>)
    ensures |s| == |t| && forall i :: 0 <= i < |t| ==> s[i] == t[i] as int
  {
    seq(|t|, i requires 0 <= i < |t| => t[i] as int)
  }

  /** `validate` as the source writes it: the lead mask chosen by the length, the
      continuation mask on every later code unit, then the overlong checks. */
  predicate MaskedValidate(t: seq<bv8>)
  {
    && 1 <= |t| <= 4
    && (match |t|
        case 1 => t[0] & 0x80 == 0x00
        case 2 => t[0] & 0xE0 == 0xC0
        case 3 => t[0] & 0xF0 == 0xE0
        case 4 => t[0] & 0xF8 == 0xF0)
    && (forall i :: 1 <= i < |t| ==> t[i] & 0xC0 == 0x80)
    && !(|t| == 2 && t[0] <= 0xC1)
    && !(|t| == 3 && t[0] == 0xE0)
    && !(|t| == 4 && t[0] == 0xF0 && t[1] < 0x90)
  }

  /** The range form of `validate` accepts exactly what the masked form accepts. */
  lemma WellFormedMatchesMasks(t: seq<bv8>)
    ensures WellFormed(ByteValues(t)) <==> MaskedValidate(t)
  {
    forall i | 0 <= i < |t| {
      MaskPatterns(t[i]);
    }
  }

  /** The evidently intended 3-byte overlong rule, that of section 4 of RFC 3629:
      lead 0xE0 needs a second byte of at least 0xA0. Otherwise as WellFormed. */
  predicate WellFormedIntended(s: seq<Byte>)
  {
    && 1 <= |s|
    && IsLead(s[0])
    && ReadLength(s[0]) == |s|
    && (forall i :: 1 <= i < |s| ==> IsContinuation(s[i]))
    && !(|s| == 2 && s[0] <= 0xC1)
    && !(|s| == 3 && s[0] == 0xE0 && s[1] < 0xA0)
    && !(|s| == 4 && s[0] == 0xF0 && s[1] < 0x90)
  }

  /** With the intended rule, every byte sequence `encode` writes is accepted. */
  lemma EncodeIsWellFormedIntended(c: Codepoint)
    requires WriteLength(c) != 0
    ensures WellFormedIntended(EncodeBytes(c))
  {
    EncodeLayout(c);
  }

  /** The intended rule still lets no overlong form through. */
  lemma WellFormedIntendedIsShortestForm(s: seq<Byte>)
    requires WellFormedIntended(s)
    ensures Capacity(|s| - 1) <= DecodeValue(s) < Capacity(|s|)
  {
    DecodeLayout(s);
  }

  /** The rule as written and the intended one differ exactly on the 3-byte
      subsequences with lead 0xE0 and a second byte of at least 0xA0. */
  lemma WellFormedVersusIntended(s: seq<Byte>)
    ensures WellFormed(s) <==> WellFormedIntended(s) && !(|s| == 3 && s[0] == 0xE0)
  {
  }
}
