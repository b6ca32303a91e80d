/** The UTF-8 codec `utf_traits<utf8>`: the mapping between one codepoint and the
    one to four bytes that encode it, after the bit layout of section 3 of RFC 3629.

    Code units are bytes read as unsigned values 0..255, and codepoints are values of
    the 32-bit unsigned codepoint type. The source tests bit patterns with masks
    (`(b & 0xe0) == 0xc0`) and moves payload bits with shifts and ORs; here each mask
    test is the byte range it selects and each shift is a division or multiplication by
    64. MaskPatterns proves the two readings agree on every byte. */
module Utf8 {

  /** One UTF-8 code unit, read as an unsigned byte. */
  type Byte = b: int | 0 <= b < 0x100

  /** A value of the 32-bit unsigned codepoint type. It need not be a Unicode scalar value. */
  type Codepoint = c: int | 0 <= c < 0x1_0000_0000

  /** A Unicode scalar value: at most 0x10FFFF and outside the surrogates 0xD800..0xDFFF. */
  predicate IsScalarValue(c: int)
  {
    0 <= c < 0x110000 && !(0xD800 <= c <= 0xDFFF)
  }

  /** The byte has the form `10xxxxxx`: it may only continue a subsequence. */
  predicate IsContinuation(b: Byte)
  {
    0x80 <= b < 0xC0
  }

  /** The byte has the form `0xxxxxxx`, `110xxxxx`, `1110xxxx` or `11110xxx`: it may
      begin a subsequence. Every other byte is a continuation byte or `11111xxx`. */
  predicate IsLead(b: Byte)
  {
    b < 0x80 || 0xC0 <= b < 0xF8
  }

  /** Each mask test of the codec, applied to the 8-bit value `u` of a byte, holds on
      exactly the byte range that IsLead, IsContinuation and ReadLength test, and each
      payload mask keeps exactly the remainder that LeadPayload and Combine use. */
  lemma MaskPatterns(u: bv8)
    ensures (u & 0x80 == 0x00) <==> u as int < 0x80
    ensures (u & 0xE0 == 0xC0) <==> 0xC0 <= u as int < 0xE0
    ensures (u & 0xF0 == 0xE0) <==> 0xE0 <= u as int < 0xF0
    ensures (u & 0xF8 == 0xF0) <==> 0xF0 <= u as int < 0xF8
    ensures (u & 0xC0 == 0x80) <==> 0x80 <= u as int < 0xC0
    ensures (u & 0x3F) as int == u as int % 64 && (u & 0x1F) as int == u as int % 32
    ensures (u & 0x0F) as int == u as int % 16 && (u & 0x07) as int == u as int % 8
  {
  }

  /** The number of leading one bits of `b`, looking at no more than `width` bits. */
  function LeadingOnes(b: Byte, width: nat): (k: nat)
    ensures k <= width
  {
    if width == 0 || b < 0x80 then 0 else 1 + LeadingOnes((b * 2) % 0x100, width - 1)
  }

  /** `read_length`: the length of the subsequence that `lead` begins. A byte that
      cannot begin a subsequence yields 1, so a scanner skips exactly that byte. */
  function ReadLength(lead: Byte): (n: nat)
    ensures 1 <= n <= 4
    ensures !IsLead(lead) ==> n == 1
  {
    if lead < 0x80 then 1                  // 0xxxxxxx
    else if 0xC0 <= lead < 0xE0 then 2     // 110xxxxx
    else if 0xE0 <= lead < 0xF0 then 3     // 1110xxxx
    else if 0xF0 <= lead < 0xF8 then 4     // 11110xxx
    else 1
  }

  /** The number of codepoint values that an `n`-byte subsequence has room for:
      2^7, 2^11, 2^16 and 2^21 payload values for one to four bytes. */
  function Capacity(n: nat): nat
    requires n <= 4
  {
    [0, 0x80, 0x800, 0x10000, 0x200000][n]
  }

  /** `write_length`: the number of bytes that encode `c`, or 0 when `c` is a surrogate
      or above 0x10FFFF. For a scalar value it is the shortest form whose payload
      holds `c`. */
  function WriteLength(c: Codepoint): (n: nat)
    ensures n <= 4
    ensures n == 0 <==> !IsScalarValue(c)
    ensures n != 0 ==> Capacity(n - 1) <= c < Capacity(n)
  {
    if c <= 0x7F then 1
    else if c < 0x800 then 2
    else if c < 0xD800 then 3
    else if c < 0xE000 then 0
    else if c < 0x10000 then 3
    else if c < 0x110000 then 4
    else 0
  }

  /** The fixed high bits of the lead byte of an `n`-byte subsequence. */
  function LeadMarker(n: nat): Byte
    requires 1 <= n <= 4
  {
    [0x00, 0xC0, 0xE0, 0xF0][n - 1]
  }

  /** `x >> (6 * k)`: `x` with its low `k` six-bit groups shifted out. */
  function Shr(x: nat, k: nat): nat
  {
    if k == 0 then x else Shr(x / 64, k - 1)
  }

  /** The low `k` six-bit groups of `x` as continuation bytes `10xxxxxx`, the most
      significant group first. */
  function Groups(x: nat, k: nat): (r: seq<Byte>)
    ensures |r| == k
    ensures forall i :: 0 <= i < k ==> IsContinuation(r[i])
  {
    if k == 0 then [] else Groups(x / 64, k - 1) + [0x80 + x % 64]
  }

  /** Shifting out one more group divides by 64. */
  lemma {:induction false} ShrSucc(x: nat, k: nat)
    ensures Shr(x, k + 1) == Shr(x, k) / 64
  {
    if k > 0 {
      ShrSucc(x / 64, k - 1);
    }
  }

  /** Taking one more group puts that group in front of the ones already taken. */
  lemma {:induction false} GroupsCons(x: nat, k: nat)
    ensures Groups(x, k + 1) == [0x80 + Shr(x, k) % 64] + Groups(x, k)
  {
    if k > 0 {
      GroupsCons(x / 64, k - 1);
    }
  }

  /** What is left of an encodable `c` once its continuation groups are shifted out
      fits under the lead byte's marker, and the marked byte announces `n` bytes. */
  lemma LeadFits(c: Codepoint)
    requires WriteLength(c) != 0
    ensures var n := WriteLength(c);
      && LeadMarker(n) + Shr(c, n - 1) < [0x80, 0xE0, 0xF0, 0xF8][n - 1]
      && LeadMarker(n) + Shr(c, n - 1) < 0x100
      && ReadLength(LeadMarker(n) + Shr(c, n - 1)) == n
  {
    var n := WriteLength(c);
    if n == 2 {
      assert Shr(c, 1) == c / 64;
    } else if n == 3 {
      assert Shr(c, 2) == Shr(c / 64, 1) == Shr(c / 64 / 64, 0);
    } else if n == 4 {
      assert Shr(c, 3) == Shr(c / 64, 2) == Shr(c / 64 / 64, 1) == Shr(c / 64 / 64 / 64, 0);
    }
  }

  /** The bytes that `encode` writes for `c`: the lead marker ORed with the bits left
      above the continuation groups, then one continuation byte per six-bit group. */
  function EncodeBytes(c: Codepoint): (r: seq<Byte>)
    requires WriteLength(c) != 0
    ensures |r| == WriteLength(c)
    ensures ReadLength(r[0]) == |r|
    ensures forall i :: 1 <= i < |r| ==> IsContinuation(r[i])
  {
    var n := WriteLength(c);
    LeadFits(c);
    [LeadMarker(n) + Shr(c, n - 1)] + Groups(c, n - 1)
  }

  /** The payload bits of a lead byte: all of it for a one-byte subsequence, the low
      5, 4 or 3 bits for a two-, three- or four-byte one. */
  function LeadPayload(lead: Byte): (p: nat)
    ensures p < [0x100, 0x20, 0x10, 0x08][ReadLength(lead) - 1]
  {
    match ReadLength(lead)
    case 1 => lead
    case 2 => lead % 32
    case 3 => lead % 16
    case 4 => lead % 8
  }

  /** `acc` followed by the six payload bits of each byte of `cont`, in order. */
  function Combine(acc: nat, cont: seq<Byte>): nat
  {
    if cont == [] then acc
    else Combine(acc, cont[..|cont| - 1]) * 64 + cont[|cont| - 1] % 64
  }

  /** `64^k`. */
  function Pow64(k: nat): (r: nat)
    ensures r >= 1
  {
    if k == 0 then 1 else 64 * Pow64(k - 1)
  }

  /** Appending six-bit groups to a value below `m` gives a value below `m * 64^k`. */
  lemma {:induction false} CombineBelow(acc: nat, cont: seq<Byte>, m: nat)
    requires acc < m
    ensures Combine(acc, cont) < m * Pow64(|cont|)
  {
    if cont != [] {
      var init := cont[..|cont| - 1];
      CombineBelow(acc, init, m);
      var below := m * Pow64(|init|);
      assert Combine(acc, cont) <= Combine(acc, init) * 64 + 63;
      assert Combine(acc, init) * 64 + 63 < below * 64;
      assert m * Pow64(|cont|) == below * 64;
    }
  }

  /** The codepoint that `decode` computes from the subsequence at the front of `s`:
      the lead payload followed by the payload of each continuation byte. It fits in
      21 bits, and a legal lead keeps it below the capacity of its length. */
  function DecodeValue(s: seq<Byte>): (v: nat)
    requires 1 <= |s| && ReadLength(s[0]) <= |s|
    ensures v < 0x200000
    ensures IsLead(s[0]) ==> v < Capacity(ReadLength(s[0]))
  {
    var n := ReadLength(s[0]);
    var m := [0x100, 0x20, 0x10, 0x08][n - 1];
    CombineBelow(LeadPayload(s[0]), s[1..n], m);
    assert Pow64(1) == 64 && Pow64(2) == 4096 && Pow64(3) == 262144;
    Combine(LeadPayload(s[0]), s[1..n])
  }

  /** The rule `validate` applies: a legal lead whose structural length is the length
      of `s`, continuation bytes after it, and none of the three overlong patterns it
      looks for. It does not look at the codepoint the bytes stand for. */
  predicate WellFormed(s: seq<Byte>)
  {
    && 1 <= |s|
    && IsLead(s[0])
    && ReadLength(s[0]) == |s|
    && (forall i :: 1 <= i < |s| ==> IsContinuation(s[i]))
    && !(|s| == 2 && s[0] <= 0xC1)
    && !(|s| == 3 && s[0] == 0xE0)
    && !(|s| == 4 && s[0] == 0xF0 && s[1] < 0x90)
  }

  /** `validate` over the range `s`: a structural check of one delimited subsequence.
      Empty input is rejected. */
  method Validate(s: seq<Byte>) returns (ok: bool)
    ensures ok <==> WellFormed(s)
    ensures ok ==> 1 <= |s| <= 4 && ReadLength(s[0]) == |s|
    ensures ok ==> forall i :: 1 <= i < |s| ==> IsContinuation(s[i])
    ensures ok ==> s[0] != 0xC0 && s[0] != 0xC1 && !(s[0] == 0xF0 && s[1] < 0x90)
  {
    if |s| == 0 {
      return false;
    }
    var len := |s|;
    var lead := s[0];
    if len == 1 {
      if lead >= 0x80 { return false; }
    } else if len == 2 {
      if !(0xC0 <= lead < 0xE0) { return false; }
    } else if len == 3 {
      if !(0xE0 <= lead < 0xF0) { return false; }
    } else if len == 4 {
      if !(0xF0 <= lead < 0xF8) { return false; }
    } else {
      return false;
    }

    var i := 1;
    while i < len
      invariant 1 <= i <= len
      invariant forall j :: 1 <= j < i ==> IsContinuation(s[j])
    {
      if !IsContinuation(s[i]) { return false; }
      i := i + 1;
    }

    // overlong encodings
    if len == 2 {
      if lead <= 0xC1 { return false; }
    } else if len == 3 {
      if lead == 0xE0 { return false; }
    } else if len == 4 {
      if lead == 0xF0 && s[1] < 0x90 { return false; }
    }
    return true;
  }

  /** The first half of `encode`: packs the bytes of `c` into a four-byte scratch
      array, the continuation groups from the last byte backward, then the lead. */
  method Pack(c: Codepoint) returns (res: array<Byte>)
    requires WriteLength(c) != 0
    ensures fresh(res) && res.Length == 4
    ensures res[..WriteLength(c)] == EncodeBytes(c)
  {
    var len := WriteLength(c);
    res := new Byte[4];
    var v: nat := c;
    var i := len;
    while i != 1
      invariant 1 <= i <= len
      invariant v == Shr(c, len - i)
      invariant res[i..len] == Groups(c, len - i)
      modifies res
      decreases i
    {
      ShrSucc(c, len - i);
      GroupsCons(c, len - i);
      res[i - 1] := v % 64 + 0x80;
      v := v / 64;
      i := i - 1;
    }

    LeadFits(c);
    ghost var groups := res[1..len];
    if len == 1 {
      res[0] := v;
    } else if len == 2 {
      res[0] := 0xC0 + v;
    } else if len == 3 {
      res[0] := 0xE0 + v;
    } else {
      res[0] := 0xF0 + v;
    }
    assert res[1..len] == groups;
    assert res[..len] == [res[0]] + groups;
  }

  /** `encode` into a pre-sized sink: writes the bytes of `c` at `dest[pos..]` and
      returns the position just past them. */
  method Encode(c: Codepoint, dest: array<Byte>, pos: nat) returns (next: nat)
    requires WriteLength(c) != 0
    requires pos + WriteLength(c) <= dest.Length
    modifies dest
    ensures next == pos + WriteLength(c)
    ensures dest[pos..next] == EncodeBytes(c)
    ensures dest[..pos] == old(dest[..pos])
    ensures dest[next..] == old(dest[next..])
  {
    var len := WriteLength(c);
    var res := Pack(c);
    var k := 0;
    while k < len
      invariant 0 <= k <= len
      invariant dest[pos..pos + k] == res[..k]
      invariant dest[..pos] == old(dest[..pos])
      invariant dest[pos + len..] == old(dest[pos + len..])
      modifies dest
    {
      dest[pos + k] := res[k];
      k := k + 1;
    }
    next := pos + len;
  }

  /** `decode` of the subsequence at the front of `s`, which must hold at least as
      many bytes as its lead announces. */
  method Decode(s: seq<Byte>) returns (c: Codepoint)
    requires 1 <= |s| && ReadLength(s[0]) <= |s|
    ensures c == DecodeValue(s)
  {
    var len := ReadLength(s[0]);
    var res: nat;
    if len == 1 {
      res := s[0];
    } else if len == 2 {
      res := s[0] % 32;
    } else if len == 3 {
      res := s[0] % 16;
    } else {
      res := s[0] % 8;
    }

    var i := 1;
    while i < len
      invariant 1 <= i <= len
      invariant res == Combine(LeadPayload(s[0]), s[1..i])
    {
      assert s[1..i + 1][..i - 1] == s[1..i];
      res := res * 64 + s[i] % 64;
      i := i + 1;
    }
    assert res == DecodeValue(s);
    c := res;
  }
}
