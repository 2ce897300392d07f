/** The base64 codec of src/server/base64.cpp: sections 4 and 5 of RFC 4648, with `.` as the URL padding. */
module Base64 {
  import opened Common

  /** The two exceptions `decode` can leave with: `std::string::at` and `pos_of_char`. */
  datatype DecodeError = OutOfRange | InvalidCharacter

  const EQUALS: Byte := 0x3d
  const DOT: Byte := 0x2e

  predicate IsPad(c: Byte) { c == EQUALS || c == DOT }

  function Pad(url: bool): Byte { if url then DOT else EQUALS }

  /** `base64_chars[url][i]`. */
  function AlphabetChar(i: Byte, url: bool): Byte
    requires i < 64
  {
    if i < 26 then 0x41 + i
    else if i < 52 then 0x61 + (i - 26)
    else if i < 62 then 0x30 + (i - 52)
    else if i == 62 then (if url then 0x2d else 0x2b)
    else (if url then 0x5f else 0x2f)
  }

  /** `pos_of_char`, liberal in accepting both alphabets; `None` stands for its exception. */
  function PosOfChar(c: Byte): Option<Byte> {
    if 0x41 <= c <= 0x5a then Some(c - 0x41)
    else if 0x61 <= c <= 0x7a then Some(c - 0x61 + (0x5a - 0x41) + 1)
    else if 0x30 <= c <= 0x39 then Some(c - 0x30 + (0x5a - 0x41) + (0x7a - 0x61) + 2)
    else if c == 0x2b || c == 0x2d then Some(62)
    else if c == 0x2f || c == 0x5f then Some(63)
    else None
  }

  predicate IsCode(c: Byte) { PosOfChar(c).Some? }

  /** Membership in one alphabet, as the encoder writes it. */
  predicate InAlphabet(c: Byte, url: bool) {
    IsCode(c) && AlphabetChar(PosOfChar(c).value, url) == c
  }

  // The four six-bit groups of three bytes ...
  function Sextet0(b0: Byte): (x: Byte) ensures x < 64 { (b0 & 0xfc) >> 2 }
  function Sextet1(b0: Byte, b1: Byte): (x: Byte) ensures x < 64 { ((b0 & 0x03) << 4) + ((b1 & 0xf0) >> 4) }
  function Sextet2(b1: Byte, b2: Byte): (x: Byte) ensures x < 64 { ((b1 & 0x0f) << 2) + ((b2 & 0xc0) >> 6) }
  function Sextet3(b2: Byte): (x: Byte) ensures x < 64 { b2 & 0x3f }

  // ... and of the last one or two.
  function LastSextet1(b0: Byte): (x: Byte) ensures x < 64 { (b0 & 0x03) << 4 }
  function LastSextet2(b1: Byte): (x: Byte) ensures x < 64 { (b1 & 0x0f) << 2 }

  // The three bytes of four positions, narrowed to a byte by the source's cast.
  function Octet0(p0: Byte, p1: Byte): Byte { (p0 << 2) + ((p1 & 0x30) >> 4) }
  function Octet1(p1: Byte, p2: Byte): Byte { ((p1 & 0x0f) << 4) + ((p2 & 0x3c) >> 2) }
  function Octet2(p2: Byte, p3: Byte): Byte { ((p2 & 0x03) << 6) + p3 }

  function EncodeChunk(c: Bytes, url: bool): (q: Bytes)
    requires 1 <= |c| <= 3
    ensures |q| == 4
  {
    var first := AlphabetChar(Sextet0(c[0]), url);
    if |c| == 1 then
      [first, AlphabetChar(LastSextet1(c[0]), url), Pad(url), Pad(url)]
    else
      var second := AlphabetChar(Sextet1(c[0], c[1]), url);
      if |c| == 2 then
        [first, second, AlphabetChar(LastSextet2(c[1]), url), Pad(url)]
      else
        [first, second, AlphabetChar(Sextet2(c[1], c[2]), url), AlphabetChar(Sextet3(c[2]), url)]
  }

  function Encode(b: Bytes, url: bool): Bytes {
    if |b| == 0 then []
    else if |b| <= 3 then EncodeChunk(b, url)
    else EncodeChunk(b[..3], url) + Encode(b[3..], url)
  }

  function DecodeChunk(q: Bytes): Result<Bytes, DecodeError>
    requires 1 <= |q| <= 4
  {
    if |q| == 1 then Err(OutOfRange)
    else if !IsCode(q[1]) || !IsCode(q[0]) then Err(InvalidCharacter)
    else
      var p0, p1 := PosOfChar(q[0]).value, PosOfChar(q[1]).value;
      if |q| == 2 || IsPad(q[2]) then Ok([Octet0(p0, p1)])
      else if !IsCode(q[2]) then Err(InvalidCharacter)
      else
        var p2 := PosOfChar(q[2]).value;
        if |q| == 3 || IsPad(q[3]) then Ok([Octet0(p0, p1), Octet1(p1, p2)])
        else if !IsCode(q[3]) then Err(InvalidCharacter)
        else Ok([Octet0(p0, p1), Octet1(p1, p2), Octet2(p2, PosOfChar(q[3]).value)])
  }

  function Decode(s: Bytes): Result<Bytes, DecodeError> {
    if |s| == 0 then Ok([])
    else if |s| <= 4 then DecodeChunk(s)
    else
      var head := DecodeChunk(s[..4]);
      if head.Ok? then Append(head.value, Decode(s[4..])) else head
  }

  // ---- The loops of the source ----

  newtype uint32 = x: int | 0 <= x <= 0xffff_ffff

  /** The group the encoder's loop handles at `pos`: three bytes, or the last one or two. */
  function Group(b: Bytes, pos: nat): (c: Bytes)
    requires pos < |b|
    ensures 1 <= |c| <= 3
  {
    if pos + 3 <= |b| then b[pos..pos + 3] else b[pos..]
  }

  /** What the encoder's loop still has to append when its counter is `pos`. */
  function EncodeFrom(b: Bytes, pos: nat, url: bool): Bytes
    decreases |b| - pos
  {
    if pos >= |b| then [] else EncodeChunk(Group(b, pos), url) + EncodeFrom(b, pos + 3, url)
  }

  lemma {:induction false} EncodeFromIsEncode(b: Bytes, pos: nat, url: bool)
    requires pos <= |b|
    ensures EncodeFrom(b, pos, url) == Encode(b[pos..], url)
    decreases |b| - pos
  {
    var rest := b[pos..];
    if 0 < |rest| <= 3 {
      assert Group(b, pos) == rest;
      assert EncodeFrom(b, pos + 3, url) == [];
    } else if |rest| > 3 {
      EncodeFromIsEncode(b, pos + 3, url);
      assert Group(b, pos) == rest[..3] && rest[3..] == b[pos + 3..];
    }
  }

  lemma EncodeFromTurn(b: Bytes, pos: nat, ret: Bytes, url: bool)
    requires pos < |b|
    ensures (ret + EncodeChunk(Group(b, pos), url)) + EncodeFrom(b, pos + 3, url) == ret + EncodeFrom(b, pos, url)
  {
  }

  /** The body of the encoder's loop: what it appends for the group at `pos`. */
  method EncodeGroup(bytes: Bytes, pos: nat, url: bool) returns (q: Bytes)
    requires pos < |bytes|
    ensures q == EncodeChunk(Group(bytes, pos), url)
  {
    q := [AlphabetChar(Sextet0(bytes[pos]), url)];
    if pos + 1 < |bytes| {
      q := q + [AlphabetChar(Sextet1(bytes[pos], bytes[pos + 1]), url)];
      if pos + 2 < |bytes| {
        q := q + [AlphabetChar(Sextet2(bytes[pos + 1], bytes[pos + 2]), url)];
        q := q + [AlphabetChar(Sextet3(bytes[pos + 2]), url)];
        assert Group(bytes, pos) == [bytes[pos], bytes[pos + 1], bytes[pos + 2]];
      } else {
        q := q + [AlphabetChar(LastSextet2(bytes[pos + 1]), url)];
        q := q + [Pad(url)];
        assert Group(bytes, pos) == [bytes[pos], bytes[pos + 1]];
      }
    } else {
      q := q + [AlphabetChar(LastSextet1(bytes[pos]), url)];
      q := q + [Pad(url)];
      q := q + [Pad(url)];
      assert Group(bytes, pos) == [bytes[pos]];
    }
  }

  /**
   * `base64_encode`. The loop counter is a 32-bit unsigned int; Base64Laws.EncoderLoopEnds
   * shows that the bound on the length is exactly the condition for the loop to end.
   */
  method Base64Encode(bytes: Bytes, url: bool) returns (ret: Bytes)
    requires |bytes| <= 0xffff_ffff
    ensures ret == Encode(bytes, url)
  {
    EncodeFromIsEncode(bytes, 0, url);
    assert bytes[0..] == bytes;
    ret := [];
    var pos: uint32 := 0;
    ghost var turns := 0;
    while pos as int < |bytes|
      invariant pos as int == 3 * turns
      invariant ret + EncodeFrom(bytes, pos as nat, url) == EncodeFrom(bytes, 0, url)
    {
      var q := EncodeGroup(bytes, pos as nat, url);
      EncodeFromTurn(bytes, pos as nat, ret, url);
      ret := ret + q;
      pos := pos + 3;
      turns := turns + 1;
    }
  }

  /** The characters the decoder's loop handles at `pos`: four, or the last one to three. */
  function Quad(s: Bytes, pos: nat): (q: Bytes)
    requires pos < |s|
    ensures |q| == if pos + 4 <= |s| then 4 else |s| - pos
    ensures forall i :: 0 <= i < |q| ==> q[i] == s[pos + i]
  {
    if pos + 4 <= |s| then s[pos..pos + 4] else s[pos..]
  }

  /** The outcome of the decoder's loop from counter value `pos` on. */
  function DecodeFrom(s: Bytes, pos: nat): Result<Bytes, DecodeError>
    decreases |s| - pos
  {
    if pos >= |s| then Ok([])
    else
      var head := DecodeChunk(Quad(s, pos));
      if head.Ok? then Append(head.value, DecodeFrom(s, pos + 4)) else head
  }

  lemma {:induction false} DecodeFromIsDecode(s: Bytes, pos: nat)
    requires pos <= |s|
    ensures DecodeFrom(s, pos) == Decode(s[pos..])
    decreases |s| - pos
  {
    var rest := s[pos..];
    if 0 < |rest| <= 4 {
      assert Quad(s, pos) == rest;
      var head := DecodeChunk(rest);
      assert DecodeFrom(s, pos + 4) == Ok([]);
      assert head.Ok? ==> head.value + [] == head.value;
    } else if |rest| > 4 {
      DecodeFromIsDecode(s, pos + 4);
      assert Quad(s, pos) == rest[..4] && rest[4..] == s[pos + 4..];
    }
  }

  lemma AppendAssociates(a: Bytes, b: Bytes, r: Result<Bytes, DecodeError>)
    ensures Append(a, Append(b, r)) == Append(a + b, r)
  {
    if r.Ok? {
      assert a + (b + r.value) == (a + b) + r.value;
    }
  }

  lemma AppendNothing(r: Result<Bytes, DecodeError>)
    ensures Append([], r) == r
  {
    if r.Ok? {
      assert [] + r.value == r.value;
    }
  }

  /** The body of the decoder's loop: the bytes it appends at `pos`, or the exception that leaves the loop. */
  method DecodeQuad(s: Bytes, pos: nat) returns (r: Result<Bytes, DecodeError>)
    requires pos < |s|
    ensures r == DecodeChunk(Quad(s, pos))
  {
    ghost var q := Quad(s, pos);
    assert q[0] == s[pos];
    if pos + 1 >= |s| {
      return Err(OutOfRange);
    }
    assert q[1] == s[pos + 1];
    var p1 := PosOfChar(s[pos + 1]);
    if p1.None? {
      return Err(InvalidCharacter);
    }
    var p0 := PosOfChar(s[pos]);
    if p0.None? {
      return Err(InvalidCharacter);
    }
    var out := [Octet0(p0.value, p1.value)];
    assert |q| == 2 <==> pos + 2 == |s|;
    if pos + 2 < |s| && s[pos + 2] != EQUALS && s[pos + 2] != DOT {
      assert q[2] == s[pos + 2];
      var p2 := PosOfChar(s[pos + 2]);
      if p2.None? {
        return Err(InvalidCharacter);
      }
      out := out + [Octet1(p1.value, p2.value)];
      assert out == [Octet0(p0.value, p1.value), Octet1(p1.value, p2.value)];
      assert |q| == 3 <==> pos + 3 == |s|;
      if pos + 3 < |s| && s[pos + 3] != EQUALS && s[pos + 3] != DOT {
        assert q[3] == s[pos + 3];
        var p3 := PosOfChar(s[pos + 3]);
        if p3.None? {
          return Err(InvalidCharacter);
        }
        out := out + [Octet2(p2.value, p3.value)];
        assert out == [Octet0(p0.value, p1.value), Octet1(p1.value, p2.value), Octet2(p2.value, p3.value)];
      }
    }
    return Ok(out);
  }

  /** `decode` without line-break removal. */
  method DecodeLoop(s: Bytes) returns (r: Result<Bytes, DecodeError>)
    ensures r == Decode(s)
  {
    DecodeFromIsDecode(s, 0);
    assert s[0..] == s;
    if |s| == 0 {
      return Ok([]);
    }
    var ret: Bytes := [];
    var pos := 0;
    AppendNothing(DecodeFrom(s, 0));
    while pos < |s|
      invariant 0 <= pos
      invariant DecodeFrom(s, 0) == Append(ret, DecodeFrom(s, pos))
    {
      var q := DecodeQuad(s, pos);
      if q.Err? {
        return q;
      }
      AppendAssociates(ret, q.value, DecodeFrom(s, pos + 4));
      ret := ret + q.value;
      pos := pos + 4;
    }
    assert ret + [] == ret;
    return Ok(ret);
  }
}
