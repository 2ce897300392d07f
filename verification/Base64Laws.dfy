/** What the codec promises: round trips, the strings it accepts, and the image of the encoder. */
module Base64Laws {
  import opened Common
  import opened Base64

  // ---- Round trips ----

  // ---- The tables of sections 4 and 5 of RFC 4648 ----

  /** The letters, upper case first, then the digits, each in a row, then the two characters that tell them apart. */
  lemma Alphabets(i: Byte, url: bool)
    ensures AlphabetChar(0, url) == Ascii('A') && AlphabetChar(26, url) == Ascii('a')
    ensures AlphabetChar(52, url) == Ascii('0')
    ensures AlphabetChar(62, url) == (if url then Ascii('-') else Ascii('+'))
    ensures AlphabetChar(63, url) == (if url then Ascii('_') else Ascii('/'))
    ensures i < 61 && i != 25 && i != 51 ==> AlphabetChar(i + 1, url) == AlphabetChar(i, url) + 1
  {
  }

  lemma Pads(c: Byte)
    ensures Pad(false) == Ascii('=') && Pad(true) == Ascii('.')
    ensures IsPad(c) <==> c == Ascii('=') || c == Ascii('.')
  {
  }

  /** The decoder knows the characters of both alphabets, and no others. */
  lemma KnownCharacters(c: Byte)
    ensures IsCode(c) <==>
      || IsUpper(c) || IsLower(c) || IsDigit(c)
      || c == Ascii('+') || c == Ascii('-') || c == Ascii('/') || c == Ascii('_')
  {
  }

  lemma TwoAlphabets(c: Byte)
    ensures IsCode(c) <==> InAlphabet(c, false) || InAlphabet(c, true)
  {
    if IsCode(c) {
      PositionsFit(c);
    }
  }

  /** Three bytes as one number of twenty-four bits. */
  function Group24(b0: Byte, b1: Byte, b2: Byte): bv24 {
    ((b0 as bv24) << 16) | ((b1 as bv24) << 8) | (b2 as bv24)
  }

  /** Four positions as one number of twenty-four bits. */
  function Quad24(p0: Byte, p1: Byte, p2: Byte, p3: Byte): bv24 {
    ((p0 as bv24) << 18) | ((p1 as bv24) << 12) | ((p2 as bv24) << 6) | (p3 as bv24)
  }

  /** The encoder cuts the group into four times six bits; missing bytes count as zero. */
  lemma SextetsAreTheGroup(b0: Byte, b1: Byte, b2: Byte)
    ensures Quad24(Sextet0(b0), Sextet1(b0, b1), Sextet2(b1, b2), Sextet3(b2)) == Group24(b0, b1, b2)
    ensures LastSextet1(b0) == Sextet1(b0, 0) && LastSextet2(b1) == Sextet2(b1, 0)
  {
  }

  /** The decoder cuts it into three times eight bits. */
  lemma OctetsAreTheGroup(p0: Byte, p1: Byte, p2: Byte, p3: Byte)
    requires p0 < 64 && p1 < 64 && p2 < 64 && p3 < 64
    ensures Group24(Octet0(p0, p1), Octet1(p1, p2), Octet2(p2, p3)) == Quad24(p0, p1, p2, p3)
  {
  }

  /** How many of a quad's characters the decoder reads as positions: up to a pad in third or fourth place. */
  function Codes(q: Bytes): nat
    requires 2 <= |q| <= 4
  {
    if |q| == 2 || q[2] == Ascii('=') || q[2] == Ascii('.') then 2
    else if |q| == 3 || q[3] == Ascii('=') || q[3] == Ascii('.') then 3
    else 4
  }

  /** What a quad decodes to, unused bits or not: one byte less than it has positions, in that order. */
  lemma DecodedQuad(q: Bytes)
    requires 2 <= |q| <= 4 && DecodeChunk(q).Ok?
    ensures
      var v, n := DecodeChunk(q).value, Codes(q);
      && |v| == n - 1 && (forall i :: 0 <= i < n ==> IsCode(q[i]))
      && v[0] == Octet0(PosOfChar(q[0]).value, PosOfChar(q[1]).value)
      && (n > 2 ==> v[1] == Octet1(PosOfChar(q[1]).value, PosOfChar(q[2]).value))
      && (n > 3 ==> v[2] == Octet2(PosOfChar(q[2]).value, PosOfChar(q[3]).value))
  {
  }

  /** A missing second character is one exception, a character that is no position the other, whichever comes first. */
  lemma {:induction false} WhichException(s: Bytes)
    requires Decode(s).Err?
    ensures Decode(s).error == InvalidCharacter <==>
      exists i :: 0 <= i < |s| && !AcceptsAt(s, i) && !(|s| % 4 == 1 && i == |s| - 1)
  {
    if |s| <= 4 {
      if |s| > 1 {
        assert AcceptsAt(s, 0) <==> IsCode(s[0]);
        assert AcceptsAt(s, 1) <==> IsCode(s[1]);
        if |s| > 2 { assert AcceptsAt(s, 2) <==> IsCode(s[2]) || IsPad(s[2]); }
        if |s| > 3 { assert AcceptsAt(s, 3) <==> IsCode(s[3]) || IsPad(s[3]) || IsPad(s[2]); }
      }
    } else {
      forall i | 0 <= i < 4 ensures AcceptsAt(s, i) == AcceptsAt(s[..4], i) {}
      forall i | 0 <= i < |s[4..]| ensures AcceptsAt(s[4..], i) == AcceptsAt(s, i + 4) {}
      if Decode(s[..4]).Err? {
        WhichException(s[..4]);
        var i :| 0 <= i < 4 && !AcceptsAt(s[..4], i);
        assert !AcceptsAt(s, i);
      } else {
        DecodeAccepts(s[..4]);
        WhichException(s[4..]);
        ShiftedWitness(s);
      }
    }
  }

  lemma ShiftedWitness(s: Bytes)
    requires |s| > 4 && forall i :: 0 <= i < 4 ==> AcceptsAt(s, i)
    requires forall i :: 0 <= i < |s[4..]| ==> AcceptsAt(s[4..], i) == AcceptsAt(s, i + 4)
    ensures
      (exists i :: 0 <= i < |s| && !AcceptsAt(s, i) && !(|s| % 4 == 1 && i == |s| - 1)) <==>
      (exists i :: 0 <= i < |s[4..]| && !AcceptsAt(s[4..], i) && !(|s[4..]| % 4 == 1 && i == |s[4..]| - 1))
  {
    if i :| 0 <= i < |s| && !AcceptsAt(s, i) && !(|s| % 4 == 1 && i == |s| - 1) {
      assert !AcceptsAt(s[4..], i - 4);
    }
    if i :| 0 <= i < |s[4..]| && !AcceptsAt(s[4..], i) && !(|s[4..]| % 4 == 1 && i == |s[4..]| - 1) {
      assert !AcceptsAt(s, i + 4);
    }
  }

  // ---- Round trips ----

  lemma CharRoundTrip(i: Byte, url: bool)
    requires i < 64
    ensures PosOfChar(AlphabetChar(i, url)) == Some(i)
    ensures !IsPad(AlphabetChar(i, url))
  {
  }

  /** The six-bit groups cut from three bytes, reassembled as `decode` does. */
  lemma BitsRoundTrip(b0: Byte, b1: Byte, b2: Byte)
    ensures Octet0(Sextet0(b0), Sextet1(b0, b1)) == b0 && Octet0(Sextet0(b0), LastSextet1(b0)) == b0
    ensures Octet1(Sextet1(b0, b1), Sextet2(b1, b2)) == b1 && Octet1(Sextet1(b0, b1), LastSextet2(b1)) == b1
    ensures Octet2(Sextet2(b1, b2), Sextet3(b2)) == b2
  {
  }

  lemma ChunkRoundTrip(c: Bytes, url: bool)
    requires 1 <= |c| <= 3
    ensures DecodeChunk(EncodeChunk(c, url)) == Ok(c)
    ensures DecodeChunk(EncodeChunk(c, url)[..|c| + 1]) == Ok(c)
  {
    var q := EncodeChunk(c, url);
    CharRoundTrip(Sextet0(c[0]), url);
    if |c| == 1 {
      BitsRoundTrip(c[0], 0, 0);
      CharRoundTrip(LastSextet1(c[0]), url);
      assert DecodeChunk(q) == Ok([c[0]]);
      assert c == [c[0]];
    } else {
      CharRoundTrip(Sextet1(c[0], c[1]), url);
      if |c| == 2 {
        BitsRoundTrip(c[0], c[1], 0);
        CharRoundTrip(LastSextet2(c[1]), url);
        assert DecodeChunk(q) == Ok([c[0], c[1]]);
        assert c == [c[0], c[1]];
      } else {
        BitsRoundTrip(c[0], c[1], c[2]);
        CharRoundTrip(Sextet2(c[1], c[2]), url);
        CharRoundTrip(Sextet3(c[2]), url);
        assert DecodeChunk(q) == Ok([c[0], c[1], c[2]]);
        assert c == [c[0], c[1], c[2]];
        assert q[..4] == q;
      }
    }
  }

  lemma {:induction false} RoundTrip(b: Bytes, url: bool)
    ensures Decode(Encode(b, url)) == Ok(b)
  {
    if 0 < |b| <= 3 {
      ChunkRoundTrip(b, url);
    } else if |b| > 3 {
      ChunkRoundTrip(b[..3], url);
      RoundTrip(b[3..], url);
      var q, rest := EncodeChunk(b[..3], url), Encode(b[3..], url);
      assert rest != [];
      assert (q + rest)[..4] == q && (q + rest)[4..] == rest;
      assert b[..3] + b[3..] == b;
    }
  }

  lemma {:induction false} EncodedQuads(b: Bytes, url: bool, groups: nat)
    requires 3 * groups - 3 < |b| <= 3 * groups
    ensures |Encode(b, url)| == 4 * groups
  {
    if |b| > 3 {
      EncodedQuads(b[3..], url, groups - 1);
    }
  }

  lemma EncodedLength(b: Bytes, url: bool)
    ensures |Encode(b, url)| == (|b| + 2) / 3 * 4
    ensures |Encode(b, url)| % 4 == 0
  {
    EncodedQuads(b, url, (|b| + 2) / 3);
  }

  /** No character of an encoding is a pad except the last one or two, which are missing when 3 divides the length. */
  lemma {:induction false} EncodedPadding(b: Bytes, url: bool)
    ensures |Encode(b, url)| >= PadCount(b)
    ensures forall i :: 0 <= i < |Encode(b, url)| ==>
      if i < |Encode(b, url)| - PadCount(b) then InAlphabet(Encode(b, url)[i], url) else Encode(b, url)[i] == Pad(url)
  {
    if 0 < |b| <= 3 {
      ChunkPadding(b, url);
    } else if |b| > 3 {
      ChunkPadding(b[..3], url);
      EncodedPadding(b[3..], url);
    }
  }

  /** How many bytes the last group of three lacks. */
  function PadCount(b: Bytes): nat {
    if |b| == 0 then 0 else if |b| <= 3 then 3 - |b| else PadCount(b[3..])
  }

  lemma ChunkPadding(c: Bytes, url: bool)
    requires 1 <= |c| <= 3
    ensures forall i :: 0 <= i < 4 ==>
      if i <= |c| then InAlphabet(EncodeChunk(c, url)[i], url) else EncodeChunk(c, url)[i] == Pad(url)
  {
    var q := EncodeChunk(c, url);
    CharRoundTrip(Sextet0(c[0]), url);
    if |c| == 1 {
      CharRoundTrip(LastSextet1(c[0]), url);
    } else {
      CharRoundTrip(Sextet1(c[0], c[1]), url);
      if |c| == 2 {
        CharRoundTrip(LastSextet2(c[1]), url);
      } else {
        CharRoundTrip(Sextet2(c[1], c[2]), url);
        CharRoundTrip(Sextet3(c[2]), url);
      }
    }
    assert InAlphabet(q[0], url) && InAlphabet(q[1], url);
  }

  /** The string without its trailing pads, which section 3.2 of RFC 4648 lets an application omit. */
  function StripPadding(s: Bytes): Bytes {
    if |s| > 0 && IsPad(s[|s| - 1]) then StripPadding(s[..|s| - 1]) else s
  }

  lemma {:induction false} StripPaddingIs(s: Bytes, n: nat)
    requires n <= |s| && (forall i :: n <= i < |s| ==> IsPad(s[i])) && (n > 0 ==> !IsPad(s[n - 1]))
    ensures StripPadding(s) == s[..n]
  {
    if n == |s| {
      assert s[..n] == s;
    } else {
      StripPaddingIs(s[..|s| - 1], n);
      assert s[..|s| - 1][..n] == s[..n];
    }
  }

  lemma {:induction false} StrippedRoundTrip(b: Bytes, url: bool)
    ensures Decode(StripPadding(Encode(b, url))) == Ok(b)
  {
    var s := Encode(b, url);
    EncodedPadding(b, url);
    var n := |s| - PadCount(b);
    if n > 0 {
      assert InAlphabet(s[n - 1], url);
    }
    StripPaddingIs(s, n);
    PrefixRoundTrip(b, url);
  }

  lemma {:induction false} PrefixRoundTrip(b: Bytes, url: bool)
    ensures |Encode(b, url)| >= PadCount(b)
    ensures Decode(Encode(b, url)[..|Encode(b, url)| - PadCount(b)]) == Ok(b)
  {
    if 0 < |b| <= 3 {
      ChunkRoundTrip(b, url);
    } else if |b| > 3 {
      ChunkRoundTrip(b[..3], url);
      PrefixRoundTrip(b[3..], url);
      var q, rest := EncodeChunk(b[..3], url), Encode(b[3..], url);
      var n := |rest| - PadCount(b);
      assert (q + rest)[..4 + n] == q + rest[..n];
      assert Decode(q) == Ok(b[..3]);
      DecodeConcat(q, rest[..n]);
      assert b[..3] + b[3..] == b;
    }
  }

  // ---- Decoding in pieces ----

  /** Decoding distributes over concatenation at every multiple of four, whatever padding the first part ends in. */
  lemma {:induction false} DecodeConcat(s: Bytes, t: Bytes)
    requires |s| % 4 == 0
    ensures Decode(s + t) == if Decode(s).Ok? then Append(Decode(s).value, Decode(t)) else Decode(s)
  {
    if |s| == 0 {
      assert s + t == t;
      AppendNothing(Decode(t));
    } else if |t| == 0 {
      assert s + t == s;
      assert Decode(s).Ok? ==> Decode(s).value + [] == Decode(s).value;
    } else {
      assert (s + t)[..4] == s[..4] && (s + t)[4..] == s[4..] + t;
      DecodeConcat(s[4..], t);
      var head := DecodeChunk(s[..4]);
      DecodeFromIsDecode(s, 4);
      DecodeFromIsDecode(s, 0);
      assert s[0..] == s;
      if head.Ok? && Decode(s[4..]).Ok? {
        AppendAssociates(head.value, Decode(s[4..]).value, Decode(t));
      }
    }
  }

  lemma ConcatenatedEncodings(a: Bytes, b: Bytes, urlA: bool, urlB: bool)
    ensures Decode(Encode(a, urlA) + Encode(b, urlB)) == Ok(a + b)
  {
    var s, t := Encode(a, urlA), Encode(b, urlB);
    assert |s| % 4 == 0 by { EncodedLength(a, urlA); }
    assert Decode(s) == Ok(a) by { RoundTrip(a, urlA); }
    assert Decode(t) == Ok(b) by { RoundTrip(b, urlB); }
    DecodeConcat(s, t);
  }

  /** What `decode` asks of the character at `i`: the third may be a pad, and then the fourth may be anything. */
  predicate AcceptsAt(s: Bytes, i: nat)
    requires i < |s|
  {
    || IsCode(s[i])
    || (i % 4 >= 2 && IsPad(s[i]))
    || (i % 4 == 3 && IsPad(s[i - 1]))
  }

  /** Exactly the strings `decode` accepts, stated without decoding. */
  lemma {:induction false} DecodeAccepts(s: Bytes)
    ensures Decode(s).Ok? <==> |s| % 4 != 1 && forall i :: 0 <= i < |s| ==> AcceptsAt(s, i)
  {
    if 0 < |s| <= 4 {
      assert AcceptsAt(s, 0) <==> IsCode(s[0]);
      if |s| > 1 { assert AcceptsAt(s, 1) <==> IsCode(s[1]); }
      if |s| > 2 { assert AcceptsAt(s, 2) <==> IsCode(s[2]) || IsPad(s[2]); }
      if |s| > 3 { assert AcceptsAt(s, 3) <==> IsCode(s[3]) || IsPad(s[3]) || IsPad(s[2]); }
    } else if |s| > 4 {
      DecodeAccepts(s[4..]);
      DecodeAccepts(s[..4]);
      forall i | 0 <= i < 4 ensures AcceptsAt(s, i) == AcceptsAt(s[..4], i) {}
      forall i | 4 <= i < |s| ensures AcceptsAt(s, i) == AcceptsAt(s[4..], i - 4) {}
      forall i | 0 <= i < |s[4..]| ensures AcceptsAt(s[4..], i) == AcceptsAt(s, i + 4) {}
    }
  }

  // ---- Canonical strings ----

  /** Padded to whole quads, one alphabet, pads only at the end, and the unused bits zero (section 3.5 of RFC 4648). */
  predicate Canonical(s: Bytes, url: bool) {
    var n := |s|;
    && n % 4 == 0
    && (forall i :: 0 <= i < n - 2 ==> InAlphabet(s[i], url))
    && (n > 0 ==>
      if s[n - 2] == Pad(url) then s[n - 1] == Pad(url) && PosOfChar(s[n - 3]).value & 0x0f == 0
      else
        && InAlphabet(s[n - 2], url)
        && (InAlphabet(s[n - 1], url) || (s[n - 1] == Pad(url) && PosOfChar(s[n - 2]).value & 0x03 == 0)))
  }

  lemma CanonicalChunk(q: Bytes, url: bool)
    requires |q| == 4 && Canonical(q, url)
    ensures DecodeChunk(q).Ok? && 1 <= |DecodeChunk(q).value| <= 3
    ensures EncodeChunk(DecodeChunk(q).value, url) == q
    ensures InAlphabet(q[2], url) && InAlphabet(q[3], url) ==> |DecodeChunk(q).value| == 3
  {
    var p0, p1 := PosOfChar(q[0]).value, PosOfChar(q[1]).value;
    PositionsFit(q[0]);
    PositionsFit(q[1]);
    if q[2] == Pad(url) {
      OneByteBits(p0, p1);
      assert q == [q[0], q[1], q[2], q[3]];
    } else {
      var p2 := PosOfChar(q[2]).value;
      PositionsFit(q[2]);
      if q[3] == Pad(url) {
        TwoByteBits(p0, p1, p2);
        assert q == [q[0], q[1], q[2], q[3]];
      } else {
        var p3 := PosOfChar(q[3]).value;
        PositionsFit(q[3]);
        ThreeByteBits(p0, p1, p2, p3);
        assert q == [q[0], q[1], q[2], q[3]];
      }
    }
  }

  lemma PositionsFit(c: Byte)
    requires IsCode(c)
    ensures PosOfChar(c).value < 64 && !IsPad(c)
  {
  }

  lemma OneByteBits(p0: Byte, p1: Byte)
    requires p0 < 64 && p1 < 64 && p1 & 0x0f == 0
    ensures Sextet0(Octet0(p0, p1)) == p0 && LastSextet1(Octet0(p0, p1)) == p1
  {
  }

  lemma TwoByteBits(p0: Byte, p1: Byte, p2: Byte)
    requires p0 < 64 && p1 < 64 && p2 < 64 && p2 & 0x03 == 0
    ensures Sextet0(Octet0(p0, p1)) == p0 && Sextet1(Octet0(p0, p1), Octet1(p1, p2)) == p1
    ensures LastSextet2(Octet1(p1, p2)) == p2
  {
  }

  lemma ThreeByteBits(p0: Byte, p1: Byte, p2: Byte, p3: Byte)
    requires p0 < 64 && p1 < 64 && p2 < 64 && p3 < 64
    ensures Sextet0(Octet0(p0, p1)) == p0 && Sextet1(Octet0(p0, p1), Octet1(p1, p2)) == p1
    ensures Sextet2(Octet1(p1, p2), Octet2(p2, p3)) == p2 && Sextet3(Octet2(p2, p3)) == p3
  {
  }

  lemma CanonicalTail(s: Bytes, url: bool)
    requires |s| > 4 && Canonical(s, url)
    ensures forall i :: 0 <= i < 4 ==> InAlphabet(s[..4][i], url)
    ensures Canonical(s[..4], url) && Canonical(s[4..], url)
  {
  }

  /** On canonical strings `encode` undoes `decode`. */
  lemma {:induction false} DecodeEncode(s: Bytes, url: bool)
    requires Canonical(s, url)
    ensures Decode(s).Ok? && Encode(Decode(s).value, url) == s
  {
    if |s| == 4 {
      CanonicalChunk(s, url);
    } else if |s| > 4 {
      var q, rest := s[..4], s[4..];
      CanonicalTail(s, url);
      CanonicalChunk(q, url);
      DecodeEncode(rest, url);
      var c, tail := DecodeChunk(q).value, Decode(rest).value;
      assert |c| == 3 && tail != [];
      assert (c + tail)[..3] == c && (c + tail)[3..] == tail;
      assert q + rest == s;
    }
  }

  lemma EncodedChunkIsCanonical(c: Bytes, url: bool)
    requires 1 <= |c| <= 3
    ensures Canonical(EncodeChunk(c, url), url)
  {
    ChunkPadding(c, url);
    if |c| == 1 {
      CharRoundTrip(LastSextet1(c[0]), url);
      assert LastSextet1(c[0]) & 0x0f == 0;
    } else if |c| == 2 {
      CharRoundTrip(LastSextet2(c[1]), url);
      assert LastSextet2(c[1]) & 0x03 == 0;
    }
  }

  lemma CanonicalCons(q: Bytes, t: Bytes, url: bool)
    requires |q| == 4 && (forall i :: 0 <= i < 4 ==> InAlphabet(q[i], url)) && Canonical(t, url)
    ensures Canonical(q + t, url)
  {
    var s := q + t;
    if t == [] {
      assert s == q;
    } else {
      assert forall i :: 4 <= i < |s| ==> s[i] == t[i - 4];
    }
  }

  lemma {:induction false} EncodedIsCanonical(b: Bytes, url: bool)
    ensures Canonical(Encode(b, url), url)
  {
    if 0 < |b| <= 3 {
      EncodedChunkIsCanonical(b, url);
    } else if |b| > 3 {
      ChunkPadding(b[..3], url);
      EncodedIsCanonical(b[3..], url);
      CanonicalCons(EncodeChunk(b[..3], url), Encode(b[3..], url), url);
    }
  }

  /** The encoder is a bijection onto the canonical strings. */
  lemma CanonicalIsImage(s: Bytes, url: bool)
    ensures Canonical(s, url) <==> exists b :: s == Encode(b, url)
  {
    if Canonical(s, url) {
      DecodeEncode(s, url);
    }
    if b :| s == Encode(b, url) {
      EncodedIsCanonical(b, url);
    }
  }

  lemma EncodeInjective(a: Bytes, b: Bytes, url: bool)
    requires Encode(a, url) == Encode(b, url)
    ensures a == b
  {
    RoundTrip(a, url);
    RoundTrip(b, url);
  }

  // ---- The 32-bit loop counter ----

  /** The value of the encoder's 32-bit counter after `turns` additions of three. */
  function CounterAfter(turns: nat): nat { 3 * turns % 0x1_0000_0000 }

  /**
   * The encoder's loop condition becomes false at some turn exactly for inputs of at most 2^32 - 1 bytes:
   * three divides 2^32 - 1, so the counter reaches that value and only then wraps.
   */
  lemma EncoderLoopEnds(n: nat)
    ensures (exists turns: nat :: CounterAfter(turns) >= n) <==> n <= 0xffff_ffff
    ensures n <= 0xffff_ffff ==>
      forall turns: nat {:trigger CounterAfter(turns)} ::
        (turns == 0 || 3 * (turns - 1) < n) ==> CounterAfter(turns) == 3 * turns
  {
    assert CounterAfter(0x5555_5555) == 0xffff_ffff;
  }
}
