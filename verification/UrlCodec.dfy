/** `ToHex`, `FromHex` and `UrlDecode` of src/server/Util.hpp: percent-decoding (section 2.1 of RFC 3986). */
module UrlCodec {
  import opened Common

  /** The two assertions that can stop `UrlDecode`. */
  datatype UrlError = Truncated | NotHex

  const PERCENT: Byte := 0x25

  function ToHex(x: Byte): Byte { if x > 9 then x + 55 else x + 48 }

  /** Letters past `F` are accepted, with values 16 to 35; `None` is the failed assertion. */
  function FromHex(x: Byte): Option<Byte> {
    if 0x41 <= x <= 0x5a then Some(x - 0x41 + 10)
    else if 0x61 <= x <= 0x7a then Some(x - 0x61 + 10)
    else if 0x30 <= x <= 0x39 then Some(x - 0x30)
    else None
  }

  /** The byte two hexadecimal values denote, truncated to eight bits. */
  function Combine(high: Byte, low: Byte): Byte { high * 16 + low }

  function Prepend(c: Byte, rest: Result<Bytes, UrlError>): Result<Bytes, UrlError> {
    if rest.Ok? then Ok([c] + rest.value) else rest
  }

  function Decoded(s: Bytes): Result<Bytes, UrlError> {
    if s == [] then Ok([])
    else if s[0] != PERCENT then Prepend(s[0], Decoded(s[1..]))
    else if |s| < 3 then Err(Truncated)
    else if FromHex(s[1]).None? || FromHex(s[2]).None? then Err(NotHex)
    else Prepend(Combine(FromHex(s[1]).value, FromHex(s[2]).value), Decoded(s[3..]))
  }

  lemma AppendPrepend(prefix: Bytes, c: Byte, rest: Result<Bytes, UrlError>)
    ensures Append(prefix, Prepend(c, rest)) == Append(prefix + [c], rest)
  {
    if rest.Ok? {
      assert prefix + ([c] + rest.value) == (prefix + [c]) + rest.value;
    }
  }

  method UrlDecode(str: Bytes) returns (r: Result<Bytes, UrlError>)
    ensures r == Decoded(str)
  {
    var temp: Bytes := [];
    var i := 0;
    assert str[0..] == str;
    assert Decoded(str).Ok? ==> [] + Decoded(str).value == Decoded(str).value;
    while i < |str|
      invariant 0 <= i <= |str|
      invariant Decoded(str) == Append(temp, Decoded(str[i..]))
    {
      ghost var rest := str[i..];
      if str[i] == PERCENT {
        if !(i + 2 < |str|) {
          return Err(Truncated);
        }
        assert rest[1] == str[i + 1] && rest[2] == str[i + 2] && rest[3..] == str[i + 3..];
        var high, low := FromHex(str[i + 1]), FromHex(str[i + 2]);
        if high.None? || low.None? {
          return Err(NotHex);
        }
        AppendPrepend(temp, Combine(high.value, low.value), Decoded(rest[3..]));
        temp := temp + [Combine(high.value, low.value)];
        i := i + 3;
      } else {
        assert rest[1..] == str[i + 1..];
        AppendPrepend(temp, str[i], Decoded(rest[1..]));
        temp := temp + [str[i]];
        i := i + 1;
      }
    }
    assert str[i..] == [] && temp + [] == temp;
    return Ok(temp);
  }

  // ---- What the digits mean ----

  /** `0` is 0, `A` and `a` are 10, each next digit or letter is one more, and nothing else is accepted. */
  lemma DigitValues(c: Byte)
    ensures FromHex(0x30) == Some(0) && FromHex(0x41) == FromHex(0x61) == Some(10)
    ensures FromHex(c).Some? <==> IsDigit(c) || IsUpper(c) || IsLower(c)
    ensures (IsDigit(c) && IsDigit(c + 1)) || (IsUpper(c) && IsUpper(c + 1)) || (IsLower(c) && IsLower(c + 1)) ==>
      FromHex(c + 1).value == FromHex(c).value + 1
    ensures IsUpper(c) ==> FromHex(c + 32) == FromHex(c)
  {
  }

  /** `ToHex` writes the digit of that value, in upper case. */
  lemma ToHexWrites(x: Byte)
    requires x < 16
    ensures FromHex(ToHex(x)) == Some(x) && (IsDigit(ToHex(x)) || IsUpper(ToHex(x)))
  {
  }

  /** The first digit of a pair counts sixteen, the second one, in eight bits. */
  lemma PairValues(high: Byte, low: Byte)
    ensures Combine(0, 0) == 0
    ensures Combine(high, low + 1) == Combine(high, low) + 1 && Combine(high + 1, low) == Combine(high, low) + 16
  {
  }

  /** Every percent sign that is reached has two digits after it. */
  predicate WellEscaped(s: Bytes) {
    s == []
    || (s[0] != PERCENT && WellEscaped(s[1..]))
    || (s[0] == PERCENT && |s| >= 3 && (forall i :: 1 <= i < 3 ==> IsDigit(s[i]) || IsUpper(s[i]) || IsLower(s[i]))
        && WellEscaped(s[3..]))
  }

  /** No assertion stops `UrlDecode` exactly on those. */
  lemma {:induction false} DecodesExactly(s: Bytes)
    ensures Decoded(s).Ok? <==> WellEscaped(s)
    decreases |s|
  {
    if s != [] {
      if s[0] != PERCENT {
        DecodesExactly(s[1..]);
      } else if |s| >= 3 {
        DigitValues(s[1]);
        DigitValues(s[2]);
        DecodesExactly(s[3..]);
      }
    }
  }

  /** A well-placed pair of digits stands for the byte of their values. */
  lemma DecodePair(s: Bytes)
    requires |s| >= 3 && s[0] == PERCENT && FromHex(s[1]).Some? && FromHex(s[2]).Some?
    ensures Decoded(s) == Prepend(Combine(FromHex(s[1]).value, FromHex(s[2]).value), Decoded(s[3..]))
  {
  }

  /** Which assertion fails at a percent sign: too few characters after it come before a bad digit. */
  lemma WhichAssertion(s: Bytes)
    requires s != [] && s[0] == PERCENT
    ensures |s| < 3 ==> Decoded(s) == Err(Truncated)
    ensures |s| >= 3 && (FromHex(s[1]).None? || FromHex(s[2]).None?) ==> Decoded(s) == Err(NotHex)
  {
  }

  /** ... and what comes before it does not matter. */
  lemma FirstErrorWins(c: Byte, s: Bytes)
    requires c != PERCENT
    ensures Decoded([c] + s) == Prepend(c, Decoded(s))
  {
    assert ([c] + s)[1..] == s;
  }

  // ---- The round trip ----

  /** How a byte is written: literally, or with two digits, each in upper or lower case. */
  datatype Spelling = Literal | Escaped(highLower: bool, lowLower: bool)

  function HexDigit(x: Byte, lower: bool): Byte { if lower && x > 9 then ToHex(x) + 32 else ToHex(x) }

  /** Percent-encoding of the bytes that `mask` selects, the others written literally. */
  function Escape(s: Bytes, mask: seq<Spelling>): Bytes
    requires |mask| == |s|
  {
    if s == [] then []
    else
      match mask[0]
      case Literal => [s[0]] + Escape(s[1..], mask[1..])
      case Escaped(highLower, lowLower) =>
        [PERCENT, HexDigit(s[0] >> 4, highLower), HexDigit(s[0] & 0x0f, lowLower)] + Escape(s[1..], mask[1..])
  }

  function Escapes(mask: seq<Spelling>): nat {
    if mask == [] then 0 else (if mask[0].Escaped? then 1 else 0) + Escapes(mask[1..])
  }

  predicate EscapesPercents(s: Bytes, mask: seq<Spelling>)
    requires |mask| == |s|
  {
    forall i :: 0 <= i < |s| && s[i] == PERCENT ==> mask[i].Escaped?
  }

  lemma HexRoundTrip(c: Byte, highLower: bool, lowLower: bool)
    ensures FromHex(HexDigit(c >> 4, highLower)) == Some(c >> 4)
    ensures FromHex(HexDigit(c & 0x0f, lowLower)) == Some(c & 0x0f)
    ensures Combine(c >> 4, c & 0x0f) == c
  {
  }

  lemma {:induction false} EscapedLength(s: Bytes, mask: seq<Spelling>)
    requires |mask| == |s|
    ensures |Escape(s, mask)| == |s| + 2 * Escapes(mask)
  {
    if s != [] {
      EscapedLength(s[1..], mask[1..]);
    }
  }

  /** Decoding one escaped, or literally written, byte that is not a bare percent sign. */
  lemma DecodeFirst(s: Bytes, mask: seq<Spelling>)
    requires |mask| == |s| > 0 && (s[0] == PERCENT ==> mask[0].Escaped?)
    ensures Decoded(Escape(s, mask)) == Prepend(s[0], Decoded(Escape(s[1..], mask[1..])))
  {
    var e, tail := Escape(s, mask), Escape(s[1..], mask[1..]);
    if mask[0].Escaped? {
      HexRoundTrip(s[0], mask[0].highLower, mask[0].lowLower);
      assert e[1] == HexDigit(s[0] >> 4, mask[0].highLower) && e[2] == HexDigit(s[0] & 0x0f, mask[0].lowLower);
      assert e[3..] == tail;
    } else {
      assert e[1..] == tail;
    }
  }

  /** A bare percent sign swallows the two bytes after it, which must then be written literally. */
  lemma DecodeBarePercent(s: Bytes, mask: seq<Spelling>)
    requires |mask| == |s| > 0 && s[0] == PERCENT && mask[0].Literal?
    requires Decoded(Escape(s, mask)).Ok?
    ensures |s| >= 3 && Decoded(Escape(s[3..], mask[3..])).Ok?
    ensures |Decoded(Escape(s, mask)).value| == 1 + |Decoded(Escape(s[3..], mask[3..])).value|
  {
    var e, tail := Escape(s, mask), Escape(s[1..], mask[1..]);
    assert e[1..] == tail;
    assert tail[0] == e[1] && tail[1] == e[2];
    assert FromHex(PERCENT).None?;
    assert mask[1..][0].Literal?;
    var tail2 := Escape(s[1..][1..], mask[1..][1..]);
    assert tail2 == tail[1..] && tail2[0] == e[2];
    assert mask[1..][1..][0].Literal?;
    assert s[1..][1..][1..] == s[3..] && mask[1..][1..][1..] == mask[3..];
    assert e[3..] == Escape(s[3..], mask[3..]);
  }

  lemma {:induction false} DecodedIsNoLonger(s: Bytes, mask: seq<Spelling>)
    requires |mask| == |s| && Decoded(Escape(s, mask)).Ok?
    ensures |Decoded(Escape(s, mask)).value| <= |s|
    decreases |s|
  {
    if s != [] {
      if s[0] == PERCENT && mask[0].Literal? {
        DecodeBarePercent(s, mask);
        DecodedIsNoLonger(s[3..], mask[3..]);
      } else {
        DecodeFirst(s, mask);
        DecodedIsNoLonger(s[1..], mask[1..]);
      }
    }
  }

  lemma EscapesPercentsStep(s: Bytes, mask: seq<Spelling>)
    requires |mask| == |s| > 0 && (s[0] == PERCENT ==> mask[0].Escaped?)
    ensures EscapesPercents(s, mask) <==> EscapesPercents(s[1..], mask[1..])
  {
    assert forall i :: 0 < i < |s| ==> s[i] == s[1..][i - 1] && mask[i] == mask[1..][i - 1];
    assert forall i :: 0 <= i < |s[1..]| ==> s[1..][i] == s[i + 1] && mask[1..][i] == mask[i + 1];
  }

  /**
   * For every choice of bytes to escape and of the case of each digit, decoding restores the string exactly when
   * every percent sign was escaped.
   */
  lemma {:induction false} EscapeRoundTrip(s: Bytes, mask: seq<Spelling>)
    requires |mask| == |s|
    ensures Decoded(Escape(s, mask)) == Ok(s) <==> EscapesPercents(s, mask)
  {
    if s != [] {
      if s[0] == PERCENT && mask[0].Literal? {
        if Decoded(Escape(s, mask)).Ok? {
          DecodeBarePercent(s, mask);
          DecodedIsNoLonger(s[3..], mask[3..]);
        }
      } else {
        DecodeFirst(s, mask);
        EscapeRoundTrip(s[1..], mask[1..]);
        var tail := Decoded(Escape(s[1..], mask[1..]));
        assert [s[0]] + s[1..] == s;
        assert tail.Ok? ==> ([s[0]] + tail.value)[1..] == tail.value;
        EscapesPercentsStep(s, mask);
      }
    }
  }
}
