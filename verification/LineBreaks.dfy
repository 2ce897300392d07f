/** The PEM and MIME forms of src/server/base64.cpp: line feeds inserted on encoding, removed on decoding. */
module LineBreaks {
  import opened Common
  import opened Base64
  import opened Base64Laws

  const NEWLINE: Byte := 0x0a

  predicate NewlineFree(s: Bytes) { NEWLINE !in s }

  /** `s` with a line feed after every `d` characters but the last. */
  function Wrap(s: Bytes, d: nat): Bytes
    requires d > 0
  {
    if |s| <= d then s else s[..d] + [NEWLINE] + Wrap(s[d..], d)
  }

  /** `std::remove` of the line feeds, with the erase that follows it. */
  function RemoveNewlines(s: Bytes): Bytes {
    if s == [] then []
    else if s[0] == NEWLINE then RemoveNewlines(s[1..])
    else [s[0]] + RemoveNewlines(s[1..])
  }

  /** `base64_decode`. */
  function DecodeText(s: Bytes, removeLinebreaks: bool): Result<Bytes, DecodeError> {
    Decode(if removeLinebreaks then RemoveNewlines(s) else s)
  }

  // ---- The loops of the source ----

  lemma InsertTurn(s: Bytes, lines: Bytes, cut: nat, d: nat) returns (more: Bytes)
    requires d > 0 && cut + d < |s|
    ensures |more| == |lines| + d + 1
    ensures (lines + s[cut..])[..|lines| + d] + [NEWLINE] + (lines + s[cut..])[|lines| + d..] == more + s[cut + d..]
    ensures more + Wrap(s[cut + d..], d) == lines + Wrap(s[cut..], d)
  {
    var rest := s[cut..];
    more := lines + s[cut..cut + d] + [NEWLINE];
    assert rest[..d] == s[cut..cut + d] && rest[d..] == s[cut + d..];
    assert (lines + rest)[..|lines| + d] == lines + rest[..d] && (lines + rest)[|lines| + d..] == rest[d..];
  }

  /** `insert_linebreaks`, inserting into the string that the loop condition measures. */
  method InsertLinebreaks(s: Bytes, distance: nat) returns (str: Bytes)
    requires distance > 0
    ensures str == Wrap(s, distance)
  {
    if |s| == 0 {
      return [];
    }
    str := s;
    var pos := distance;
    ghost var lines: Bytes, cut := [], 0;
    while pos < |str|
      invariant 0 <= cut <= |s| && pos == |lines| + distance
      invariant str == lines + s[cut..]
      invariant lines + Wrap(s[cut..], distance) == Wrap(s, distance)
      decreases |s| - cut
    {
      ghost var more := InsertTurn(s, lines, cut, distance);
      str := str[..pos] + [NEWLINE] + str[pos..];
      lines, cut := more, cut + distance;
      pos := pos + distance + 1;
    }
  }

  /** The line-break removal of `decode`. */
  method EraseNewlines(s: Bytes) returns (copy: Bytes)
    ensures copy == RemoveNewlines(s)
  {
    copy := [];
    var i := 0;
    assert s[0..] == s;
    while i < |s|
      invariant 0 <= i <= |s|
      invariant copy + RemoveNewlines(s[i..]) == RemoveNewlines(s)
    {
      assert s[i..][1..] == s[i + 1..];
      if s[i] != NEWLINE {
        assert (copy + [s[i]]) + RemoveNewlines(s[i + 1..]) == copy + RemoveNewlines(s[i..]);
        copy := copy + [s[i]];
      }
      i := i + 1;
    }
    assert s[i..] == [];
  }

  method Base64Decode(s: Bytes, removeLinebreaks: bool) returns (r: Result<Bytes, DecodeError>)
    ensures r == DecodeText(s, removeLinebreaks)
  {
    if |s| == 0 {
      return Ok([]);
    }
    if removeLinebreaks {
      var copy := EraseNewlines(s);
      r := DecodeLoop(copy);
    } else {
      r := DecodeLoop(s);
    }
  }

  /** `encode_with_line_breaks`: PEM at 64, MIME at 76. */
  method EncodeWithLineBreaks(b: Bytes, lineLength: nat) returns (s: Bytes)
    requires lineLength > 0 && |b| <= 0xffff_ffff
    ensures s == Wrap(Encode(b, false), lineLength)
    ensures DecodeText(s, true) == Ok(b)
  {
    var e := Base64Encode(b, false);
    s := InsertLinebreaks(e, lineLength);
    WrappedRoundTrip(b, false, lineLength);
  }

  // ---- What wrapping does ----

  /** `base64_encode_pem` and `base64_encode_mime`. */
  method EncodePem(b: Bytes) returns (s: Bytes)
    requires |b| <= 0xffff_ffff
    ensures s == Wrap(Encode(b, false), 64) && DecodeText(s, true) == Ok(b)
  {
    s := EncodeWithLineBreaks(b, 64);
  }

  method EncodeMime(b: Bytes) returns (s: Bytes)
    requires |b| <= 0xffff_ffff
    ensures s == Wrap(Encode(b, false), 76) && DecodeText(s, true) == Ok(b)
  {
    s := EncodeWithLineBreaks(b, 76);
  }

  lemma TimesStep(k: nat, d: nat)
    requires k > 0
    ensures k * d >= d && (k - 1) * d == k * d - d
  {
  }

  /** `breaks` line feeds are inserted when the string needs that many full lines before its last. */
  lemma {:induction false} WrapGrowth(s: Bytes, d: nat, breaks: nat)
    requires d > 0 && breaks * d < |s| <= breaks * d + d
    ensures |Wrap(s, d)| == |s| + breaks
  {
    if breaks > 0 {
      TimesStep(breaks, d);
    }
    if |s| > d {
      WrapGrowth(s[d..], d, breaks - 1);
    }
  }

  lemma DivideBounds(x: nat, d: nat) returns (q: nat)
    requires d > 0
    ensures q == x / d && q * d <= x < q * d + d
  {
    q := x / d;
  }

  lemma WrapLength(s: Bytes, d: nat)
    requires d > 0
    ensures |Wrap(s, d)| == if |s| == 0 then 0 else |s| + (|s| - 1) / d
  {
    if |s| > 0 {
      var breaks := DivideBounds(|s| - 1, d);
      WrapGrowth(s, d, breaks);
    }
  }

  /**
   * Every character of the wrapped string, by line and column: each line holds exactly `d`
   * characters, and a line feed follows it except after the last one.
   */
  lemma {:induction false} WrapAt(s: Bytes, d: nat, line: nat, column: nat)
    requires d > 0 && column <= d && line * (d + 1) + column < |Wrap(s, d)|
    ensures column < d ==> line * d + column < |s|
    ensures Wrap(s, d)[line * (d + 1) + column] ==
      if column == d then NEWLINE else s[line * d + column]
    ensures column == d ==> line * (d + 1) + column + 1 < |Wrap(s, d)|
  {
    if line == 0 {
      if |s| > d {
        assert |Wrap(s[d..], d)| > 0;
      }
    } else {
      TimesStep(line, d + 1);
      TimesStep(line, d);
      var i, j := line * (d + 1) + column, line * d + column;
      WrapAt(s[d..], d, line - 1, column);
      assert Wrap(s, d)[i] == Wrap(s[d..], d)[i - (d + 1)];
      assert column < d ==> s[j] == s[d..][j - d];
    }
  }

  lemma {:induction false} RemoveConcat(a: Bytes, b: Bytes)
    ensures RemoveNewlines(a + b) == RemoveNewlines(a) + RemoveNewlines(b)
  {
    if a == [] {
      assert a + b == b;
    } else {
      assert (a + b)[1..] == a[1..] + b;
      RemoveConcat(a[1..], b);
    }
  }

  lemma {:induction false} RemoveNothing(s: Bytes)
    requires NewlineFree(s)
    ensures RemoveNewlines(s) == s
  {
    if s != [] {
      RemoveNothing(s[1..]);
      assert [s[0]] + s[1..] == s;
    }
  }

  lemma {:induction false} RemoveWrap(s: Bytes, d: nat)
    requires d > 0
    ensures RemoveNewlines(Wrap(s, d)) == RemoveNewlines(s)
  {
    if |s| > d {
      RemoveConcat(s[..d] + [NEWLINE], Wrap(s[d..], d));
      RemoveConcat(s[..d], [NEWLINE]);
      RemoveWrap(s[d..], d);
      RemoveConcat(s[..d], s[d..]);
      assert s[..d] + s[d..] == s;
    }
  }

  lemma EncodedNewlineFree(b: Bytes, url: bool)
    ensures NewlineFree(Encode(b, url))
  {
    EncodedPadding(b, url);
    assert !IsCode(NEWLINE) && NEWLINE != Pad(url);
  }

  lemma WrappedRoundTrip(b: Bytes, url: bool, d: nat)
    requires d > 0
    ensures DecodeText(Wrap(Encode(b, url), d), true) == Ok(b)
  {
    EncodedNewlineFree(b, url);
    RemoveNothing(Encode(b, url));
    RemoveWrap(Encode(b, url), d);
    RoundTrip(b, url);
  }
}
