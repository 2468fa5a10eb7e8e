/** Base64 with the standard alphabet and `=` padding, as in section 4 of
    RFC 4648; this is what `base64.b64encode` produces and what
    `base64.b64decode` reads back. */
module Base64 {
  import opened Bytes
  import opened Results

  type Sextet = x: int | 0 <= x < 64

  const Pad: char := '='

  /** The alphabet of section 4 of RFC 4648: A-Z, a-z, 0-9, '+', '/'. */
  function SextetChar(v: Sextet): char
  {
    if v < 26 then ('A' as int + v) as char
    else if v < 52 then ('a' as int + v - 26) as char
    else if v < 62 then ('0' as int + v - 52) as char
    else if v == 62 then '+'
    else '/'
  }

  /** The value of an alphabet character, `None` for any other character. */
  function CharSextet(c: char): (r: Option<Sextet>)
    ensures r.Some? ==> SextetChar(r.value) == c
  {
    if 'A' <= c <= 'Z' then Some(c as int - 'A' as int)
    else if 'a' <= c <= 'z' then Some(c as int - 'a' as int + 26)
    else if '0' <= c <= '9' then Some(c as int - '0' as int + 52)
    else if c == '+' then Some(62)
    else if c == '/' then Some(63)
    else None
  }

  lemma CharOfSextet(v: Sextet)
    ensures CharSextet(SextetChar(v)) == Some(v)
    ensures SextetChar(v) != Pad
  {
  }

  predicate IsAlphabet(c: char) {
    CharSextet(c).Some?
  }

  // The three bytes b0 b1 b2 of a group are split into four sextets ...
  function Hi0(b0: Byte): Sextet { b0 / 4 }
  function Hi1(b0: Byte, b1: Byte): Sextet { (b0 % 4) * 16 + b1 / 16 }
  function Hi2(b1: Byte, b2: Byte): Sextet { (b1 % 16) * 4 + b2 / 64 }
  function Hi3(b2: Byte): Sextet { b2 % 64 }

  // ... and four sextets c0 c1 c2 c3 are joined back into three bytes.
  function Lo0(c0: Sextet, c1: Sextet): Byte { c0 * 4 + c1 / 16 }
  function Lo1(c1: Sextet, c2: Sextet): Byte { (c1 % 16) * 16 + c2 / 4 }
  function Lo2(c2: Sextet, c3: Sextet): Byte { (c2 % 4) * 64 + c3 }

  lemma GroupRoundTrip(b0: Byte, b1: Byte, b2: Byte)
    ensures Lo0(Hi0(b0), Hi1(b0, b1)) == b0
    ensures Lo1(Hi1(b0, b1), Hi2(b1, b2)) == b1
    ensures Lo2(Hi2(b1, b2), Hi3(b2)) == b2
  {
  }

  /** The padded encoding; every 3 input bytes become 4 characters. */
  function Encode(bs: seq<Byte>): (s: string)
    ensures |s| == (|bs| + 2) / 3 * 4
    ensures forall i :: 0 <= i < |s| ==> IsAlphabet(s[i]) || s[i] == Pad
    ensures |bs| % 3 == 0 ==> forall i :: 0 <= i < |s| ==> IsAlphabet(s[i])
    decreases |bs|
  {
    if |bs| == 0 then ""
    else if |bs| == 1 then
      CharOfSextet(Hi0(bs[0]));
      CharOfSextet(Hi1(bs[0], 0));
      [SextetChar(Hi0(bs[0])), SextetChar(Hi1(bs[0], 0)), Pad, Pad]
    else if |bs| == 2 then
      CharOfSextet(Hi0(bs[0]));
      CharOfSextet(Hi1(bs[0], bs[1]));
      CharOfSextet(Hi2(bs[1], 0));
      [SextetChar(Hi0(bs[0])), SextetChar(Hi1(bs[0], bs[1])), SextetChar(Hi2(bs[1], 0)), Pad]
    else
      EncodeGroup(bs[0], bs[1], bs[2]) + Encode(bs[3..])
  }

  function EncodeGroup(b0: Byte, b1: Byte, b2: Byte): (s: string)
    ensures |s| == 4 && forall i :: 0 <= i < 4 ==> IsAlphabet(s[i])
  {
    CharOfSextet(Hi0(b0));
    CharOfSextet(Hi1(b0, b1));
    CharOfSextet(Hi2(b1, b2));
    CharOfSextet(Hi3(b2));
    [SextetChar(Hi0(b0)), SextetChar(Hi1(b0, b1)), SextetChar(Hi2(b1, b2)), SextetChar(Hi3(b2))]
  }

  /** Four alphabet characters decode to three bytes. */
  function DecodeGroup(q: string): (r: Option<seq<Byte>>)
    requires |q| == 4
    ensures r.Some? <==> IsAlphabet(q[0]) && IsAlphabet(q[1]) && IsAlphabet(q[2]) && IsAlphabet(q[3])
    ensures r.Some? ==> |r.value| == 3
  {
    if IsAlphabet(q[0]) && IsAlphabet(q[1]) && IsAlphabet(q[2]) && IsAlphabet(q[3]) then
      var c0, c1, c2, c3 := CharSextet(q[0]).value, CharSextet(q[1]).value, CharSextet(q[2]).value, CharSextet(q[3]).value;
      Some([Lo0(c0, c1), Lo1(c1, c2), Lo2(c2, c3)])
    else
      None
  }

  /** The last group may end in "==" (one byte) or "=" (two bytes). Like
      CPython's decoder, bits left over below the last byte are ignored. */
  function DecodeFinalGroup(q: string): (r: Option<seq<Byte>>)
    requires |q| == 4
    ensures r.Some? ==> 1 <= |r.value| <= 3
  {
    if q[2] == Pad && q[3] == Pad then
      if IsAlphabet(q[0]) && IsAlphabet(q[1]) then
        Some([Lo0(CharSextet(q[0]).value, CharSextet(q[1]).value)])
      else
        None
    else if q[3] == Pad then
      if IsAlphabet(q[0]) && IsAlphabet(q[1]) && IsAlphabet(q[2]) then
        var c0, c1, c2 := CharSextet(q[0]).value, CharSextet(q[1]).value, CharSextet(q[2]).value;
        Some([Lo0(c0, c1), Lo1(c1, c2)])
      else
        None
    else
      DecodeGroup(q)
  }

  function DecodeGroups(s: string): (r: Option<seq<Byte>>)
    requires |s| % 4 == 0
    ensures r.Some? ==> 3 * |s| <= 4 * |r.value| + 8 && 4 * |r.value| <= 3 * |s|
    ensures s == "" ==> r == Some([])
    decreases |s|
  {
    if |s| == 0 then Some([])
    else if |s| == 4 then DecodeFinalGroup(s)
    else
      var rest := s[4..];
      assert |rest| % 4 == 0 && |rest| >= 4;
      match DecodeGroup(s[..4])
      case None => None
      case Some(head) =>
        match DecodeGroups(rest)
        case None => None
        case Some(tail) => Some(head + tail)
  }

  /** Decoding of a padded base64 string. A string whose length is not a
      multiple of four, or that holds a character outside the alphabet
      (other than the final padding), is rejected. */
  function Decode(s: string): (r: Option<seq<Byte>>)
    ensures |s| % 4 != 0 ==> r.None?
    ensures r.Some? ==> 3 * |s| <= 4 * |r.value| + 8 && 4 * |r.value| <= 3 * |s|
  {
    if |s| % 4 != 0 then None else DecodeGroups(s)
  }

  lemma EncodedGroupDecodes(b0: Byte, b1: Byte, b2: Byte)
    ensures DecodeGroup(EncodeGroup(b0, b1, b2)) == Some([b0, b1, b2])
    ensures DecodeFinalGroup(EncodeGroup(b0, b1, b2)) == Some([b0, b1, b2])
  {
    var q := EncodeGroup(b0, b1, b2);
    GroupRoundTrip(b0, b1, b2);
    CharOfSextet(Hi0(b0));
    CharOfSextet(Hi1(b0, b1));
    CharOfSextet(Hi2(b1, b2));
    CharOfSextet(Hi3(b2));
    assert q[3] != Pad;
  }

  lemma EncodedTailDecodes(bs: seq<Byte>)
    requires 1 <= |bs| <= 2
    ensures |Encode(bs)| == 4
    ensures DecodeFinalGroup(Encode(bs)) == Some(bs)
  {
    if |bs| == 1 {
      OneByteDecodes(bs[0]);
      assert Encode(bs) == [SextetChar(Hi0(bs[0])), SextetChar(Hi1(bs[0], 0)), Pad, Pad];
      assert bs == [bs[0]];
    } else {
      TwoBytesDecode(bs[0], bs[1]);
      assert Encode(bs) == [SextetChar(Hi0(bs[0])), SextetChar(Hi1(bs[0], bs[1])), SextetChar(Hi2(bs[1], 0)), Pad];
      assert bs == [bs[0], bs[1]];
    }
  }

  lemma OneByteDecodes(b0: Byte)
    ensures DecodeFinalGroup([SextetChar(Hi0(b0)), SextetChar(Hi1(b0, 0)), Pad, Pad]) == Some([b0])
  {
    var c0 := Hi0(b0);
    var c1 := Hi1(b0, 0);
    var q: string := [SextetChar(c0), SextetChar(c1), Pad, Pad];
    assert q[2] == Pad;
  }

  lemma TwoBytesDecode(b0: Byte, b1: Byte)
    ensures DecodeFinalGroup([SextetChar(Hi0(b0)), SextetChar(Hi1(b0, b1)), SextetChar(Hi2(b1, 0)), Pad]) == Some([b0, b1])
  {
    GroupRoundTrip(b0, b1, 0);
    CharOfSextet(Hi0(b0));
    CharOfSextet(Hi1(b0, b1));
    CharOfSextet(Hi2(b1, 0));
  }

  /** Decoding undoes encoding, for every byte string. */
  lemma {:induction false} DecodeEncode(bs: seq<Byte>)
    ensures Decode(Encode(bs)) == Some(bs)
    decreases |bs|
  {
    if |bs| == 0 {
    } else if |bs| <= 2 {
      EncodedTailDecodes(bs);
    } else {
      var s := Encode(bs);
      var g := EncodeGroup(bs[0], bs[1], bs[2]);
      var rest := Encode(bs[3..]);
      assert s == g + rest;
      EncodedGroupDecodes(bs[0], bs[1], bs[2]);
      if |bs| == 3 {
        assert rest == "";
        assert bs == [bs[0], bs[1], bs[2]];
        LastGroupDecodes(s, g, bs);
      } else {
        DecodeEncode(bs[3..]);
        GroupsDecode(s, g, rest, [bs[0], bs[1], bs[2]], bs[3..]);
        assert bs == [bs[0], bs[1], bs[2]] + bs[3..];
      }
    }
  }

  lemma LastGroupDecodes(s: string, g: string, bs: seq<Byte>)
    requires |g| == 4 && s == g && DecodeFinalGroup(g) == Some(bs)
    ensures Decode(s) == Some(bs)
  {
  }

  lemma GroupsDecode(s: string, g: string, rest: string, head: seq<Byte>, tail: seq<Byte>)
    requires |g| == 4 && s == g + rest && DecodeGroup(g) == Some(head)
    requires |rest| > 0 && Decode(rest) == Some(tail)
    ensures Decode(s) == Some(head + tail)
  {
    assert |rest| % 4 == 0;
    AddGroup(|s|, |rest|);
    assert s[..4] == g && s[4..] == rest;
    assert DecodeGroups(rest) == Some(tail);
  }

  lemma AddGroup(n: nat, m: nat)
    requires m % 4 == 0 && n == m + 4 && m > 0
    ensures n % 4 == 0 && n != 4 && n != 0
  {
  }

  /** The test vectors of section 10 of RFC 4648: they pin the alphabet,
      the bit order and the padding, which the round trip alone would not. */
  lemma KnownAnswers()
    ensures Encode([]) == ""
    ensures Encode([102]) == "Zg=="
    ensures Encode([102, 111]) == "Zm8="
    ensures Encode([102, 111, 111]) == "Zm9v"
  {
  }

  /** The longer vectors of section 10 of RFC 4648, and decoding two of them. */
  lemma KnownAnswersLonger()
    ensures Encode([102, 111, 111, 98]) == "Zm9vYg=="
    ensures Encode([102, 111, 111, 98, 97]) == "Zm9vYmE="
    ensures Encode([102, 111, 111, 98, 97, 114]) == "Zm9vYmFy"
  {
    KnownAnswers();
    assert EncodeGroup(102, 111, 111) == "Zm9v";
    assert Encode([98]) == "Yg==";
    assert Encode([98, 97]) == "YmE=";
    assert Encode([98, 97, 114]) == EncodeGroup(98, 97, 114) + "" == "YmFy";
    assert [102, 111, 111, 98][3..] == [98];
    assert [102, 111, 111, 98, 97][3..] == [98, 97];
    assert [102, 111, 111, 98, 97, 114][3..] == [98, 97, 114];
  }

  lemma KnownDecodes()
    ensures Decode("Zm9vYmFy") == Some([102, 111, 111, 98, 97, 114])
    ensures Decode("Zm8=") == Some([102, 111])
  {
    KnownAnswers();
    KnownAnswersLonger();
    DecodeEncode([102, 111, 111, 98, 97, 114]);
    DecodeEncode([102, 111]);
  }
}
