/** Base64 as `Buffer` speaks it: encoding with the alphabet and `=`
    padding of section 4 of RFC 4648, and the lenient decoding of
    `Buffer.from(text, 'base64')`, which skips characters outside the
    alphabet, also accepts the URL-safe `-` and `_` of section 5, stops at
    the first `=`, and turns a final group of two or three characters into
    one or two bytes (a single leftover character gives nothing). */
module Base64 {
  import opened Common

  /** A six-bit value. */
  type Sextet = v: int | 0 <= v < 64

  /** The character of the alphabet for a six-bit value. */
  function SextetChar(v: Sextet): (c: char)
    ensures c != '=' && c != '-'
  {
    if v < 26 then ('A' as int + v) as char
    else if v < 52 then ('a' as int + v - 26) as char
    else if v < 62 then ('0' as int + v - 52) as char
    else if v == 62 then '+'
    else '/'
  }

  /** The value the decoder gives a character, or None for a character it
      skips. */
  function SextetValue(c: char): (r: Option<Sextet>)
    ensures c == '=' ==> r.None?
  {
    if 'A' <= c <= 'Z' then Some(c as int - 'A' as int)
    else if 'a' <= c <= 'z' then Some(c as int - 'a' as int + 26)
    else if '0' <= c <= '9' then Some(c as int - '0' as int + 52)
    else if c == '+' || c == '-' then Some(62)
    else if c == '/' || c == '_' then Some(63)
    else None
  }

  lemma SextetRoundTrip(v: Sextet)
    ensures SextetValue(SextetChar(v)) == Some(v)
  {
  }

  /** The characters for a list of six-bit values. */
  function Chars(vs: seq<Sextet>): (s: string)
    ensures |s| == |vs|
    ensures '-' !in s && '=' !in s
  {
    if vs == [] then "" else [SextetChar(vs[0])] + Chars(vs[1..])
  }

  /** The four six-bit values of a group of three bytes. */
  function Group(b0: Byte, b1: Byte, b2: Byte): (vs: seq<Sextet>)
    ensures |vs| == 4
  {
    [b0 / 4, (b0 % 4) * 16 + b1 / 16, (b1 % 16) * 4 + b2 / 64, b2 % 64]
  }

  /** `buffer.toString('base64')`: four characters per three bytes, the
      last group padded with `=`. */
  function Encode(bs: seq<Byte>): (s: string)
    ensures |s| == (|bs| + 2) / 3 * 4
    ensures '-' !in s
    decreases |bs|
  {
    if |bs| == 0 then ""
    else if |bs| == 1 then Chars(Group(bs[0], 0, 0)[..2]) + "=="
    else if |bs| == 2 then Chars(Group(bs[0], bs[1], 0)[..3]) + "="
    else Chars(Group(bs[0], bs[1], bs[2])) + Encode(bs[3..])
  }

  /** The values of the characters the decoder keeps, up to the first `=`. */
  function Sextets(s: string): (r: seq<Sextet>)
    ensures |r| <= |s|
    decreases |s|
  {
    if s == [] || s[0] == '=' then []
    else
      var v := SextetValue(s[0]);
      if v.Some? then [v.value] + Sextets(s[1..]) else Sextets(s[1..])
  }

  /** Bytes from six-bit values, three per four; the low bits of the last
      value of a short group are dropped. */
  function FromSextets(v: seq<Sextet>): (r: seq<Byte>)
    decreases |v|
  {
    if |v| < 2 then []
    else
      var a: int, b: int := v[0], v[1];
      if |v| == 2 then [a * 4 + b / 16]
      else
        var c: int := v[2];
        if |v| == 3 then [a * 4 + b / 16, (b % 16) * 16 + c / 4]
        else
          var d: int := v[3];
          [a * 4 + b / 16, (b % 16) * 16 + c / 4, (c % 4) * 64 + d] + FromSextets(v[4..])
  }

  /** `Buffer.from(s, 'base64')`. */
  function Decode(s: string): (r: seq<Byte>)
    ensures |r| <= |s|
  {
    var v := Sextets(s);
    FromSextetsLength(v);
    FromSextets(v)
  }

  lemma {:induction false} FromSextetsLength(v: seq<Sextet>)
    ensures |FromSextets(v)| <= |v|
    decreases |v|
  {
    if |v| >= 4 {
      FromSextetsLength(v[4..]);
    }
  }

  /** A character of the alphabet in front is decoded and kept. */
  lemma SextetsCons(v: Sextet, rest: string)
    ensures Sextets([SextetChar(v)] + rest) == [v] + Sextets(rest)
  {
    var s := [SextetChar(v)] + rest;
    SextetRoundTrip(v);
    assert s[0] == SextetChar(v) && s[1..] == rest;
  }

  /** Characters of the alphabet are all kept, in order. */
  lemma {:induction false} SextetsOfChars(vs: seq<Sextet>, rest: string)
    ensures Sextets(Chars(vs) + rest) == vs + Sextets(rest)
    decreases |vs|
  {
    if vs == [] {
      assert Chars(vs) + rest == rest;
    } else {
      assert Chars(vs) + rest == [SextetChar(vs[0])] + (Chars(vs[1..]) + rest);
      SextetsCons(vs[0], Chars(vs[1..]) + rest);
      SextetsOfChars(vs[1..], rest);
      assert vs == [vs[0]] + vs[1..];
    }
  }

  /** Decoding stops at padding. */
  lemma SextetsOfPadding(pad: string)
    requires pad == "=" || pad == "=="
    ensures Sextets(pad) == []
  {
  }

  /** One full group of three bytes is read back. */
  lemma GroupRoundTrip(b0: Byte, b1: Byte, b2: Byte)
    ensures var v0, v1, v2, v3 := b0 / 4, (b0 % 4) * 16 + b1 / 16, (b1 % 16) * 4 + b2 / 64, b2 % 64;
      && v0 * 4 + v1 / 16 == b0
      && (v1 % 16) * 16 + v2 / 4 == b1
      && (v2 % 4) * 64 + v3 == b2
  {
    var v1 := (b0 % 4) * 16 + b1 / 16;
    assert v1 / 16 == b0 % 4 && v1 % 16 == b1 / 16;
    var v2 := (b1 % 16) * 4 + b2 / 64;
    assert v2 / 4 == b1 % 16 && v2 % 4 == b2 / 64;
  }

  /** A full group decodes to its three bytes ahead of the rest. */
  lemma FullGroupBytes(bs: seq<Byte>, w: seq<Sextet>)
    requires |bs| >= 3
    ensures FromSextets(Group(bs[0], bs[1], bs[2]) + w) == bs[..3] + FromSextets(w)
  {
    var vs := Group(bs[0], bs[1], bs[2]);
    assert (vs + w)[4..] == w;
    GroupRoundTrip(bs[0], bs[1], bs[2]);
  }

  /** Padded characters decode to their values alone. */
  lemma PaddedSextets(vs: seq<Sextet>, pad: string)
    requires pad == "=" || pad == "=="
    ensures Sextets(Chars(vs) + pad) == vs
  {
    SextetsOfChars(vs, pad);
    SextetsOfPadding(pad);
    assert vs + [] == vs;
  }

  /** The two values of a one-byte group give that byte back. */
  lemma OneByteBits(b0: Byte)
    ensures FromSextets(Group(b0, 0, 0)[..2]) == [b0]
  {
    var vs := Group(b0, 0, 0)[..2];
    var x: int := b0;
    assert vs[0] == x / 4 && vs[1] == (x % 4) * 16;
    assert (x % 4) * 16 / 16 == x % 4;
  }

  /** The three values of a two-byte group give those bytes back. */
  lemma TwoBytesBits(b0: Byte, b1: Byte)
    ensures FromSextets(Group(b0, b1, 0)[..3]) == [b0, b1]
  {
    var vs := Group(b0, b1, 0)[..3];
    var x, y: int := b0, b1;
    var v1 := (x % 4) * 16 + y / 16;
    var v2 := (y % 16) * 4;
    assert vs[0] == x / 4 && vs[1] == v1 && vs[2] == v2;
    assert v1 / 16 == x % 4 && v1 % 16 == y / 16;
    assert v2 / 4 == y % 16;
    assert x / 4 * 4 + x % 4 == x;
    assert y / 16 * 16 + y % 16 == y;
    assert FromSextets(vs) == [x / 4 * 4 + v1 / 16, (v1 % 16) * 16 + v2 / 4];
  }

  /** A padded final group of one byte decodes to that byte. */
  lemma OneByteRoundTrip(bs: seq<Byte>)
    requires |bs| == 1
    ensures Decode(Encode(bs)) == bs
  {
    PaddedSextets(Group(bs[0], 0, 0)[..2], "==");
    OneByteBits(bs[0]);
    assert bs == [bs[0]];
  }

  /** A padded final group of two bytes decodes to those bytes. */
  lemma TwoBytesRoundTrip(bs: seq<Byte>)
    requires |bs| == 2
    ensures Decode(Encode(bs)) == bs
  {
    PaddedSextets(Group(bs[0], bs[1], 0)[..3], "=");
    TwoBytesBits(bs[0], bs[1]);
    assert bs == [bs[0], bs[1]];
  }

  /** Decoding what was encoded gives the bytes back. */
  lemma {:induction false} DecodeEncode(bs: seq<Byte>)
    ensures Decode(Encode(bs)) == bs
    decreases |bs|
  {
    if |bs| == 0 {
    } else if |bs| == 1 {
      OneByteRoundTrip(bs);
    } else if |bs| == 2 {
      TwoBytesRoundTrip(bs);
    } else {
      SextetsOfChars(Group(bs[0], bs[1], bs[2]), Encode(bs[3..]));
      FullGroupBytes(bs, Sextets(Encode(bs[3..])));
      DecodeEncode(bs[3..]);
      assert bs == bs[..3] + bs[3..];
    }
  }
}
