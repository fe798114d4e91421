/** UTF-8, as `Buffer.from(text)` writes it and `buffer.toString('utf-8')`
    reads it back: each character becomes one to four bytes, and a byte
    that does not start a well-formed sequence reads as U+FFFD. */
module Utf8 {
  import opened Common

  /** A continuation byte, `10xxxxxx`. */
  predicate IsContinuation(b: Byte) {
    0x80 <= b <= 0xBF
  }

  /** The bytes of one character. */
  function EncodeChar(c: char): (r: seq<Byte>)
    ensures 1 <= |r| <= 4
    ensures |r| == 1 <==> (c as int) < 0x80
  {
    var cp := c as int;
    if cp < 0x80 then [cp]
    else if cp < 0x800 then [0xC0 + cp / 64, 0x80 + cp % 64]
    else if cp < 0x10000 then [0xE0 + cp / 4096, 0x80 + (cp / 64) % 64, 0x80 + cp % 64]
    else [0xF0 + cp / 262144, 0x80 + (cp / 4096) % 64, 0x80 + (cp / 64) % 64, 0x80 + cp % 64]
  }

  /** `Buffer.from(s)`: the characters' bytes, in order. */
  function Encode(s: string): (r: seq<Byte>)
    ensures |r| >= |s|
    decreases |s|
  {
    if s == [] then [] else EncodeChar(s[0]) + Encode(s[1..])
  }

  /** The replacement character. */
  const Replacement: char := '\U{FFFD}'

  /** The character at the front of `bs` and how many bytes it takes; a
      byte that does not start a well-formed sequence (overlong forms and
      surrogates excluded) stands alone for U+FFFD. */
  function DecodeFront(bs: seq<Byte>): (r: (char, nat))
    requires |bs| > 0
    ensures 1 <= r.1 <= |bs|
  {
    var b0: int := bs[0];
    var b1: int := if |bs| >= 2 then bs[1] else 0;
    var b2: int := if |bs| >= 3 then bs[2] else 0;
    var b3: int := if |bs| >= 4 then bs[3] else 0;
    if b0 < 0x80 then (b0 as char, 1)
    else if 0xC2 <= b0 <= 0xDF && |bs| >= 2 && IsContinuation(b1) then
      (((b0 - 0xC0) * 64 + (b1 - 0x80)) as char, 2)
    else if 0xE0 <= b0 <= 0xEF && |bs| >= 3 && IsContinuation(b1) && IsContinuation(b2)
      && (b0 != 0xE0 || b1 >= 0xA0) && (b0 != 0xED || b1 <= 0x9F) then
      (((b0 - 0xE0) * 4096 + (b1 - 0x80) * 64 + (b2 - 0x80)) as char, 3)
    else if 0xF0 <= b0 <= 0xF4 && |bs| >= 4 && IsContinuation(b1) && IsContinuation(b2) && IsContinuation(b3)
      && (b0 != 0xF0 || b1 >= 0x90) && (b0 != 0xF4 || b1 <= 0x8F) then
      (((b0 - 0xF0) * 262144 + (b1 - 0x80) * 4096 + (b2 - 0x80) * 64 + (b3 - 0x80)) as char, 4)
    else (Replacement, 1)
  }

  /** `buffer.toString('utf-8')`. */
  function Decode(bs: seq<Byte>): (s: string)
    ensures |s| <= |bs|
    ensures |s| == 0 <==> |bs| == 0
    ensures (forall i :: 0 <= i < |bs| ==> bs[i] < 0x80) ==> |s| == |bs|
    decreases |bs|
  {
    if bs == [] then ""
    else
      var front := DecodeFront(bs);
      [front.0] + Decode(bs[front.1..])
  }

  /** A character's own bytes are read back as that character, whatever
      follows them. */
  lemma DecodeFrontOfChar(c: char, rest: seq<Byte>)
    ensures DecodeFront(EncodeChar(c) + rest) == (c, |EncodeChar(c)|)
  {
    var cp := c as int;
    if cp < 0x80 {
    } else if cp < 0x800 {
      DecodeFrontOfTwo(c, rest);
    } else if cp < 0x10000 {
      DecodeFrontOfThree(c, rest);
    } else {
      DecodeFrontOfFour(c, rest);
    }
  }

  lemma DecodeFrontOfTwo(c: char, rest: seq<Byte>)
    requires 0x80 <= c as int < 0x800
    ensures DecodeFront(EncodeChar(c) + rest) == (c, 2)
  {
    var cp := c as int;
    var hi, lo := cp / 64, cp % 64;
    assert cp == hi * 64 + lo;
    var bs := EncodeChar(c) + rest;
    assert bs[0] == 0xC0 + hi && bs[1] == 0x80 + lo;
  }

  lemma DecodeFrontOfThree(c: char, rest: seq<Byte>)
    requires 0x800 <= c as int < 0x10000
    ensures DecodeFront(EncodeChar(c) + rest) == (c, 3)
  {
    var cp := c as int;
    var m, lo := cp / 64, cp % 64;
    assert cp == m * 64 + lo;
    var hi, mid := m / 64, m % 64;
    assert m == hi * 64 + mid;
    assert hi == cp / 4096;
    var bs := EncodeChar(c) + rest;
    assert bs[0] == 0xE0 + hi && bs[1] == 0x80 + mid && bs[2] == 0x80 + lo;
    assert hi * 4096 + mid * 64 + lo == cp;
  }

  lemma DecodeFrontOfFour(c: char, rest: seq<Byte>)
    requires 0x10000 <= c as int
    ensures DecodeFront(EncodeChar(c) + rest) == (c, 4)
  {
    var cp := c as int;
    var m, lo := cp / 64, cp % 64;
    assert cp == m * 64 + lo;
    var n, mid := m / 64, m % 64;
    assert m == n * 64 + mid;
    var hi, upper := n / 64, n % 64;
    assert n == hi * 64 + upper;
    assert n == cp / 4096 && hi == cp / 262144;
    var bs := EncodeChar(c) + rest;
    assert bs[0] == 0xF0 + hi && bs[1] == 0x80 + upper && bs[2] == 0x80 + mid && bs[3] == 0x80 + lo;
    assert hi * 262144 + upper * 4096 + mid * 64 + lo == cp;
  }

  /** Reading back what was written gives the text unchanged. */
  lemma {:induction false} DecodeEncode(s: string)
    ensures Decode(Encode(s)) == s
    decreases |s|
  {
    if s != [] {
      var bs := Encode(s);
      var head := EncodeChar(s[0]);
      DecodeFrontOfChar(s[0], Encode(s[1..]));
      assert bs[|head|..] == Encode(s[1..]);
      DecodeEncode(s[1..]);
      assert s == [s[0]] + s[1..];
    }
  }
}
