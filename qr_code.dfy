/** The QR-code service: a code is the text `QR-`, the base64 of the
    data's UTF-8 bytes, a dash and the time of issue in milliseconds. */
module QRCode {
  import opened Common
  import Base64
  import Utf8

  /** The decimal digits of `n`, as a template literal prints them. */
  function Decimal(n: nat): (s: string)
    ensures |s| >= 1
    ensures forall i :: 0 <= i < |s| ==> '0' <= s[i] <= '9'
  {
    var last := [('0' as int + n % 10) as char];
    if n < 10 then last else Decimal(n / 10) + last
  }

  /** `generate(data)` issued at time `now`. */
  function Generate(data: string, now: nat): (code: string)
    ensures IsPrefix("QR-", code)
  {
    var encoded := Base64.Encode(Utf8.Encode(data));
    assert ("QR-" + encoded + "-" + Decimal(now))[..3] == "QR-";
    "QR-" + encoded + "-" + Decimal(now)
  }

  /** `verify(code)`: only the `QR-` prefix is looked at. */
  predicate Verify(code: string): (ok: bool)
    ensures ok <==> |code| >= 3 && code[0] == 'Q' && code[1] == 'R' && code[2] == '-'
    ensures ok ==> '-' in code
  {
    IsPrefix("QR-", code)
  }

  /** `decode(code)`: the second dash-separated piece, read as base64 and
      then as UTF-8; None when there is no dash. No input makes the
      conversion fail, so the `catch` branch is never taken. */
  function Decode(code: string): (r: Option<string>)
    ensures r.None? <==> '-' !in code
  {
    var parts := Split(code, '-');
    SplitCountsSeparator(code, '-');
    if |parts| < 2 then None
    else Some(Utf8.Decode(Base64.Decode(parts[1])))
  }

  /** Every generated code passes verification. */
  lemma VerifyGenerate(data: string, now: nat)
    ensures Verify(Generate(data, now))
  {
  }

  /** Verification accepts text that no call to `generate` produced. */
  lemma VerifyAcceptsBareTag()
    ensures Verify("QR-")
    ensures forall data: string, now: nat :: Generate(data, now) != "QR-"
  {
    forall data: string, now: nat ensures Generate(data, now) != "QR-" {
      assert |Generate(data, now)| >= |"QR-"| + 1 + |Decimal(now)|;
    }
  }

  /** The pieces of a generated code: the tag, the base64 text, and the
      digits of the time. */
  lemma SplitGenerated(data: string, now: nat)
    ensures Split(Generate(data, now), '-') ==
      ["QR", Base64.Encode(Utf8.Encode(data)), Decimal(now)]
  {
    var encoded := Base64.Encode(Utf8.Encode(data));
    var digits := Decimal(now);
    assert Generate(data, now) == "QR" + ['-'] + (encoded + ['-'] + digits);
    SplitAtFirst("QR", '-', encoded + ['-'] + digits);
    SplitAtFirst(encoded, '-', digits);
    SplitWithoutSeparator(digits, '-');
  }

  /** Decoding a generated code gives back the data, at any time of issue. */
  lemma DecodeGenerate(data: string, now: nat)
    ensures Decode(Generate(data, now)) == Some(data)
  {
    SplitGenerated(data, now);
    Base64.DecodeEncode(Utf8.Encode(data));
    Utf8.DecodeEncode(data);
  }

  /** Decoding reads only the second piece: the tag is not checked, and
      anything after the second dash is ignored. */
  lemma DecodeIgnoresTagAndTail(tag: string, body: string, tail: string)
    requires '-' !in tag && '-' !in body
    ensures Decode(tag + "-" + body + "-" + tail) == Some(Utf8.Decode(Base64.Decode(body)))
  {
    assert tag + "-" + body + "-" + tail == tag + ['-'] + (body + ['-'] + tail);
    SplitAtFirst(tag, '-', body + ['-'] + tail);
    SplitAtFirst(body, '-', tail);
  }
}
