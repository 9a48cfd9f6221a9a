/** UTF-8, as far as the reward pipeline needs it: the size summary of a worker's output files
    is the length of `content.encode("utf-8")` for each file. A Dafny `char` is a Unicode
    scalar value, so every string here has an encoding. */
module Utf8 {
  import opened Wrappers

  newtype byte = x: int | 0 <= x < 256

  /** Number of bytes UTF-8 spends on one scalar value. */
  function Width(c: char): (n: nat)
    ensures 1 <= n <= 4
    ensures n == 1 <==> c as int < 0x80
  {
    var cp := c as int;
    if cp < 0x80 then 1 else if cp < 0x800 then 2 else if cp < 0x10000 then 3 else 4
  }

  /** The UTF-8 bytes of one scalar value: a lead byte carrying the high bits, then
      continuation bytes of six bits each. */
  function EncodeChar(c: char): (bs: seq<byte>)
    ensures |bs| == Width(c)
  {
    var cp := c as int;
    if cp < 0x80 then [cp as byte]
    else if cp < 0x800 then
      [(0xC0 + cp / 64) as byte, (0x80 + cp % 64) as byte]
    else if cp < 0x10000 then
      [(0xE0 + cp / 4096) as byte, (0x80 + (cp / 64) % 64) as byte, (0x80 + cp % 64) as byte]
    else
      [(0xF0 + cp / 262144) as byte, (0x80 + (cp / 4096) % 64) as byte,
       (0x80 + (cp / 64) % 64) as byte, (0x80 + cp % 64) as byte]
  }

  /** `s.encode("utf-8")`. */
  function Encode(s: string): (bs: seq<byte>) {
    if |s| == 0 then [] else EncodeChar(s[0]) + Encode(s[1..])
  }

  /** `len(s.encode("utf-8"))`. */
  function Length(s: string): (n: nat) {
    |Encode(s)|
  }

  /** Encoding a concatenation concatenates the encodings. */
  lemma {:induction false} EncodeAppend(a: string, b: string)
    ensures Encode(a + b) == Encode(a) + Encode(b)
    decreases |a|
  {
    if |a| > 0 {
      assert (a + b)[0] == a[0];
      assert (a + b)[1..] == a[1..] + b;
      EncodeAppend(a[1..], b);
    } else {
      assert a + b == b;
    }
  }

  /** Every scalar value takes between one and four bytes, and exactly one byte each when the
      text is ASCII. */
  lemma {:induction false} LengthBounds(s: string)
    ensures |s| <= Length(s) <= 4 * |s|
    ensures Length(s) == |s| <==> forall i :: 0 <= i < |s| ==> s[i] as int < 0x80
    decreases |s|
  {
    if |s| > 0 {
      LengthBounds(s[1..]);
      assert forall i :: 1 <= i < |s| ==> s[i] == s[1..][i - 1];
    }
  }

  // ---------------------------------------------------------------------------------------
  // Decoding, the inverse that shows the encoder loses nothing
  // ---------------------------------------------------------------------------------------

  /** The sequence length announced by a lead byte. */
  function LeadWidth(b: byte): (w: nat) {
    if b < 0x80 then 1 else if b < 0xE0 then 2 else if b < 0xF0 then 3 else 4
  }

  /** The scalar value spelled by one lead byte and its continuation bytes. */
  function CodePoint(bs: seq<byte>): (cp: int)
    requires 1 <= |bs| <= 4
  {
    if |bs| == 1 then bs[0] as int
    else if |bs| == 2 then (bs[0] as int - 0xC0) * 64 + (bs[1] as int - 0x80)
    else if |bs| == 3 then
      (bs[0] as int - 0xE0) * 4096 + (bs[1] as int - 0x80) * 64 + (bs[2] as int - 0x80)
    else
      (bs[0] as int - 0xF0) * 262144 + (bs[1] as int - 0x80) * 4096
        + (bs[2] as int - 0x80) * 64 + (bs[3] as int - 0x80)
  }

  predicate IsScalar(n: int) {
    0 <= n < 0xD800 || 0xE000 <= n < 0x110000
  }

  /** A decoder for the sequences the encoder produces; `None` for bytes that do not spell a
      scalar value. */
  function Decode(bs: seq<byte>): (s: Option<string>)
    decreases |bs|
  {
    if |bs| == 0 then Some([])
    else
      var w := LeadWidth(bs[0]);
      if |bs| < w || !IsScalar(CodePoint(bs[..w])) then None
      else match Decode(bs[w..])
        case None => None
        case Some(rest) => Some([CodePoint(bs[..w]) as char] + rest)
  }

  lemma SplitSix(n: int)
    requires n >= 0
    ensures n == (n / 64) * 64 + n % 64
    ensures n / 4096 == (n / 64) / 64
    ensures n / 262144 == (n / 4096) / 64
  {
  }

  /** The lead byte announces the right width, and the bytes spell the value back. */
  lemma EncodeCharInverse(c: char)
    ensures LeadWidth(EncodeChar(c)[0]) == Width(c)
    ensures CodePoint(EncodeChar(c)) == c as int
  {
    var cp := c as int;
    SplitSix(cp);
    SplitSix(cp / 64);
    SplitSix(cp / 4096);
  }

  /** Decoding an encoding gives the text back. */
  lemma {:induction false} DecodeEncode(s: string)
    ensures Decode(Encode(s)) == Some(s)
    decreases |s|
  {
    if |s| > 0 {
      var head := EncodeChar(s[0]);
      var bs := Encode(s);
      EncodeCharInverse(s[0]);
      DecodeEncode(s[1..]);
      assert bs == head + Encode(s[1..]);
      assert bs[0] == head[0];
      assert bs[..|head|] == head;
      assert bs[|head|..] == Encode(s[1..]);
      assert [s[0]] + s[1..] == s;
    }
  }
}
