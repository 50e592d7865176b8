/**
 * UTF-8 as defined in section 3 of RFC 3629: the byte encoding that Rust's
 * `String` stores and whose per-character width `char::len_utf8` reports.
 * `Encode` is the bytes a `String` holds for a sequence of code points and
 * `ByteLen` is the sum of their widths; `DecodeChar` reads one code point
 * back, so that offsets can be checked against an independent decoder.
 */
module Utf8 {
  import opened Optional

  newtype byte = x: int | 0 <= x < 0x100

  /** `char::len_utf8`: 1 byte below U+0080, 2 below U+0800, 3 below U+10000, otherwise 4. */
  function Width(c: char): (w: nat)
    ensures 1 <= w <= 4
    ensures w == 1 <==> c as int < 0x80
    ensures w == 4 <==> c as int >= 0x10000
  {
    if c as int < 0x80 then 1
    else if c as int < 0x800 then 2
    else if c as int < 0x10000 then 3
    else 4
  }

  predicate IsContinuation(b: byte) {
    0x80 <= b < 0xC0
  }

  /** The bytes of one code point: a lead byte followed by `Width(c) - 1` continuation bytes. */
  function EncodeChar(c: char): (bs: seq<byte>)
    ensures |bs| == Width(c)
    ensures !IsContinuation(bs[0])
    ensures forall k :: 1 <= k < |bs| ==> IsContinuation(bs[k])
  {
    var n := c as int;
    if n < 0x80 then
      [n as byte]
    else if n < 0x800 then
      [(0xC0 + n / 0x40) as byte, (0x80 + n % 0x40) as byte]
    else if n < 0x10000 then
      [(0xE0 + n / 0x1000) as byte, (0x80 + (n / 0x40) % 0x40) as byte, (0x80 + n % 0x40) as byte]
    else
      [(0xF0 + n / 0x40000) as byte, (0x80 + (n / 0x1000) % 0x40) as byte,
       (0x80 + (n / 0x40) % 0x40) as byte, (0x80 + n % 0x40) as byte]
  }

  /** The bytes of a string: the encodings of its code points, in order. */
  function Encode(s: seq<char>): seq<byte> {
    if s == [] then [] else EncodeChar(s[0]) + Encode(s[1..])
  }

  /** Sum of the widths of the code points of `s`. */
  function ByteLen(s: seq<char>): nat {
    if s == [] then 0 else Width(s[0]) + ByteLen(s[1..])
  }

  /** The number of bytes a lead byte announces. */
  function LeadWidth(b: byte): nat {
    if b < 0x80 then 1 else if b < 0xE0 then 2 else if b < 0xF0 then 3 else 4
  }

  /**
   * Decodes the code point that starts `bs`: the lead byte gives the width,
   * continuation bytes carry six bits each, and overlong forms, surrogates
   * and values above U+10FFFF are refused.
   */
  function DecodeChar(bs: seq<byte>): (r: Option<char>)
    ensures r.Some? ==> |bs| > 0 && |bs| >= LeadWidth(bs[0]) && Width(r.value) == LeadWidth(bs[0])
  {
    if |bs| == 0 || IsContinuation(bs[0]) || 0xF8 <= bs[0] then None
    else
      var w := LeadWidth(bs[0]);
      if |bs| < w || exists k :: 1 <= k < w && !IsContinuation(bs[k]) then None
      else
        var n :=
          if w == 1 then bs[0] as int
          else if w == 2 then (bs[0] as int - 0xC0) * 0x40 + (bs[1] as int - 0x80)
          else if w == 3 then
            (bs[0] as int - 0xE0) * 0x1000 + (bs[1] as int - 0x80) * 0x40 + (bs[2] as int - 0x80)
          else
            (bs[0] as int - 0xF0) * 0x40000 + (bs[1] as int - 0x80) * 0x1000
            + (bs[2] as int - 0x80) * 0x40 + (bs[3] as int - 0x80);
        var least := if w == 1 then 0 else if w == 2 then 0x80 else if w == 3 then 0x800 else 0x10000;
        if n < least || 0x10FFFF < n || (0xD800 <= n < 0xE000) then None
        else Some(n as char)
  }

  lemma DecodeEncodeChar(c: char, rest: seq<byte>)
    ensures DecodeChar(EncodeChar(c) + rest) == Some(c)
  {
    var n := c as int;
    if n < 0x80 {
      DecodeWidth1(c, rest);
    } else if n < 0x800 {
      DecodeWidth2(c, rest);
    } else if n < 0x10000 {
      DecodeWidth3(c, rest);
    } else {
      DecodeWidth4(c, rest);
    }
  }

  lemma DecodeWidth1(c: char, rest: seq<byte>)
    requires c as int < 0x80
    ensures DecodeChar(EncodeChar(c) + rest) == Some(c)
  {
    var bs := EncodeChar(c) + rest;
    assert bs[0] == c as int as byte;
  }

  lemma DecodeWidth2(c: char, rest: seq<byte>)
    requires 0x80 <= c as int < 0x800
    ensures DecodeChar(EncodeChar(c) + rest) == Some(c)
  {
    var n := c as int;
    var bs := EncodeChar(c) + rest;
    assert bs[0] as int == 0xC0 + n / 0x40 && bs[1] as int == 0x80 + n % 0x40;
    assert LeadWidth(bs[0]) == 2;
    assert (bs[0] as int - 0xC0) * 0x40 + (bs[1] as int - 0x80) == n;
  }

  lemma DecodeWidth3(c: char, rest: seq<byte>)
    requires 0x800 <= c as int < 0x10000
    ensures DecodeChar(EncodeChar(c) + rest) == Some(c)
  {
    var n := c as int;
    var bs := EncodeChar(c) + rest;
    var b0, b1, b2 := n / 0x1000, (n / 0x40) % 0x40, n % 0x40;
    assert bs[0] as int == 0xE0 + b0 && bs[1] as int == 0x80 + b1 && bs[2] as int == 0x80 + b2;
    assert LeadWidth(bs[0]) == 3;
    assert b0 * 0x1000 + b1 * 0x40 + b2 == n;
  }

  lemma DivBy0x1000(n: int, q: int, r: int)
    requires n == q * 0x1000 + r && 0 <= r < 0x1000
    ensures n / 0x1000 == q
  {
  }

  lemma DivBy0x40000(n: int, q: int, r: int)
    requires n == q * 0x40000 + r && 0 <= r < 0x40000
    ensures n / 0x40000 == q
  {
  }

  lemma Digits4(n: int)
    requires 0x10000 <= n < 0x110000
    ensures n / 0x40000 <= 4
    ensures n / 0x40000 * 0x40000 + (n / 0x1000) % 0x40 * 0x1000 + (n / 0x40) % 0x40 * 0x40 + n % 0x40 == n
  {
    var a, r0 := n / 0x40, n % 0x40;
    var b, r1 := a / 0x40, a % 0x40;
    var d, r2 := b / 0x40, b % 0x40;
    assert n == b * 0x1000 + (r1 * 0x40 + r0);
    DivBy0x1000(n, b, r1 * 0x40 + r0);
    assert n == d * 0x40000 + (r2 * 0x1000 + r1 * 0x40 + r0);
    DivBy0x40000(n, d, r2 * 0x1000 + r1 * 0x40 + r0);
  }

  lemma DecodeWidth4(c: char, rest: seq<byte>)
    requires 0x10000 <= c as int
    ensures DecodeChar(EncodeChar(c) + rest) == Some(c)
  {
    var n := c as int;
    Digits4(n);
    var b0, b1, b2, b3 := n / 0x40000, (n / 0x1000) % 0x40, (n / 0x40) % 0x40, n % 0x40;
    var bs := EncodeChar(c) + rest;
    assert bs[0] as int == 0xF0 + b0 && bs[1] as int == 0x80 + b1;
    assert bs[2] as int == 0x80 + b2 && bs[3] as int == 0x80 + b3;
    assert !IsContinuation(bs[0]) && bs[0] < 0xF8 && LeadWidth(bs[0]) == 4 && |bs| >= 4;
    assert forall k :: 1 <= k < 4 ==> IsContinuation(bs[k]);
    var v := (bs[0] as int - 0xF0) * 0x40000 + (bs[1] as int - 0x80) * 0x1000
            + (bs[2] as int - 0x80) * 0x40 + (bs[3] as int - 0x80);
    assert v == n;
  }

  lemma {:induction false} EncodeLength(s: seq<char>)
    ensures |Encode(s)| == ByteLen(s)
  {
    if s != [] {
      EncodeLength(s[1..]);
    }
  }

  lemma {:induction false} EncodeAppend(a: seq<char>, b: seq<char>)
    ensures Encode(a + b) == Encode(a) + Encode(b)
  {
    if a == [] {
      assert a + b == b;
    } else {
      assert (a + b)[1..] == a[1..] + b;
      EncodeAppend(a[1..], b);
    }
  }

  lemma {:induction false} ByteLenAppend(a: seq<char>, b: seq<char>)
    ensures ByteLen(a + b) == ByteLen(a) + ByteLen(b)
  {
    if a == [] {
      assert a + b == b;
    } else {
      assert (a + b)[1..] == a[1..] + b;
      ByteLenAppend(a[1..], b);
    }
  }

  /** Every code point takes at least one byte. */
  lemma {:induction false} ByteLenAtLeastLength(s: seq<char>)
    ensures ByteLen(s) >= |s|
  {
    if s != [] {
      ByteLenAtLeastLength(s[1..]);
    }
  }

  lemma ByteLenOne(c: char)
    ensures ByteLen([c]) == Width(c)
  {
    assert [c][1..] == [];
  }

  /** Splitting a string at code point `i` splits its byte length there. */
  lemma ByteLenSplit(s: seq<char>, i: nat, j: nat)
    requires i <= j <= |s|
    ensures ByteLen(s[..j]) == ByteLen(s[..i]) + ByteLen(s[i..j])
  {
    assert s[..j] == s[..i] + s[i..j];
    ByteLenAppend(s[..i], s[i..j]);
  }

  /** Start offsets of code points strictly increase. */
  lemma OffsetsIncrease(s: seq<char>, i: nat, j: nat)
    requires i < j <= |s|
    ensures ByteLen(s[..i]) < ByteLen(s[..j])
  {
    ByteLenSplit(s, i, j);
    ByteLenAtLeastLength(s[i..j]);
  }

  /** The next offset is the previous one plus the width of the code point in between. */
  lemma OffsetStep(s: seq<char>, i: nat)
    requires i < |s|
    ensures ByteLen(s[..i + 1]) == ByteLen(s[..i]) + Width(s[i])
  {
    ByteLenSplit(s, i, i + 1);
    assert s[i..i + 1] == [s[i]];
    ByteLenOne(s[i]);
  }

  /**
   * Decoding the bytes of `s` at the byte offset of code point `i` gives
   * back code point `i`: the offset table can be checked by an independent decoder.
   */
  lemma DecodeAtOffset(s: seq<char>, i: nat)
    requires i < |s|
    ensures ByteLen(s[..i]) < |Encode(s)|
    ensures DecodeChar(Encode(s)[ByteLen(s[..i])..]) == Some(s[i])
  {
    assert s == s[..i] + ([s[i]] + s[i + 1..]);
    EncodeAppend(s[..i], [s[i]] + s[i + 1..]);
    EncodeAppend([s[i]], s[i + 1..]);
    assert Encode([s[i]]) == EncodeChar(s[i]) by {
      assert [s[i]][1..] == [];
    }
    EncodeLength(s[..i]);
    assert Encode(s)[ByteLen(s[..i])..] == EncodeChar(s[i]) + Encode(s[i + 1..]);
    DecodeEncodeChar(s[i], Encode(s[i + 1..]));
  }
}
