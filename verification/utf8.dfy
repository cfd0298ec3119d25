/**
 The bytes of a Rust `String`: its UTF-8 encoding. `Context::consume(&s)` on a
 `String` feeds exactly these bytes to the digest.
 */
module Utf8 {

  /** The UTF-8 encoding of one Unicode scalar value (section 3 of RFC 3629). */
  function EncodeChar(c: char): (r: seq<bv8>)
    ensures 1 <= |r| <= 4
    ensures |r| == 1 <==> c as int < 0x80
  {
    var n := c as int;
    if n < 0x80 then [n as bv8]
    else if n < 0x800 then
      DivBelow(n, 0x40, 0x20);
      [Lead(0xC0, n / 0x40, 0x20), Trail(n)]
    else if n < 0x1_0000 then
      DivBelow(n, 0x1000, 0x10);
      [Lead(0xE0, n / 0x1000, 0x10), Trail(n / 0x40), Trail(n)]
    else
      DivBelow(n, 0x4_0000, 0x08);
      [Lead(0xF0, n / 0x4_0000, 0x08), Trail(n / 0x1000), Trail(n / 0x40), Trail(n)]
  }

  lemma DivBelow(n: int, d: int, limit: int)
    requires 0 <= n < d * limit && 0 < d
    ensures 0 <= n / d < limit
  {
  }

  /** A leading byte: the length marker `tag` plus the top bits `high` of the code point. */
  function Lead(tag: int, high: int, limit: int): bv8
    requires 0 <= tag && 0 <= high < limit && tag + limit <= 0x100
  {
    (tag + high) as bv8
  }

  /** A continuation byte carrying the low six bits of `n`. */
  function Trail(n: int): bv8
  {
    (0x80 + n % 0x40) as bv8
  }

  /** The bytes of a string, `s.as_bytes()`. */
  function Encode(s: string): seq<bv8>
  {
    if |s| == 0 then [] else EncodeChar(s[0]) + Encode(s[1..])
  }

  predicate IsAscii(s: string) {
    forall i :: 0 <= i < |s| ==> s[i] as int < 0x80
  }

  lemma EncodeCons(c: char, t: string)
    ensures Encode([c] + t) == EncodeChar(c) + Encode(t)
  {
    assert ([c] + t)[1..] == t;
  }

  /** Encoding a concatenation is concatenating the encodings. */
  lemma {:induction false} EncodeAppend(a: string, b: string)
    ensures Encode(a + b) == Encode(a) + Encode(b)
  {
    if |a| == 0 {
      assert a + b == b;
    } else {
      var c, rest := a[0], a[1..];
      assert a == [c] + rest;
      assert a + b == [c] + (rest + b);
      EncodeAppend(rest, b);
      EncodeCons(c, rest + b);
      EncodeCons(c, rest);
    }
  }

  /** An ASCII string encodes to one byte per character. */
  lemma {:induction false} EncodeAscii(s: string)
    requires IsAscii(s)
    ensures |Encode(s)| == |s|
  {
    if |s| > 0 {
      EncodeAscii(s[1..]);
    }
  }
}
