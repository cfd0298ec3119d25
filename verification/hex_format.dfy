/**
 The `{:x}` formatting of an MD5 digest: every byte becomes two lower-case
 hexadecimal digits, high nibble first, zero-padded.
 */
module HexFormat {
  import opened Wrappers

  /** The characters `{:x}` may produce. */
  predicate IsHexDigit(c: char) {
    '0' <= c <= '9' || 'a' <= c <= 'f'
  }

  predicate IsLowerHex(s: string) {
    forall i :: 0 <= i < |s| ==> IsHexDigit(s[i])
  }

  /** One nibble as a lower-case hexadecimal digit. */
  function HexDigit(d: int): (c: char)
    requires 0 <= d < 16
    ensures IsHexDigit(c)
    ensures DigitValue(c) == Some(d)
  {
    if d < 10 then ('0' as int + d) as char else ('a' as int + d - 10) as char
  }

  /** The value of a lower-case hexadecimal digit; `None` for any other character. */
  function DigitValue(c: char): (r: Option<int>)
    ensures r.Some? <==> IsHexDigit(c)
    ensures r.Some? ==> 0 <= r.value < 16
  {
    if '0' <= c <= '9' then Some(c as int - '0' as int)
    else if 'a' <= c <= 'f' then Some(c as int - 'a' as int + 10)
    else None
  }

  /** `format!("{:x}", digest)`. */
  function LowerHex(bytes: seq<bv8>): (s: string)
    ensures |s| == 2 * |bytes|
    ensures IsLowerHex(s)
  {
    if |bytes| == 0 then "" else ByteHex(bytes[0]) + LowerHex(bytes[1..])
  }

  /** `{:02x}` of one byte: high nibble, then low nibble. */
  function ByteHex(b: bv8): (s: string)
    ensures |s| == 2 && IsLowerHex(s)
  {
    [HexDigit(b as int / 16), HexDigit(b as int % 16)]
  }

  /** The two digits of a byte parse back to that byte. */
  lemma ByteHexParses(b: bv8)
    ensures var s := ByteHex(b);
            && DigitValue(s[0]).Some? && DigitValue(s[1]).Some?
            && (DigitValue(s[0]).value * 16 + DigitValue(s[1]).value) as bv8 == b
  {
    var n := b as int;
    assert n / 16 * 16 + n % 16 == n;
  }

  /** The inverse of `LowerHex`: parses pairs of digits; `None` on an odd length or a foreign character. */
  function ParseLowerHex(s: string): (r: Option<seq<bv8>>)
    ensures r.Some? ==> 2 * |r.value| == |s|
  {
    if |s| == 0 then Some([])
    else if |s| == 1 then None
    else
      match (DigitValue(s[0]), DigitValue(s[1]), ParseLowerHex(s[2..]))
      case (Some(hi), Some(lo), Some(rest)) => Some([(hi * 16 + lo) as bv8] + rest)
      case _ => None
  }

  /** Parsing a byte's two digits in front of a parsable tail. */
  lemma ParseByteHexCons(b: bv8, tail: string, rest: seq<bv8>)
    requires ParseLowerHex(tail) == Some(rest)
    ensures ParseLowerHex(ByteHex(b) + tail) == Some([b] + rest)
  {
    var s := ByteHex(b) + tail;
    assert s[0] == ByteHex(b)[0] && s[1] == ByteHex(b)[1];
    assert s[2..] == tail;
    ByteHexParses(b);
  }

  /** Parsing the rendering gives the bytes back. */
  lemma {:induction false} ParseLowerHexRoundTrip(bytes: seq<bv8>)
    ensures ParseLowerHex(LowerHex(bytes)) == Some(bytes)
  {
    if |bytes| > 0 {
      ParseLowerHexRoundTrip(bytes[1..]);
      ParseByteHexCons(bytes[0], LowerHex(bytes[1..]), bytes[1..]);
      assert bytes == [bytes[0]] + bytes[1..];
    }
  }

  /** Two digests with the same rendering are the same digest. */
  lemma LowerHexInjective(a: seq<bv8>, b: seq<bv8>)
    requires LowerHex(a) == LowerHex(b)
    ensures a == b
  {
    ParseLowerHexRoundTrip(a);
    ParseLowerHexRoundTrip(b);
  }
}
