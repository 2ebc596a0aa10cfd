/** Lower-case hexadecimal encoding of bytes, as `encoding/hex.EncodeToString`
    produces it, together with its inverse. Tokens are the encoding of 32 random bytes. */
module Hex {
  import opened Results

  newtype byte = x: int | 0 <= x < 256

  /** The alphabet `EncodeToString` writes: `0`-`9` then `a`-`f`. */
  predicate IsHexDigit(c: char) {
    '0' <= c <= '9' || 'a' <= c <= 'f'
  }

  /** The digit written for a nibble. */
  function NibbleChar(n: int): (c: char)
    requires 0 <= n < 16
    ensures IsHexDigit(c)
  {
    if n < 10 then ('0' as int + n) as char else ('a' as int + n - 10) as char
  }

  /** The two characters of one byte: high nibble first. */
  function EncodeByte(b: byte): (s: string)
    ensures |s| == 2 && IsHexDigit(s[0]) && IsHexDigit(s[1])
  {
    [NibbleChar(b as int / 16), NibbleChar(b as int % 16)]
  }

  function Encode(bs: seq<byte>): (s: string)
    ensures |s| == 2 * |bs|
    ensures forall i :: 0 <= i < |s| ==> IsHexDigit(s[i])
  {
    if bs == [] then "" else EncodeByte(bs[0]) + Encode(bs[1..])
  }

  /** The nibble a lower-case hex digit stands for; `None` for any other character. */
  function DigitValue(c: char): (v: Option<int>)
    ensures v.Some? <==> IsHexDigit(c)
    ensures v.Some? ==> 0 <= v.value < 16 && NibbleChar(v.value) == c
  {
    if '0' <= c <= '9' then Some(c as int - '0' as int)
    else if 'a' <= c <= 'f' then Some(c as int - 'a' as int + 10)
    else None
  }

  /** Inverse of `Encode`: fails on odd length or a character outside the alphabet. */
  function Decode(s: string): (r: Option<seq<byte>>)
    ensures r.Some? ==> 2 * |r.value| == |s|
    decreases |s|
  {
    if s == [] then Some([])
    else if |s| == 1 then None
    else
      match (DigitValue(s[0]), DigitValue(s[1]), Decode(s[2..]))
      case (Some(hi), Some(lo), Some(rest)) => Some([(hi * 16 + lo) as byte] + rest)
      case _ => None
  }

  lemma DecodeEncodeByte(b: byte)
    ensures DigitValue(EncodeByte(b)[0]) == Some(b as int / 16)
    ensures DigitValue(EncodeByte(b)[1]) == Some(b as int % 16)
  {
  }

  /** Decoding an encoding gives the bytes back. */
  lemma {:induction false} DecodeEncode(bs: seq<byte>)
    ensures Decode(Encode(bs)) == Some(bs)
  {
    if bs != [] {
      var s := Encode(bs);
      DecodeEncodeByte(bs[0]);
      assert s[2..] == Encode(bs[1..]);
      DecodeEncode(bs[1..]);
      assert [bs[0]] + bs[1..] == bs;
    }
  }

  /** Different byte strings never give the same token. */
  lemma EncodeInjective(a: seq<byte>, b: seq<byte>)
    requires Encode(a) == Encode(b)
    ensures a == b
  {
    DecodeEncode(a);
    DecodeEncode(b);
  }
}
