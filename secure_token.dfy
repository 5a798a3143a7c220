/**
 * Secure tokens: 32 random bytes written out as lowercase hexadecimal, which is what
 * `randomBytes(32).toString('hex')` yields. The random bytes are an input here; the
 * encoding, its inverse and its injectivity are proved.
 */
module SecureToken {
  import opened Wrappers

  type byte = x: int | 0 <= x < 256

  /** The output of one draw from the random source. */
  type Bytes32 = s: seq<byte> | |s| == 32 witness seq(32, i => 0)

  predicate IsHexDigit(c: char) {
    '0' <= c <= '9' || 'a' <= c <= 'f'
  }

  /** A token as the generator produces it: 64 lowercase hexadecimal characters. */
  predicate IsSecureToken(token: string) {
    |token| == 64 && forall i :: 0 <= i < |token| ==> IsHexDigit(token[i])
  }

  function HexDigit(n: int): (c: char)
    requires 0 <= n < 16
    ensures IsHexDigit(c)
  {
    if n < 10 then ('0' as int + n) as char else ('a' as int + n - 10) as char
  }

  function DigitValue(c: char): (n: int)
    requires IsHexDigit(c)
    ensures 0 <= n < 16 && HexDigit(n) == c
  {
    if c <= '9' then c as int - '0' as int else c as int - 'a' as int + 10
  }

  /** Two lowercase hex digits per byte, high nibble first. */
  function HexEncode(bytes: seq<byte>): (s: string)
    ensures |s| == 2 * |bytes|
    ensures forall i :: 0 <= i < |s| ==> IsHexDigit(s[i])
  {
    if bytes == [] then ""
    else [HexDigit(bytes[0] / 16), HexDigit(bytes[0] % 16)] + HexEncode(bytes[1..])
  }

  /** The inverse reading; None for an odd length or any character that is not a lowercase hex digit. */
  function HexDecode(s: string): Option<seq<byte>>
  {
    if |s| == 0 then Some([])
    else if |s| == 1 || !IsHexDigit(s[0]) || !IsHexDigit(s[1]) then None
    else match HexDecode(s[2..])
      case None => None
      case Some(rest) => Some([DigitValue(s[0]) * 16 + DigitValue(s[1])] + rest)
  }

  /** The token minted from one draw. */
  function TokenOf(draw: Bytes32): (token: string)
    ensures IsSecureToken(token)
  {
    HexEncode(draw)
  }

  lemma {:induction false} HexDecodeEncode(bytes: seq<byte>)
    ensures HexDecode(HexEncode(bytes)) == Some(bytes)
  {
    if bytes != [] {
      var s := HexEncode(bytes);
      assert s[2..] == HexEncode(bytes[1..]);
      HexDecodeEncode(bytes[1..]);
      var b := bytes[0];
      assert DigitValue(s[0]) == b / 16 && DigitValue(s[1]) == b % 16;
      assert [b] + bytes[1..] == bytes;
    }
  }

  lemma {:induction false} HexEncodeDecode(s: string, bytes: seq<byte>)
    requires HexDecode(s) == Some(bytes)
    ensures HexEncode(bytes) == s
  {
    if |s| > 0 {
      var rest := HexDecode(s[2..]).value;
      HexEncodeDecode(s[2..], rest);
      var b := DigitValue(s[0]) * 16 + DigitValue(s[1]);
      assert bytes == [b] + rest;
      assert b / 16 == DigitValue(s[0]) && b % 16 == DigitValue(s[1]);
      assert bytes[1..] == rest;
      assert s == [s[0], s[1]] + s[2..];
    }
  }

  /** Distinct draws give distinct tokens: token uniqueness is exactly draw uniqueness. */
  lemma {:induction false} TokenOfInjective(a: Bytes32, b: Bytes32)
    requires TokenOf(a) == TokenOf(b)
    ensures a == b
  {
    HexDecodeEncode(a);
    HexDecodeEncode(b);
  }
}
