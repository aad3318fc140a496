/** Lower-case hexadecimal text of a byte string, as Python's `hexdigest()`
    writes it, and its inverse. */
module Hex {
  import opened Common

  predicate IsLowerHexDigit(c: char) {
    '0' <= c <= '9' || 'a' <= c <= 'f'
  }

  function Digit(n: int): (c: char)
    requires 0 <= n < 16
    ensures IsLowerHexDigit(c)
    ensures DigitValue(c) == n
  {
    if n < 10 then ('0' as int + n) as char else ('a' as int + n - 10) as char
  }

  function DigitValue(c: char): (n: int)
    requires IsLowerHexDigit(c)
    ensures 0 <= n < 16
  {
    if c <= '9' then c as int - '0' as int else c as int - 'a' as int + 10
  }

  /** Two digits per byte, high nibble first. */
  function Encode(b: seq<byte>): (s: string)
    ensures |s| == 2 * |b|
  {
    if b == [] then "" else [Digit(b[0] / 16), Digit(b[0] % 16)] + Encode(b[1..])
  }

  function Decode(s: string): Option<seq<byte>>
  {
    if s == [] then Some([])
    else if |s| < 2 || !IsLowerHexDigit(s[0]) || !IsLowerHexDigit(s[1]) then None
    else match Decode(s[2..])
      case None => None
      case Some(rest) => Some([DigitValue(s[0]) * 16 + DigitValue(s[1])] + rest)
  }

  /** Decoding inverts encoding for every byte string. */
  lemma {:induction false} DecodeEncode(b: seq<byte>)
    ensures Decode(Encode(b)) == Some(b)
  {
    if b != [] {
      var s := Encode(b);
      assert s[2..] == Encode(b[1..]);
      DecodeEncode(b[1..]);
      assert [b[0]] + b[1..] == b;
    }
  }

  /** Every character of the text is a lower-case hex digit, and so ASCII:
      its UTF-8 bytes are its character codes. */
  lemma {:induction false} EncodeDigits(b: seq<byte>)
    ensures forall i :: 0 <= i < |Encode(b)| ==> IsLowerHexDigit(Encode(b)[i]) && (Encode(b)[i] as int) < 0x80
  {
    if b != [] {
      EncodeDigits(b[1..]);
      var s := Encode(b);
      assert forall i :: 2 <= i < |s| ==> s[i] == Encode(b[1..])[i - 2];
    }
  }
}
