/** The base64 encoding of section 4 of RFC 4648 (alphabet, "=" padding), as
    Python's `base64.b64encode` produces it, and a decoder that inverts it. */
module Base64 {
  import opened Common

  /** The 64 characters of Table 1 of RFC 4648. */
  predicate IsAlphabetChar(c: char) {
    'A' <= c <= 'Z' || 'a' <= c <= 'z' || '0' <= c <= '9' || c == '+' || c == '/'
  }

  function Char(n: int): (c: char)
    requires 0 <= n < 64
    ensures IsAlphabetChar(c)
    ensures Value(c) == n
  {
    if n < 26 then ('A' as int + n) as char
    else if n < 52 then ('a' as int + n - 26) as char
    else if n < 62 then ('0' as int + n - 52) as char
    else if n == 62 then '+'
    else '/'
  }

  function Value(c: char): (n: int)
    requires IsAlphabetChar(c)
    ensures 0 <= n < 64
  {
    if 'A' <= c <= 'Z' then c as int - 'A' as int
    else if 'a' <= c <= 'z' then c as int - 'a' as int + 26
    else if '0' <= c <= '9' then c as int - '0' as int + 52
    else if c == '+' then 62
    else 63
  }

  /** Each group of three bytes becomes four characters; a final group of one
      or two bytes is padded with "==" or "=". */
  function Encode(b: seq<byte>): string
    decreases |b|
  {
    if |b| == 0 then ""
    else if |b| == 1 then [Char(b[0] / 4), Char(b[0] % 4 * 16), '=', '=']
    else if |b| == 2 then [Char(b[0] / 4), Char(b[0] % 4 * 16 + b[1] / 16), Char(b[1] % 16 * 4), '=']
    else Quad(b[0], b[1], b[2]) + Encode(b[3..])
  }

  /** Every started group of three bytes takes four characters. */
  lemma {:induction false} EncodeLength(b: seq<byte>)
    ensures |Encode(b)| == 4 * ((|b| + 2) / 3)
    decreases |b|
  {
    if |b| >= 3 {
      assert Encode(b) == Quad(b[0], b[1], b[2]) + Encode(b[3..]);
      EncodeLength(b[3..]);
      assert (|b| + 2) / 3 == (|b[3..]| + 2) / 3 + 1;
    } else if |b| > 0 {
      assert (|b| + 2) / 3 == 1;
    }
  }

  /** The four characters of a full group of three bytes. */
  function Quad(b0: byte, b1: byte, b2: byte): (q: string)
    ensures |q| == 4
  {
    [Char(b0 / 4), Char(b0 % 4 * 16 + b1 / 16), Char(b1 % 16 * 4 + b2 / 64), Char(b2 % 64)]
  }

  function Decode(s: string): Option<seq<byte>>
    decreases |s|
  {
    if |s| == 0 then Some([])
    else if |s| < 4 || !IsAlphabetChar(s[0]) || !IsAlphabetChar(s[1]) then None
    else
      var a, b := Value(s[0]), Value(s[1]);
      if s[2] == '=' then
        if s[3] == '=' && |s| == 4 then Some([a * 4 + b / 16]) else None
      else if !IsAlphabetChar(s[2]) then None
      else
        var c := Value(s[2]);
        if s[3] == '=' then
          if |s| == 4 then Some([a * 4 + b / 16, b % 16 * 16 + c / 4]) else None
        else if !IsAlphabetChar(s[3]) then None
        else
          var d := Value(s[3]);
          match Decode(s[4..])
          case None => None
          case Some(rest) => Some([a * 4 + b / 16, b % 16 * 16 + c / 4, c % 4 * 64 + d] + rest)
  }

  lemma SplitNibble(hi: int, lo: int)
    requires 0 <= lo < 16
    ensures (hi * 16 + lo) / 16 == hi && (hi * 16 + lo) % 16 == lo
  {
  }

  lemma SplitCrumb(hi: int, lo: int)
    requires 0 <= lo < 4
    ensures (hi * 4 + lo) / 4 == hi && (hi * 4 + lo) % 4 == lo
  {
  }

  /** The three bytes that four sextets `a`, `b`, `c`, `d` stand for. */
  function Triple(a: int, b: int, c: int, d: int): seq<int> {
    [a * 4 + b / 16, b % 16 * 16 + c / 4, c % 4 * 64 + d]
  }

  /** The four sextets of three bytes give the bytes back. */
  lemma Sextets(b0: byte, b1: byte, b2: byte, x0: int, x1: int, x2: int, x3: int)
    requires x0 == b0 / 4 && x1 == b0 % 4 * 16 + b1 / 16
    requires x2 == b1 % 16 * 4 + b2 / 64 && x3 == b2 % 64
    ensures Triple(x0, x1, x2, x3) == [b0, b1, b2]
  {
    SplitNibble(b0 % 4, b1 / 16);
    SplitCrumb(b1 % 16, b2 / 64);
  }

  /** Four alphabet characters decode to three bytes ahead of the rest. */
  lemma DecodeQuad(c0: char, c1: char, c2: char, c3: char, t: string)
    requires IsAlphabetChar(c0) && IsAlphabetChar(c1) && IsAlphabetChar(c2) && IsAlphabetChar(c3)
    ensures Decode([c0, c1, c2, c3] + t) ==
      match Decode(t)
      case None => None
      case Some(rest) => Some(Triple(Value(c0), Value(c1), Value(c2), Value(c3)) + rest)
  {
    var s := [c0, c1, c2, c3] + t;
    assert s[4..] == t;
  }

  /** The characters of a full group are alphabet characters. */
  lemma QuadAlphabet(b0: byte, b1: byte, b2: byte)
    ensures AlphabetBefore(Quad(b0, b1, b2), 4)
  {
  }

  /** The values of the characters of a full group give the three bytes back. */
  lemma QuadValues(b0: byte, b1: byte, b2: byte)
    ensures var q := Quad(b0, b1, b2);
      && IsAlphabetChar(q[0]) && IsAlphabetChar(q[1]) && IsAlphabetChar(q[2]) && IsAlphabetChar(q[3])
      && Triple(Value(q[0]), Value(q[1]), Value(q[2]), Value(q[3])) == [b0, b1, b2]
  {
    Sextets(b0, b1, b2, b0 / 4, b0 % 4 * 16 + b1 / 16, b1 % 16 * 4 + b2 / 64, b2 % 64);
  }

  /** A full group decodes to its three bytes ahead of whatever follows. */
  lemma DecodeQuadBytes(b0: byte, b1: byte, b2: byte, t: string)
    ensures Decode(Quad(b0, b1, b2) + t) ==
      match Decode(t)
      case None => None
      case Some(rest) => Some([b0, b1, b2] + rest)
  {
    var q := Quad(b0, b1, b2);
    QuadValues(b0, b1, b2);
    assert q == [q[0], q[1], q[2], q[3]];
    DecodeQuad(q[0], q[1], q[2], q[3], t);
  }

  /** A final group of one byte, padded with "==", decodes to that byte. */
  lemma DecodeEncodeOne(b: seq<byte>)
    requires |b| == 1
    ensures Decode(Encode(b)) == Some(b)
  {
    var c0, c1 := Char(b[0] / 4), Char(b[0] % 4 * 16);
    assert Encode(b) == [c0, c1, '=', '='];
    SplitNibble(b[0] % 4, 0);
    assert Value(c0) * 4 + Value(c1) / 16 == b[0];
    assert [b[0]] == b;
  }

  lemma DecodeEncodePair(b0: byte, b1: byte)
    ensures Decode(Encode([b0, b1])) == Some([b0, b1])
  {
    SplitNibble(b0 % 4, b1 / 16);
    SplitCrumb(b1 % 16, 0);
  }

  /** A final group of two bytes, padded with "=", decodes to those bytes. */
  lemma DecodeEncodeTwo(b: seq<byte>)
    requires |b| == 2
    ensures Decode(Encode(b)) == Some(b)
  {
    assert [b[0], b[1]] == b;
    DecodeEncodePair(b[0], b[1]);
  }

  /** Decoding inverts encoding for every byte string. */
  lemma {:induction false} DecodeEncode(b: seq<byte>)
    ensures Decode(Encode(b)) == Some(b)
    decreases |b|
  {
    if |b| == 1 {
      DecodeEncodeOne(b);
    } else if |b| == 2 {
      DecodeEncodeTwo(b);
    } else if |b| >= 3 {
      var t := Encode(b[3..]);
      assert Encode(b) == Quad(b[0], b[1], b[2]) + t;
      DecodeQuadBytes(b[0], b[1], b[2], t);
      DecodeEncode(b[3..]);
      assert [b[0], b[1], b[2]] + b[3..] == b;
    }
  }

  /** The number of "=" characters that close the encoding of `n` bytes. */
  function PadCount(n: nat): nat {
    if n % 3 == 0 then 0 else 3 - n % 3
  }

  /** Three more bytes need the same padding. */
  lemma PadCountStep(n: nat)
    ensures PadCount(n + 3) == PadCount(n)
  {
    assert (n + 3) % 3 == n % 3;
  }

  predicate AlphabetBefore(s: string, n: int) {
    forall i :: 0 <= i < n && i < |s| ==> IsAlphabetChar(s[i])
  }

  /** The shape of an encoding: alphabet characters up to the last `p`,
      which are "=". */
  predicate Shaped(s: string, p: nat) {
    && p <= |s|
    && AlphabetBefore(s, |s| - p)
    && (forall i :: |s| - p <= i < |s| ==> s[i] == '=')
  }

  lemma ShapedAfterQuad(q: string, t: string, p: nat)
    requires |q| == 4 && AlphabetBefore(q, 4)
    requires Shaped(t, p)
    ensures Shaped(q + t, p)
  {
    var s := q + t;
    forall i | 0 <= i < |s| - p ensures IsAlphabetChar(s[i]) {
      if i >= 4 { assert s[i] == t[i - 4]; }
    }
    forall i | |s| - p <= i < |s| ensures s[i] == '=' {
      assert s[i] == t[i - 4];
    }
  }

  /** The characters of an encoding: alphabet characters, then "==" after a
      final single byte or "=" after a final pair, and no other padding. */
  lemma {:induction false} EncodeShape(b: seq<byte>)
    ensures Shaped(Encode(b), PadCount(|b|))
    decreases |b|
  {
    if |b| == 1 {
      var s := Encode(b);
      assert s == [Char(b[0] / 4), Char(b[0] % 4 * 16), '=', '='];
      assert IsAlphabetChar(s[0]) && IsAlphabetChar(s[1]);
    } else if |b| == 2 {
      var s := Encode(b);
      assert s == [Char(b[0] / 4), Char(b[0] % 4 * 16 + b[1] / 16), Char(b[1] % 16 * 4), '='];
      assert IsAlphabetChar(s[0]) && IsAlphabetChar(s[1]) && IsAlphabetChar(s[2]);
    } else if |b| >= 3 {
      var q := Quad(b[0], b[1], b[2]);
      assert Encode(b) == q + Encode(b[3..]);
      QuadAlphabet(b[0], b[1], b[2]);
      EncodeShape(b[3..]);
      PadCountStep(|b[3..]|);
      ShapedAfterQuad(q, Encode(b[3..]), PadCount(|b|));
    }
  }
}
