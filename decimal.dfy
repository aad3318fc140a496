/** Decimal text of a non-negative integer, as Python's `str(int)` writes it,
    and its inverse. */
module Decimal {
  import opened Common

  predicate IsDigit(c: char) {
    '0' <= c <= '9'
  }

  function Digit(n: int): (c: char)
    requires 0 <= n < 10
    ensures IsDigit(c)
  {
    ('0' as int + n) as char
  }

  /** `str(n)`: most significant digit first, no sign, no leading zero. */
  function Show(n: nat): (s: string)
    ensures |s| >= 1
  {
    if n < 10 then [Digit(n)] else Show(n / 10) + [Digit(n % 10)]
  }

  /** The text is all digits, with no leading zero unless it is "0". */
  lemma {:induction false} ShowDigits(n: nat)
    ensures forall i :: 0 <= i < |Show(n)| ==> IsDigit(Show(n)[i])
    ensures Show(n)[0] == '0' ==> n == 0
  {
    if n >= 10 {
      ShowDigits(n / 10);
      assert Show(n)[0] == Show(n / 10)[0];
    }
  }

  function Parse(s: string): Option<nat>
    decreases |s|
  {
    if |s| == 0 || !IsDigit(s[|s| - 1]) then None
    else
      var d := s[|s| - 1] as int - '0' as int;
      if |s| == 1 then Some(d)
      else match Parse(s[..|s| - 1])
        case None => None
        case Some(p) => Some(p * 10 + d)
  }

  /** Parsing inverts showing for every non-negative integer. */
  lemma {:induction false} ParseShow(n: nat)
    ensures Parse(Show(n)) == Some(n)
  {
    if n >= 10 {
      var s := Show(n);
      assert s[..|s| - 1] == Show(n / 10);
      ParseShow(n / 10);
    }
  }
}
