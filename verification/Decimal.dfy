/** Canonical decimal text, as integer formatting prints it. */
module Decimal {
  function Digit(d: nat): char
    requires d < 10
  {
    '0' + (d as char)
  }

  function Print(n: nat): (s: string)
    ensures s != [] && forall c <- s :: '0' <= c <= '9'
    ensures s[0] == '0' ==> n == 0 && |s| == 1
  {
    if n < 10 then [Digit(n)] else Print(n / 10) + [Digit(n % 10)]
  }

  // The number that decimal digits denote.
  function Value(digits: string): int {
    if digits == [] then 0
    else
      var last := |digits| - 1;
      10 * Value(digits[..last]) + (digits[last] as int - '0' as int)
  }

  lemma {:induction false} PrintDenotes(n: nat)
    ensures Value(Print(n)) == n
  {
    if n < 10 {
      assert Print(n)[..0] == [];
    } else {
      PrintDenotes(n / 10);
      assert Print(n)[..|Print(n)| - 1] == Print(n / 10);
    }
  }

  // Two numbers never share their text.
  lemma {:induction false} PrintInjective(m: nat, n: nat)
    requires Print(m) == Print(n)
    ensures m == n
    decreases m
  {
    var s, t := Print(m), Print(n);
    assert s[|s| - 1] == t[|t| - 1];
    if m >= 10 && n >= 10 {
      assert s[..|s| - 1] == Print(m / 10) && t[..|t| - 1] == Print(n / 10);
      PrintInjective(m / 10, n / 10);
    }
  }
}
