/**
 * The C# integer operators the lattice code relies on, written out because
 * Dafny's `/` and `%` are Euclidean while C#'s truncate toward zero, and the
 * decimal formatting that string interpolation applies to an `int`.
 */
module CsInt {

  /** C# `a / b`: the quotient truncated toward zero. */
  function Div(a: int, b: int): int
    requires b != 0
  {
    if a >= 0 then (if b > 0 then a / b else -(a / -b))
    else (if b > 0 then -((-a) / b) else (-a) / (-b))
  }

  /** C# `a % b`: the remainder takes the sign of the dividend. */
  function Rem(a: int, b: int): int
    requires b != 0
  {
    a - Div(a, b) * b
  }

  /** Division by two, the only divisor the lattice code uses. */
  lemma DivRemTwo(n: int)
    ensures n == 2 * Div(n, 2) + Rem(n, 2)
    ensures n >= 0 ==> Div(n, 2) == n / 2 && Rem(n, 2) == n % 2
    ensures n < 0 ==> Div(n, 2) == -((-n) / 2) && -1 <= Rem(n, 2) <= 0
    ensures Rem(n, 2) == 0 <==> n % 2 == 0
    ensures Rem(n, 2) != 0 ==> n == 2 * Div(n, 2) + (if n >= 0 then 1 else -1)
  {
  }

  /** An even number halves exactly, whatever its sign. */
  lemma DivTwoOfEven(c: int)
    ensures Div(2 * c, 2) == c && Rem(2 * c, 2) == 0
  {
  }

  /** Truncation and Euclidean halving of `2c + 1` differ exactly when `c < 0`. */
  lemma DivTwoOfOdd(c: int)
    ensures Rem(2 * c + 1, 2) != 0
    ensures Div(2 * c + 1, 2) == (if c >= 0 then c else c + 1)
  {
  }

  function DigitChar(d: int): (ch: char)
    requires 0 <= d < 10
    ensures '0' <= ch <= '9'
  {
    "0123456789"[d]
  }

  function DigitValue(ch: char): int
    requires '0' <= ch <= '9'
  {
    ch as int - '0' as int
  }

  /** Decimal digits of a natural number, most significant first, no leading zeros. */
  function NatToString(n: nat): (s: string)
    ensures |s| > 0
    ensures forall i :: 0 <= i < |s| ==> '0' <= s[i] <= '9'
  {
    if n < 10 then [DigitChar(n)] else NatToString(n / 10) + [DigitChar(n % 10)]
  }

  /** C# formatting of an `int` with the invariant culture: an optional `-` and the digits. */
  function IntToString(n: int): (s: string)
  {
    if n < 0 then "-" + NatToString(-n) else NatToString(n)
  }

  /** Reads back a string of decimal digits. */
  function ParseDigits(s: string): nat
    requires forall i :: 0 <= i < |s| ==> '0' <= s[i] <= '9'
  {
    if s == [] then 0 else ParseDigits(s[..|s| - 1]) * 10 + DigitValue(s[|s| - 1])
  }

  lemma {:induction false} ParseNatToString(n: nat)
    ensures ParseDigits(NatToString(n)) == n
  {
    if n >= 10 {
      var s := NatToString(n);
      assert s[..|s| - 1] == NatToString(n / 10);
      ParseNatToString(n / 10);
    }
  }

  /** IntToString never produces a separator or a bracket, and it is injective. */
  lemma IntToStringShape(n: int)
    ensures |IntToString(n)| > 0
    ensures forall i :: 0 <= i < |IntToString(n)| ==> IntToString(n)[i] == '-' || '0' <= IntToString(n)[i] <= '9'
  {
  }

  lemma IntToStringInjective(m: int, n: int)
    requires IntToString(m) == IntToString(n)
    ensures m == n
  {
    if m < 0 && n < 0 {
      var a: nat, b: nat := -m, -n;
      SameTail(NatToString(a), NatToString(b));
      NatToStringInjective(a, b);
    } else if m >= 0 && n >= 0 {
      NatToStringInjective(m, n);
    } else if m < 0 {
      SignedStartsWithMinus(m);
      UnsignedStartsWithDigit(n);
    } else {
      SignedStartsWithMinus(n);
      UnsignedStartsWithDigit(m);
    }
  }

  lemma NatToStringInjective(x: nat, y: nat)
    requires NatToString(x) == NatToString(y)
    ensures x == y
  {
    ParseNatToString(x);
    ParseNatToString(y);
  }

  lemma SameTail(a: string, b: string)
    requires "-" + a == "-" + b
    ensures a == b
  {
    assert a == ("-" + a)[1..];
    assert b == ("-" + b)[1..];
  }

  lemma SignedStartsWithMinus(m: int)
    requires m < 0
    ensures IntToString(m)[0] == '-'
  {
  }

  lemma UnsignedStartsWithDigit(n: int)
    requires n >= 0
    ensures '0' <= IntToString(n)[0] <= '9'
  {
  }
}
