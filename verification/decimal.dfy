/** Unsigned numbers printed in decimal and read back. */
module Decimal {

  predicate IsDigit(c: char) {
    '0' <= c <= '9'
  }

  predicate AllDigits(s: string) {
    forall i :: 0 <= i < |s| ==> IsDigit(s[i])
  }

  function DigitChar(d: nat): (c: char)
    requires d < 10
    ensures IsDigit(c)
  {
    '0' + d as char
  }

  function Print(n: nat): (s: string)
    ensures s != [] && AllDigits(s)
  {
    if n < 10 then [DigitChar(n)] else Print(n / 10) + [DigitChar(n % 10)]
  }

  function Read(s: string): nat
    requires AllDigits(s)
  {
    if s == [] then 0 else
      assert IsDigit(s[|s| - 1]);
      Read(s[..|s| - 1]) * 10 + (s[|s| - 1] - '0') as nat
  }

  lemma {:induction false} ReadPrint(n: nat)
    ensures Read(Print(n)) == n
  {
    if n < 10 {
      assert Print(n)[..0] == [];
    } else {
      ReadPrint(n / 10);
      assert Print(n)[..|Print(n)| - 1] == Print(n / 10);
    }
  }

  /** In tens. */
  lemma TenReads()
    ensures Print(10) == "10" && Print(255) == "255"
  {
    assert Print(25) == Print(2) + "5";
  }

  lemma PrintInjective(m: nat, n: nat)
    requires Print(m) == Print(n)
    ensures m == n
  {
    ReadPrint(m);
    ReadPrint(n);
  }

  lemma MarkIsLast(a: string, mark: char, x: string)
    requires !IsDigit(mark) && AllDigits(x)
    ensures forall k :: |a| < k < |a + [mark] + x| ==> (a + [mark] + x)[k] != mark
  {
    forall k | |a| < k < |a + [mark] + x|
      ensures (a + [mark] + x)[k] != mark
    {
      assert (a + [mark] + x)[k] == x[k - |a| - 1];
    }
  }

  /** Digits after a mark that is no digit can be read off unambiguously. */
  lemma SplitAtMark(a: string, b: string, mark: char, x: string, y: string)
    requires !IsDigit(mark) && AllDigits(x) && AllDigits(y)
    requires a + [mark] + x == b + [mark] + y
    ensures a == b && x == y
  {
    var s := a + [mark] + x;
    MarkIsLast(a, mark, x);
    MarkIsLast(b, mark, y);
    assert s[|a|] == mark && s[|b|] == mark;
    assert s[..|a|] == a && s[..|b|] == b;
    assert s[|a| + 1..] == x && s[|b| + 1..] == y;
  }
}
