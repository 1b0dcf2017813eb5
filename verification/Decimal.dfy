/** Decimal rendering of naturals, as done by the scripts' "%d" and str(). */
module Decimal {

  function Digit(d: nat): (c: char)
    requires d < 10
    ensures '0' <= c <= '9'
  {
    '0' + d as char
  }

  predicate IsDigit(c: char) {
    '0' <= c <= '9'
  }

  predicate IsNumeral(s: string) {
    |s| > 0 && forall i :: 0 <= i < |s| ==> IsDigit(s[i])
  }

  function Render(n: nat): (s: string)
    ensures IsNumeral(s)
  {
    if n < 10 then [Digit(n)] else Render(n / 10) + [Digit(n % 10)]
  }

  // int(s) for a string of digits, leading zeros allowed.
  function Value(s: string): nat
    requires forall i :: 0 <= i < |s| ==> IsDigit(s[i])
  {
    if s == [] then 0
    else
      var last := s[|s| - 1];
      assert IsDigit(last);
      10 * Value(s[..|s| - 1]) + (last as int - '0' as int)
  }

  lemma {:induction false} ValueOfRender(n: nat)
    ensures Value(Render(n)) == n
  {
    if n < 10 {
      assert Render(n)[..0] == [];
    } else {
      ValueOfRender(n / 10);
      assert Render(n)[..|Render(n)| - 1] == Render(n / 10);
    }
  }

  // No two numbers share a rendering.
  lemma RenderInjective(m: nat, n: nat)
    ensures Render(m) == Render(n) <==> m == n
  {
    ValueOfRender(m);
    ValueOfRender(n);
  }

  // The digits, and the place of each.
  lemma RenderTens(n: nat, d: nat)
    requires d < 10
    ensures Render(d) == ["0123456789"[d]]
    ensures n > 0 ==> Render(10 * n + d) == Render(n) + ["0123456789"[d]]
  {
    assert (10 * n + d) / 10 == n && (10 * n + d) % 10 == d;
  }

  lemma RenderNonzero(n: nat)
    requires n > 0
    ensures Render(n) != "0"
  {
    RenderInjective(n, 0);
    assert Render(0) == "0";
  }
}
