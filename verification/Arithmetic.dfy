// Powers of two, and small facts about multiplication and division.
module Arithmetic {

  function Pow2(n: nat): (r: nat)
    ensures r > 0
  {
    if n == 0 then 1 else 2 * Pow2(n - 1)
  }

  lemma MulMonotone(a: nat, b: nat, d: nat)
    requires a <= b
    ensures a * d <= b * d
  {
  }

  lemma DivMod(a: nat, d: nat)
    requires 0 < d
    ensures (a / d) * d + a % d == a && a % d < d
  {
  }

  lemma DivModUnique(a: nat, d: nat, q: nat, r: nat)
    requires 0 < d && a == q * d + r && r < d
    ensures a / d == q && a % d == r
  {
    var x := a / d;
    DivMod(a, d);
    if x < q {
      MulMonotone(x + 1, q, d);
      assert false;
    } else if q < x {
      MulMonotone(q + 1, x, d);
      assert false;
    }
  }

  lemma MulRegroup(a: nat, b: nat, c: nat)
    ensures (a * b) * c == b * (a * c)
  {
  }

  lemma MulSucc(a: nat, d: nat)
    ensures (a + 1) * d == a * d + d
  {
  }

  lemma MulNested(x: nat, b: nat, y: nat, a: nat)
    ensures (x * b + y) * a == x * (a * b) + y * a
  {
    assert x * b * a == x * (a * b);
  }

  lemma DivDiv(n: nat, a: nat, b: nat)
    requires 0 < a && 0 < b
    ensures 0 < a * b && n / a / b == n / (a * b)
  {
    DivMod(n, a);
    DivMod(n / a, b);
    DivDivParts(n, a, b, n / a, n % a, n / a / b, n / a % b);
  }

  lemma DivDivParts(n: nat, a: nat, b: nat, q: nat, r: nat, q': nat, r': nat)
    requires r < a && r' < b && n == q * a + r && q == q' * b + r'
    ensures 0 < a * b && n / (a * b) == q'
  {
    MulNested(q', b, r', a);
    MulMonotone(r' + 1, b, a);
    MulSucc(r', a);
    assert b * a == a * b;
    DivModUnique(n, a * b, q', r' * a + r);
  }
}
