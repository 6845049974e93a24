/** Powers of a base, as digit, byte and bit positions weigh. */
module Powers {

  function Pow(base: nat, n: nat): (p: nat)
    requires base > 0
    ensures p > 0
  {
    if n == 0 then 1 else base * Pow(base, n - 1)
  }

  lemma {:induction false} PowSum(base: nat, a: nat, b: nat)
    requires base > 0
    ensures Pow(base, a + b) == Pow(base, a) * Pow(base, b)
  {
    hide Pow;
    if a == 0 {
      PowZero(base);
    } else {
      PowNext(base, a - 1);
      PowNext(base, a - 1 + b);
      PowSum(base, a - 1, b);
      Associate(base, Pow(base, a - 1), Pow(base, b));
    }
  }

  lemma PowZero(base: nat)
    requires base > 0
    ensures Pow(base, 0) == 1
  {
  }

  lemma PowNext(base: nat, n: nat)
    requires base > 0
    ensures Pow(base, n + 1) == base * Pow(base, n)
  {
  }

  lemma Associate(a: nat, b: nat, c: nat)
    ensures a * (b * c) == a * b * c
  {
  }
}
