/** Division by a divisor that is not a literal. */
module Arith {
  lemma MulMono(b: nat, m: nat, n: nat)
    requires m < n
    ensures b * m + b <= b * n
  {
    assert b * n == b * m + b * (n - m);
    assert b * (n - m) == b + b * (n - m - 1);
  }

  lemma DivIs(x: nat, q: nat, r: nat, b: nat)
    requires b > 0 && r < b && x == b * q + r
    ensures x / b == q && x % b == r
  {
    var q' := x / b;
    DivMod(x, b);
    if q' < q { MulMono(b, q', q); }
    if q < q' { MulMono(b, q, q'); }
  }

  lemma DivMod(x: nat, b: nat)
    requires b > 0
    ensures x == b * (x / b) + x % b && 0 <= x % b < b && 0 <= x / b
  {
  }

  /** `w * n`, by addition, so that proofs stay linear. */
  function Times(w: nat, n: nat): (r: nat)
  {
    if n == 0 then 0 else Times(w, n - 1) + w
  }

  lemma {:induction false} TimesIs(w: nat, n: nat)
    ensures Times(w, n) == w * n
  {
    if n > 0 {
      TimesIs(w, n - 1);
      assert w * n == w * (n - 1) + w;
    }
  }

  lemma TimesAtLeast(w: nat, n: nat)
    ensures n > 0 ==> w <= Times(w, n)
  {
  }

  lemma {:induction false} TimesMono(w: nat, m: nat, n: nat)
    requires m <= n
    ensures Times(w, m) <= Times(w, n)
  {
    if m < n { TimesMono(w, m, n - 1); }
  }

  /** `x / w`, by subtraction, and what is left. */
  function Quotient(x: nat, w: nat): (q: nat)
    requires w > 0
  {
    if x < w then 0 else 1 + Quotient(x - w, w)
  }

  function Remainder(x: nat, w: nat): (r: nat)
    requires w > 0
    ensures r < w
  {
    if x < w then x else Remainder(x - w, w)
  }

  lemma {:induction false} QuotientIs(x: nat, w: nat)
    requires w > 0
    ensures Quotient(x, w) == x / w && Remainder(x, w) == x % w
  {
    if x < w {
      DivIs(x, 0, x, w);
    } else {
      QuotientIs(x - w, w);
      DivMod(x - w, w);
      assert w * ((x - w) / w + 1) == w * ((x - w) / w) + w;
      DivIs(x, (x - w) / w + 1, (x - w) % w, w);
    }
  }

  lemma {:induction false} QuotientOf(w: nat, k: nat, i: nat)
    requires i < w
    ensures Quotient(Times(w, k) + i, w) == k && Remainder(Times(w, k) + i, w) == i
  {
    if k > 0 { QuotientOf(w, k - 1, i); }
  }

  lemma {:induction false} QuotientBack(x: nat, w: nat)
    requires w > 0
    ensures x == Times(w, Quotient(x, w)) + Remainder(x, w)
  {
    if x >= w { QuotientBack(x - w, w); }
  }
}
