/** Powers of two and exact division, for 64-bit words. */
module Arithmetic {

  const W: nat := 0x1_0000_0000_0000_0000

  function Pow2(i: nat): (p: nat)
    ensures p >= 1
  {
    if i == 0 then 1 else 2 * Pow2(i - 1)
  }

  lemma {:induction false} AtLeastOnce(p: nat, k: nat)
    requires k >= 1
    ensures p * k >= p
  {
    if k > 1 {
      AtLeastOnce(p, k - 1);
      assert p * k == p * (k - 1) + p;
    }
  }

  lemma DivideExactly(p: nat, q: nat, r: nat)
    requires r < p
    ensures (p * q + r) / p == q
  {
    var x := p * q + r;
    var q', r' := x / p, x % p;
    assert x == p * q' + r';
    assert p * (q' - q) == p * q' - p * q && p * (q - q') == p * q - p * q';
    if q' > q {
      AtLeastOnce(p, q' - q);
    } else if q' < q {
      AtLeastOnce(p, q - q');
    }
  }

  lemma HalveThenDivide(v: nat, p: nat)
    requires p >= 1
    ensures v / 2 / p == v / (2 * p)
  {
    var q := v / (2 * p);
    var r := v % (2 * p);
    assert v == 2 * p * q + r;
    assert v / 2 == p * q + r / 2;
    assert r / 2 < p;
    DivideExactly(p, q, r / 2);
  }

  /** A multiple of `a` leaves no remainder. */
  lemma Multiple(a: nat, q: nat)
    requires a > 0
    ensures (a * q) % a == 0
  {
    DivideExactly(a, q, 0);
  }

  lemma RoundDown(x: nat, a: nat)
    requires a > 0
    ensures (x - x % a) % a == 0
  {
    assert x - x % a == a * (x / a);
    Multiple(a, x / a);
  }

  lemma {:induction false} Pow2Mono(i: nat, j: nat)
    requires i <= j
    ensures Pow2(i) <= Pow2(j)
    decreases j - i
  {
    if i < j {
      Pow2Mono(i + 1, j);
    }
  }

  lemma Pow2Of64()
    ensures Pow2(64) == W
  {
    assert Pow2(4) == 16;
    Pow2Sum(4, 4);
    Pow2Sum(8, 8);
    Pow2Sum(16, 16);
    Pow2Sum(32, 32);
  }

  lemma {:induction false} Pow2Sum(i: nat, j: nat)
    ensures Pow2(i + j) == Pow2(i) * Pow2(j)
  {
    if j > 0 {
      Pow2Sum(i, j - 1);
      assert Pow2(i + j) == 2 * (Pow2(i) * Pow2(j - 1)) == Pow2(i) * Pow2(j);
    }
  }

  ghost predicate IsPow2(p: nat) {
    exists k :: Pow2(k) == p
  }

  lemma {:induction false} Pow2Grows(i: nat, j: nat)
    requires i < j
    ensures Pow2(i) < Pow2(j)
    decreases j - i
  {
    if i + 1 < j {
      Pow2Grows(i + 1, j);
    }
  }

  /** The smaller of two powers of two divides the larger. */
  lemma SmallerDivides(a: nat, b: nat)
    requires IsPow2(a) && IsPow2(b) && a <= b
    ensures b % a == 0
  {
    var i: nat :| Pow2(i) == a;
    var j: nat :| Pow2(j) == b;
    if j < i {
      Pow2Grows(j, i);
    }
    Pow2Sum(i, j - i);
    Multiple(a, Pow2(j - i));
  }
}
