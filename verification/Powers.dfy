/** Powers of two, and the parts of a number in a base. */
module Powers {
  function Pow2(n: nat): (p: nat)
    ensures p >= 1
  {
    if n == 0 then 1 else 2 * Pow2(n - 1)
  }

  lemma {:induction false} Pow2Grows(a: nat, b: nat)
    requires a <= b
    ensures Pow2(a) <= Pow2(b)
    decreases b
  {
    if a < b {
      Pow2Grows(a, b - 1);
    }
  }

  lemma {:induction false} Pow2Sum(a: nat, b: nat)
    ensures Pow2(a + b) == Pow2(a) * Pow2(b)
  {
    if a > 0 {
      Pow2Sum(a - 1, b);
    }
  }

  lemma Pow2Of32()
    ensures Pow2(32) == 0x1_0000_0000
  {
    var n: nat := 4;
    assert Pow2(n) == 16 by {
      assert Pow2(n - 2) == 4;
    }
    Pow2Sum(n, 4);
    Pow2Sum(8, 8);
    Pow2Sum(16, 16);
  }

  /** The two parts of a number in base k. */
  lemma Parts(a: nat, k: nat, r: nat)
    requires r < k
    ensures (r + k * a) / k == a && (r + k * a) % k == r
  {
    var n := r + k * a;
    var q, m := n / k, n % k;
    assert n == k * q + m;
    if q < a {
      Gap(k, q, a);
      assert false;
    } else if a < q {
      Gap(k, a, q);
      assert false;
    }
  }

  lemma Gap(k: nat, a: nat, b: nat)
    requires a < b
    ensures k * a + k <= k * b
  {
    assert k * a + k == k * (a + 1);
  }

  /** Halving first or last. */
  lemma Halved(n: nat, p: nat)
    requires p > 0
    ensures n / 2 / p == n / (2 * p)
  {
    var q, r := n / 2 / p, n / 2 % p;
    var s := n % 2;
    assert n == 2 * (p * q + r) + s;
    assert n == 2 * r + s + (2 * p) * q;
    Parts(q, 2 * p, 2 * r + s);
  }
}
