/** Bitwise and, or and powers of two on natural numbers. */
module Bits {

  function Pow2(n: nat): (p: nat)
    ensures p >= 1
  {
    if n == 0 then 1 else 2 * Pow2(n - 1)
  }

  /** Shift left. */
  function Shifted(v: nat, places: nat): nat {
    v * Pow2(places)
  }

  function And(a: nat, b: nat): nat {
    if a == 0 || b == 0 then 0 else 2 * And(a / 2, b / 2) + (if a % 2 == 1 && b % 2 == 1 then 1 else 0)
  }

  function Or(a: nat, b: nat): nat {
    if a == 0 && b == 0 then 0 else 2 * Or(a / 2, b / 2) + (if a % 2 == 1 || b % 2 == 1 then 1 else 0)
  }

  lemma {:induction false} OrZero(a: nat)
    ensures Or(a, 0) == a
  {
    if a != 0 { OrZero(a / 2); }
  }

  /** Or-ing in bits below those already set adds them. */
  lemma {:induction false} OrDisjoint(a: nat, b: nat, k: nat)
    requires b < Pow2(k)
    ensures Or(a * Pow2(k), b) == a * Pow2(k) + b
  {
    if k == 0 {
      assert a * Pow2(k) == a;
      OrZero(a);
    } else {
      var half := a * Pow2(k - 1);
      assert a * Pow2(k) == 2 * half;
      OrDisjoint(a, b / 2, k - 1);
      assert (2 * half) / 2 == half;
      if 2 * half == 0 && b == 0 {
      } else {
        assert Or(2 * half, b) == 2 * Or(half, b / 2) + b % 2;
      }
    }
  }

  lemma Pow2Four(k: nat)
    ensures Pow2(k + 4) == 16 * Pow2(k)
  {
    assert Pow2(k + 2) == 2 * Pow2(k + 1);
    assert Pow2(k + 3) == 2 * Pow2(k + 2);
  }

  lemma {:induction false} Pow2Adds(m: nat, n: nat)
    ensures Pow2(m + n) == Pow2(m) * Pow2(n)
  {
    if m > 0 {
      Pow2Adds(m - 1, n);
      assert Pow2(m) * Pow2(n) == 2 * (Pow2(m - 1) * Pow2(n));
    }
  }

  /** Clearing the low k bits: and with a mask whose bits above k are all set keeps the
      number without its remainder. */
  lemma {:induction false} AndHighMask(a: nat, k: nat, w: nat)
    requires k <= w && a < Pow2(w)
    ensures Pow2(k) <= Pow2(w) && And(a, Pow2(w) - Pow2(k)) == a - a % Pow2(k)
  {
    if w == 0 {
    } else if k == 0 {
      AndAllOnes(a, w);
    } else {
      var mask := Pow2(w - 1) - Pow2(k - 1);
      AndHighMask(a / 2, k - 1, w - 1);
      Pow2Grows(k - 1, w - 1);
      assert Pow2(w) - Pow2(k) == 2 * mask;
      Halves(a, Pow2(k - 1));
      if a != 0 && mask != 0 {
        assert And(a, 2 * mask) == 2 * And(a / 2, mask);
      } else if a != 0 {
        SamePower(k - 1, w - 1);
        assert a / 2 < Pow2(k - 1);
      }
    }
  }

  lemma {:induction false} SamePower(m: nat, n: nat)
    requires m <= n && Pow2(m) == Pow2(n)
    ensures m == n
  {
    if m < n {
      Pow2Grows(m, n - 1);
    }
  }

  lemma {:induction false} AndAllOnes(a: nat, w: nat)
    requires a < Pow2(w)
    ensures And(a, Pow2(w) - 1) == a
  {
    if w > 0 && a != 0 {
      AndAllOnes(a / 2, w - 1);
      assert (Pow2(w) - 1) / 2 == Pow2(w - 1) - 1;
    }
  }

  lemma {:induction false} Pow2Grows(m: nat, n: nat)
    requires m <= n
    ensures Pow2(m) <= Pow2(n)
  {
    if m < n { Pow2Grows(m, n - 1); }
  }

  /** The remainder by an even number, from that of the half. */
  lemma Halves(a: nat, p: nat)
    requires p > 0
    ensures a % (2 * p) == 2 * ((a / 2) % p) + a % 2
  {
    var h := a / 2;
    assert h == p * (h / p) + h % p;
    var r := 2 * (h % p) + a % 2;
    assert a == (2 * p) * (h / p) + r;
    Remainder(a, 2 * p, h / p, r);
  }

  lemma Remainder(x: nat, n: nat, q: nat, r: nat)
    requires n > 0 && x == n * q + r && r < n
    ensures x % n == r && x / n == q
  {
    var d := x / n - q;
    assert n * d == r - x % n;
    Multiple(d, n);
  }

  lemma Increasing(i: nat, j: nat, k: nat)
    ensures i <= j ==> i * k <= j * k
  {
    if i <= j { assert (j - i) * k >= 0; }
  }

  lemma Multiple(d: int, n: nat)
    ensures d > 0 ==> n * d >= n
    ensures d < 0 ==> n * d <= -1 * n
  {
    if d > 0 { assert n * (d - 1) >= 0; }
    if d < 0 { assert n * (-d - 1) >= 0; }
  }
}
