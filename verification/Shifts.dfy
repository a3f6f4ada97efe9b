/** Shifts and masks of unsigned words, one bit at a time. */
module Shifts {
  /** `x << k` */
  function Shl(x: nat, k: nat): nat { if k == 0 then x else 2 * Shl(x, k - 1) }

  /** `x >> k` */
  function Shr(x: nat, k: nat): nat
    decreases k
  {
    if k == 0 then x else Shr(x / 2, k - 1)
  }

  /** `x & !(!0 << k)` */
  function Low(x: nat, k: nat): nat
    decreases k
  {
    if k == 0 then 0 else x % 2 + 2 * Low(x / 2, k - 1)
  }

  lemma {:induction false} Join(q: nat, r: nat, k: nat)
    requires r < Shl(1, k)
    ensures Shr(Shl(q, k) + r, k) == q && Low(Shl(q, k) + r, k) == r
  {
    if k == 0 {
    } else {
      Join(q, r / 2, k - 1);
      assert (Shl(q, k) + r) / 2 == Shl(q, k - 1) + r / 2;
    }
  }

  lemma {:induction false} Split(x: nat, k: nat)
    ensures x == Shl(Shr(x, k), k) + Low(x, k) && Low(x, k) < Shl(1, k)
    decreases k
  {
    if k == 0 {
    } else {
      Split(x / 2, k - 1);
    }
  }

  lemma {:induction false} ShlAdd(a: nat, b: nat, k: nat)
    ensures Shl(a + b, k) == Shl(a, k) + Shl(b, k)
  {
    if k == 0 {
    } else {
      ShlAdd(a, b, k - 1);
    }
  }

  lemma {:induction false} ShlPositive(k: nat)
    ensures Shl(1, k) > 0 && Shl(0, k) == 0
  {
    if k == 0 {
    } else {
      ShlPositive(k - 1);
    }
  }

  lemma ShlMore(a: nat, b: nat, k: nat)
    requires a < b
    ensures Shl(a, k) + Shl(1, k) <= Shl(b, k)
  {
    ShlAdd(a, b - a, k);
    ShlAdd(1, b - a - 1, k);
  }

  lemma ShrLess(x: nat, n: nat, k: nat)
    requires x < Shl(n, k)
    ensures Shr(x, k) < n
  {
    Split(x, k);
    if n < Shr(x, k) {
      ShlMore(n, Shr(x, k), k);
    }
  }

  lemma {:induction false} ShlIsTimes(x: nat, k: nat)
    ensures Shl(x, k) == x * Shl(1, k)
  {
    if k == 0 {
    } else {
      ShlIsTimes(x, k - 1);
      var p := Shl(1, k - 1);
      assert 2 * (x * p) == x * (2 * p);
    }
  }

  lemma {:induction false} ShiftTwice(x: nat, a: nat, b: nat)
    ensures Shr(x, a + b) == Shr(Shr(x, b), a) && Low(x, a + b) == Shl(Low(Shr(x, b), a), b) + Low(x, b)
    decreases b
  {
    if b == 0 {
    } else {
      ShiftTwice(x / 2, a, b - 1);
    }
  }

  lemma NineBits(x: nat)
    ensures Shl(1, 9) == 512 && Shr(x, 9) == x / 512 && Low(x, 9) == x % 512
  {
    assert Shl(1, 5) == 32;
    assert Shl(1, 9) == 512;
    var q, r := x / 512, x % 512;
    ShlIsTimes(q, 9);
    Join(q, r, 9);
  }
}
