/**
  Machine words as naturals: powers of two, bitwise operations defined bit by
  bit, and the arithmetic meaning of the two shapes the code uses, a prefix
  mask and its complement.  Everything is stated for an arbitrary word width,
  so that the same facts serve 32-bit and 128-bit addresses.
 */
module Bits {

  function Pow2(k: nat): (r: nat)
    ensures 0 < r
  {
    if k == 0 then 1 else 2 * Pow2(k - 1)
  }

  /** Bitwise conjunction, from the least significant bit up. */
  function And(x: nat, y: nat): (r: nat)
    ensures r <= x && r <= y
  {
    if x == 0 || y == 0 then 0
    else (if x % 2 == 1 && y % 2 == 1 then 1 else 0) + 2 * And(x / 2, y / 2)
  }

  /** Bitwise disjunction. */
  function Or(x: nat, y: nat): nat
    decreases x + y
  {
    if x == 0 then y else if y == 0 then x
    else (if x % 2 == 1 || y % 2 == 1 then 1 else 0) + 2 * Or(x / 2, y / 2)
  }

  /** Bitwise complement in a `w`-bit word. */
  function Not(w: nat, x: nat): nat
    requires x < Pow2(w)
  {
    Pow2(w) - 1 - x
  }

  /** Left shift in a `w`-bit word: bits shifted out are lost. */
  function Shl(w: nat, x: nat, k: nat): nat {
    x * Pow2(k) % Pow2(w)
  }

  function WrappingAdd(w: nat, x: nat, y: nat): (r: nat)
    ensures r < Pow2(w)
  {
    (x + y) % Pow2(w)
  }

  function WrappingSub(w: nat, x: nat, y: nat): (r: nat)
    ensures r < Pow2(w)
  {
    (x - y) % Pow2(w)
  }

  lemma {:induction false} Pow2Add(a: nat, b: nat)
    ensures Pow2(a + b) == Pow2(a) * Pow2(b)
  {
    if a == 0 {
    } else {
      Pow2Add(a - 1, b);
    }
  }

  lemma Pow2Values()
    ensures Pow2(8) == 0x100 && Pow2(16) == 0x1_0000 && Pow2(32) == 0x1_0000_0000
  {
    assert Pow2(2) == 4 && Pow2(4) == 16;
    Pow2Add(4, 4);
    Pow2Add(8, 8);
    Pow2Add(16, 16);
  }

  lemma {:induction false} Pow2Monotonic(a: nat, b: nat)
    requires a <= b
    ensures Pow2(a) <= Pow2(b)
    ensures a < b ==> Pow2(a) < Pow2(b)
  {
    if a < b {
      Pow2Monotonic(a, b - 1);
    }
  }

  // ----- division, for divisors that are not literals -----

  lemma MulMonotonic(a: int, b: int, d: int)
    requires a <= b && 0 <= d
    ensures a * d <= b * d
  {
  }

  /** The quotient and remainder of a division are determined by their bounds. */
  lemma DivModUnique(x: int, d: int, q: int, r: int)
    requires 0 < d && 0 <= r < d && x == q * d + r
    ensures x / d == q && x % d == r
  {
    var q' := x / d;
    assert x == q' * d + x % d;
    if q' < q {
      MulMonotonic(q' + 1, q, d);
    } else if q < q' {
      MulMonotonic(q + 1, q', d);
    }
  }

  /** The start of the block of size `d` that holds `x`: a multiple of `d`, less than `d` below `x`. */
  lemma BlockOf(x: int, d: int)
    requires 0 < d
    ensures x - x % d == (x / d) * d
    ensures 0 <= x % d < d
    ensures 0 <= x ==> 0 <= x / d && 0 <= x - x % d
    ensures (x - x % d) % d == 0
  {
    assert x == (x / d) * d + x % d;
    if 0 <= x && x / d < 0 {
      MulMonotonic(x / d, -1, d);
    }
    if 0 <= x {
      MulMonotonic(0, x / d, d);
    }
    DivModUnique(x - x % d, d, x / d, 0);
  }

  /** A block of size `d` that starts below a multiple of `d` ends at or below it. */
  lemma BlockBelow(x: int, d: int, e: int)
    requires 0 < d && x < e * d
    ensures x - x % d + d <= e * d
  {
    BlockOf(x, d);
    if x / d < e {
      MulMonotonic(x / d + 1, e, d);
    } else {
      MulMonotonic(e, x / d, d);
    }
  }

  lemma ModNested(x: int, d: int, e: int)
    requires 0 < d && 0 < e
    ensures 0 < e * d
    ensures x % (e * d) % d == x % d
    ensures (e * d) % d == 0
  {
    MulMonotonic(1, e, d);
    var m := e * d;
    var q, r := x / m, x % m;
    assert x == q * m + r;
    BlockOf(r, d);
    assert q * m == (q * e) * d;
    assert x == (q * e + r / d) * d + r % d;
    DivModUnique(x, d, q * e + r / d, r % d);
    DivModUnique(m, d, e, 0);
  }

  /** `Pow2(a)` divides `Pow2(b)` when `a <= b`, so reducing by the latter keeps residues of the former. */
  lemma {:induction false} ModPow2Nested(x: int, a: nat, b: nat)
    requires a <= b
    ensures x % Pow2(b) % Pow2(a) == x % Pow2(a)
    ensures Pow2(b) % Pow2(a) == 0
  {
    Pow2Add(b - a, a);
    ModNested(x, Pow2(a), Pow2(b - a));
  }

  /** Shifting the all-ones word left by `k` leaves the word with its top `w - k` bits set. */
  lemma {:induction false} ShlAllOnes(w: nat, k: nat)
    requires k <= w
    ensures Shl(w, Pow2(w) - 1, k) == Pow2(w) - Pow2(k)
  {
    Pow2Monotonic(k, w);
    AllOnesShifted(Pow2(w), Pow2(k));
  }

  lemma AllOnesShifted(p: int, q: int)
    requires 0 < q <= p
    ensures (p - 1) * q % p == p - q
  {
    assert (p - 1) * q == (q - 1) * p + (p - q);
    DivModUnique((p - 1) * q, p, q - 1, p - q);
  }

  lemma HalfMod(x: nat, p: nat)
    requires 0 < p
    ensures x % (2 * p) == 2 * (x / 2 % p) + x % 2
  {
    var q, r := x / 2 / p, x / 2 % p;
    assert x / 2 == q * p + r;
    assert x == q * (2 * p) + (2 * r + x % 2) by {
      assert x == 2 * (x / 2) + x % 2;
    }
    DivModUnique(x, 2 * p, q, 2 * r + x % 2);
  }

  /** One unfolding of `And`, in terms of the halves of its arguments. */
  lemma AndHalves(ha: nat, hb: nat, la: nat, lb: nat)
    requires la < 2 && lb < 2
    ensures And(2 * ha + la, 2 * hb + lb) == (if la == 1 && lb == 1 then 1 else 0) + 2 * And(ha, hb)
  {
    var a, b := 2 * ha + la, 2 * hb + lb;
    assert a / 2 == ha && a % 2 == la && b / 2 == hb && b % 2 == lb;
  }

  lemma {:induction false} AndAllOnes(w: nat, x: nat)
    requires x < Pow2(w)
    ensures And(x, Pow2(w) - 1) == x
  {
    if w == 0 {
    } else {
      AndAllOnes(w - 1, x / 2);
      AndHalves(x / 2, Pow2(w - 1) - 1, x % 2, 1);
    }
  }

  /** Conjunction with a prefix mask clears the low `k` bits. */
  lemma {:induction false} AndMask(w: nat, k: nat, x: nat)
    requires k <= w && x < Pow2(w)
    ensures Pow2(k) <= Pow2(w)
    ensures And(x, Pow2(w) - Pow2(k)) == x - x % Pow2(k)
    decreases w
  {
    Pow2Monotonic(k, w);
    AndMaskOf(w, k, x, Pow2(w) - Pow2(k), Pow2(k));
  }

  lemma {:induction false} AndMaskOf(w: nat, k: nat, x: nat, m: nat, p: nat)
    requires k <= w && x < Pow2(w) && p == Pow2(k) && m == Pow2(w) - p
    ensures And(x, m) == x - x % p
    decreases w
  {
    if k == 0 {
      AndAllOnes(w, x);
    } else {
      AndMaskOf(w - 1, k - 1, x / 2, m / 2, p / 2);
      AndMaskStep(x, m / 2, p / 2);
    }
  }

  lemma {:induction false} AndMaskStep(x: nat, m: nat, p: nat)
    requires 0 < p && And(x / 2, m) == x / 2 - x / 2 % p
    ensures And(x, 2 * m) == x - x % (2 * p)
  {
    AndHalves(x / 2, m, x % 2, 0);
    HalfMod(x, p);
  }

  /** Disjunction with the complement of a prefix mask sets the low `k` bits. */
  lemma {:induction false} OrLowOnes(k: nat, x: nat)
    ensures Or(x, Pow2(k) - 1) == x - x % Pow2(k) + Pow2(k) - 1
  {
    if k == 0 {
    } else {
      OrLowOnes(k - 1, x / 2);
      OrLowOnesStep(x, Pow2(k - 1), Or(x / 2, Pow2(k - 1) - 1));
      OrOdd(x, Pow2(k - 1) - 1);
    }
  }

  lemma OrLowOnesStep(x: nat, p: nat, half: int)
    requires 0 < p && half == x / 2 - x / 2 % p + p - 1
    ensures 1 + 2 * half == x - x % (2 * p) + 2 * p - 1
  {
    HalfMod(x, p);
  }

  lemma {:induction false} OrOdd(x: nat, h: nat)
    ensures Or(x, 2 * h + 1) == 1 + 2 * Or(x / 2, h)
  {
    assert (2 * h + 1) % 2 == 1 && (2 * h + 1) / 2 == h;
  }

  /** Conjunction works on the high and the low part of a word separately. */
  lemma {:induction false} AndSplit(k: nat, x: nat, y: nat, x': nat, y': nat)
    requires x' < Pow2(k) && y' < Pow2(k)
    ensures 0 <= x * Pow2(k) && 0 <= y * Pow2(k)
    ensures And(x * Pow2(k) + x', y * Pow2(k) + y') == And(x, y) * Pow2(k) + And(x', y')
    decreases k
  {
    hide And;
    if k == 0 {
      assert x' == 0 && y' == 0 && Pow2(k) == 1;
    } else {
      AndSplit(k - 1, x, y, x' / 2, y' / 2);
      AndSplitStep(x, y, x', y', Pow2(k - 1));
    }
  }

  lemma AndSplitStep(x: nat, y: nat, x': nat, y': nat, p: nat)
    requires 0 <= x * p && 0 <= y * p
    requires And(x * p + x' / 2, y * p + y' / 2) == And(x, y) * p + And(x' / 2, y' / 2)
    ensures 0 <= x * (2 * p) && 0 <= y * (2 * p)
    ensures And(x * (2 * p) + x', y * (2 * p) + y') == And(x, y) * (2 * p) + And(x', y')
  {
    hide And;
    Doubled(x, p);
    Doubled(y, p);
    Doubled(And(x, y), p);
    AndHalves(x * p + x' / 2, y * p + y' / 2, x' % 2, y' % 2);
    AndHalves(x' / 2, y' / 2, x' % 2, y' % 2);
  }

  lemma Doubled(x: int, p: int)
    ensures x * (2 * p) == 2 * (x * p)
  {
  }
}
