// The C code's masks, as arithmetic: `&` on naturals, and why `x & (g - 1)`
// is a remainder exactly because `isPow2` was checked first.

module Bits {
  function Pow2(k: nat): (p: nat)
    ensures p > 0
  {
    if k == 0 then 1 else 2 * Pow2(k - 1)
  }

  lemma {:induction false} Pow2Add(j: nat, k: nat)
    ensures Pow2(j + k) == Pow2(j) * Pow2(k)
  {
    if j > 0 {
      Pow2Add(j - 1, k);
    }
  }

  /** Bitwise and. */
  function And(a: nat, b: nat): nat {
    if a == 0 || b == 0 then 0
    else (if a % 2 == 1 && b % 2 == 1 then 1 else 0) + 2 * And(a / 2, b / 2)
  }

  /** Bitwise or; the two operands' common bits are counted once. */
  function Or(a: nat, b: nat): int {
    a + b - And(a, b)
  }

  /** isPow2: note that it accepts 0. */
  predicate IsPow2(v: nat) {
    v == 0 || And(v, v - 1) == 0
  }

  lemma {:induction false} IsPow2Exponent(v: nat) returns (k: nat)
    requires v > 0 && IsPow2(v)
    ensures v == Pow2(k)
  {
    if v == 1 {
      k := 0;
    } else {
      if v % 2 == 1 {
        AndSelf(v / 2);
        assert false;
      }
      assert (v - 1) / 2 == v / 2 - 1;
      assert And(v, v - 1) == 2 * And(v / 2, v / 2 - 1);
      k := IsPow2Exponent(v / 2);
      k := k + 1;
    }
  }

  lemma {:induction false} AndSelf(v: nat)
    ensures And(v, v) == v
  {
    if v > 0 {
      AndSelf(v / 2);
    }
  }

  lemma {:induction false} Pow2IsPow2(k: nat)
    ensures IsPow2(Pow2(k))
  {
    if k > 0 {
      Pow2IsPow2(k - 1);
      var v := Pow2(k);
      assert v / 2 == Pow2(k - 1) && (v - 1) / 2 == v / 2 - 1;
    }
  }

  lemma {:induction false} AndMask(x: nat, k: nat)
    ensures And(x, Pow2(k) - 1) == x % Pow2(k)
  {
    if k > 0 {
      AndMask(x / 2, k - 1);
      var p := Pow2(k - 1);
      HalveMod(x, p);
      AndStep(x, p - 1, true);
    }
  }

  /** One bit of `&` against a mask whose low bit is `low`. */
  lemma AndStep(x: nat, b: nat, low: bool)
    ensures And(x, 2 * b + if low then 1 else 0) == (if low then x % 2 else 0) + 2 * And(x / 2, b)
  {
    var c := 2 * b + if low then 1 else 0;
    assert c / 2 == b;
    if x == 0 || c == 0 {
      assert And(x, c) == 0;
    }
  }

  lemma HalveMod(x: nat, p: nat)
    requires p > 0
    ensures x % (2 * p) == x % 2 + 2 * (x / 2 % p)
  {
    var q, r := x / 2 / p, x / 2 % p;
    assert x == (2 * p) * q + (2 * r + x % 2) by {
      assert x / 2 == p * q + r;
    }
    ModUnique(x, 2 * p, q, 2 * r + x % 2);
  }

  /** Quotient and remainder are unique. */
  lemma ModUnique(x: nat, d: nat, q: nat, r: nat)
    requires d > 0 && r < d && x == d * q + r
    ensures x / d == q && x % d == r
  {
    var q', r' := x / d, x % d;
    assert x == d * q' + r';
    if q' < q {
      assert d * q >= d * (q' + 1) by { MulMono(d, q' + 1, q); }
    } else if q' > q {
      assert d * q' >= d * (q + 1) by { MulMono(d, q + 1, q'); }
    }
  }

  lemma MulMono(d: nat, a: nat, b: nat)
    requires a <= b
    ensures d * a <= d * b
  {
    assert d * b == d * a + d * (b - a);
  }

  /** A mask built from a checked power of two is a remainder. */
  lemma MaskIsRemainder(x: nat, g: nat)
    requires g > 0 && IsPow2(g)
    ensures And(x, g - 1) == x % g
  {
    var k := IsPow2Exponent(g);
    AndMask(x, k);
  }

  function Shl(x: nat, k: nat): nat {
    if k == 0 then x else 2 * Shl(x, k - 1)
  }

  function Shr(x: nat, k: nat): nat {
    if k == 0 then x else Shr(x / 2, k - 1)
  }

  /** A mask without low bits clears them: `x & (m << k) == ((x >> k) & m) << k`. */
  lemma {:induction false} AndShift(x: nat, m: nat, k: nat)
    ensures And(x, Shl(m, k)) == Shl(And(Shr(x, k), m), k)
  {
    if k > 0 {
      AndShift(x / 2, m, k - 1);
      AndStep(x, Shl(m, k - 1), false);
    }
  }

  lemma {:induction false} ShlIsTimes(x: nat, k: nat)
    ensures Shl(x, k) == x * Pow2(k)
  {
    if k > 0 {
      ShlIsTimes(x, k - 1);
    }
  }

  lemma {:induction false} ShrIsDiv(x: nat, k: nat)
    ensures Shr(x, k) == x / Pow2(k)
  {
    if k > 0 {
      ShrIsDiv(x / 2, k - 1);
      DivDiv(x, Pow2(k - 1));
    }
  }

  lemma DivDiv(x: nat, p: nat)
    requires p > 0
    ensures x / 2 / p == x / (2 * p)
  {
    var q, r := x / 2 / p, x / 2 % p;
    assert x / 2 == p * q + r;
    assert x == (2 * p) * q + (2 * r + x % 2);
    ModUnique(x, 2 * p, q, 2 * r + x % 2);
  }

  /** Or-ing an offset below a power of two into a multiple of it is addition. */
  lemma OrIsSum(n: nat, g: nat, r: nat)
    requires g > 0 && IsPow2(g) && r < g
    ensures Or(n * g, r) == n * g + r
  {
    var ng := n * g;
    assert And(ng, r) == 0 by {
      var k := IsPow2Exponent(g);
      ShlIsTimes(n, k);
      ShrIsDiv(r, k);
      DivSmall(r, g);
      AndShift(r, n, k);
      ShlZero(k);
      AndComm(ng, r);
    }
  }

  lemma DivSmall(r: nat, g: nat)
    requires r < g
    ensures r / g == 0
  {
    ModUnique(r, g, 0, r);
  }

  lemma {:induction false} ShlZero(k: nat)
    ensures Shl(0, k) == 0
  {
    if k > 0 {
      ShlZero(k - 1);
    }
  }

  lemma {:induction false} AndComm(a: nat, b: nat)
    ensures And(a, b) == And(b, a)
  {
    if a > 0 && b > 0 {
      AndComm(a / 2, b / 2);
    }
  }

  const NOT_511: nat := 0xFFFF_FFFF_FFFF_FE00

  lemma Pow2Values()
    ensures Pow2(7) == 128 && Pow2(9) == 512 && Pow2(14) == 0x4000 && Pow2(16) == 0x1_0000
    ensures Pow2(18) == 0x4_0000 && Pow2(55) == 0x80_0000_0000_0000
  {
    assert Pow2(7) == 128;
    assert Pow2(14) == 16384;
    assert Pow2(16) == 0x1_0000;
    assert Pow2(21) == 0x20_0000;
    assert Pow2(28) == 0x1000_0000;
    assert Pow2(35) == 0x8_0000_0000;
    assert Pow2(42) == 0x400_0000_0000;
    assert Pow2(49) == 0x2_0000_0000_0000;
    assert Pow2(55) == 0x80_0000_0000_0000;
  }

  /** `(x + 511) & ~511` on 64 bits rounds up to whole sectors. */
  lemma RoundUpMask(x: nat)
    requires x + 511 < 0x1_0000_0000_0000_0000
    ensures And(x + 511, NOT_511) == (x + 511) / 512 * 512
  {
    var y, m := x + 511, Pow2(55) - 1;
    assert Pow2(9) == 512 && m * 512 == NOT_511 && y / 512 < Pow2(55) by { Pow2Values(); }
    AndHigh(y, m, 9, NOT_511);
    ShrIsDiv(y, 9);
    AndMask(y / 512, 55);
    assert y / 512 % Pow2(55) == y / 512 by { ModUnique(y / 512, Pow2(55), 0, y / 512); }
  }

  /** A mask `m << k` keeps what `m` keeps of the bits above the low `k`. */
  lemma AndHigh(x: nat, m: nat, k: nat, mask: nat)
    requires mask == m * Pow2(k)
    ensures And(x, mask) == And(Shr(x, k), m) * Pow2(k)
  {
    ShlIsTimes(m, k);
    AndShift(x, m, k);
    ShlIsTimes(And(Shr(x, k), m), k);
  }

  /** `x & 511` is what is left over of a sector. */
  lemma MaskSector(x: nat)
    ensures And(x, 511) == x % 512
  {
    Pow2Values();
    AndMask(x, 9);
  }
}
