/** The bitwise operators of C on non-negative integers, and `pow2gt`. */
module Bits {
  /** `x | y` */
  function Or(x: nat, y: nat): nat
    decreases x + y
  {
    if x == 0 then y else if y == 0 then x
    else 2 * Or(x / 2, y / 2) + (if x % 2 == 1 || y % 2 == 1 then 1 else 0)
  }

  /** `x & y` */
  function And(x: nat, y: nat): nat {
    if x == 0 || y == 0 then 0 else 2 * And(x / 2, y / 2) + (if x % 2 == 1 && y % 2 == 1 then 1 else 0)
  }

  function Pow2(k: nat): (r: nat)
    ensures r > 0
  {
    if k == 0 then 1 else 2 * Pow2(k - 1)
  }

  ghost predicate IsPow2(x: int) {
    exists k: nat :: x == Pow2(k)
  }

  lemma OrUnfold(x: nat, y: nat)
    ensures Or(x, y) == 2 * Or(x / 2, y / 2) + (if x % 2 == 1 || y % 2 == 1 then 1 else 0)
    ensures Or(x, y) / 2 == Or(x / 2, y / 2) && (Or(x, y) % 2 == 1 <==> x % 2 == 1 || y % 2 == 1)
  {
  }

  lemma AndUnfold(x: nat, y: nat)
    ensures And(x, y) == 2 * And(x / 2, y / 2) + (if x % 2 == 1 && y % 2 == 1 then 1 else 0)
  {
  }

  // ---------------------------------------------------------------- masks

  /** Numbers without common bits are added by `|`. */
  lemma {:induction false} OrAdds(high: nat, low: nat, k: nat)
    requires low < Pow2(k)
    ensures Or(high * Pow2(k), low) == high * Pow2(k) + low
  {
    if k > 0 {
      var p := Pow2(k - 1);
      Doubled(high, p);
      OrUnfold(high * Pow2(k), low);
      OrAdds(high, low / 2, k - 1);
    }
  }

  lemma Doubled(high: nat, p: nat)
    ensures high * (2 * p) == 2 * (high * p) && high * (2 * p) / 2 == high * p && high * (2 * p) % 2 == 0
  {
    assert high * (2 * p) == 2 * (high * p);
  }

  /** A mask of ones keeps the lowest bits. */
  lemma {:induction false} AndMask(x: nat, k: nat)
    ensures And(x, Pow2(k) - 1) == x % Pow2(k)
  {
    if k > 0 {
      AndUnfold(x, Pow2(k) - 1);
      assert (Pow2(k) - 1) / 2 == Pow2(k - 1) - 1;
      AndMask(x / 2, k - 1);
      ModDouble(x, Pow2(k - 1));
    }
  }

  lemma ModDouble(x: nat, p: nat)
    requires p > 0
    ensures x % (2 * p) == 2 * (x / 2 % p) + x % 2
  {
    var h := x / 2;
    var q, r := h / p, h % p;
    assert h == q * p + r;
    assert x == q * (2 * p) + (2 * r + x % 2) by {
      assert x == 2 * h + x % 2;
      assert q * (2 * p) == 2 * (q * p);
    }
    ModUnique(x, 2 * p, q, 2 * r + x % 2);
  }

  lemma ModUnique(x: int, m: int, q: int, r: int)
    requires 0 <= r < m && x == q * m + r
    ensures x % m == r
  {
    var q', r' := x / m, x % m;
    assert x == q' * m + r';
    assert (q - q') * m == r' - r;
    MultipleSize(q - q', m);
  }

  lemma MultipleSize(d: int, m: int)
    requires m > 0
    ensures d >= 1 ==> d * m >= m
    ensures d <= -1 ==> d * m <= -m
  {
  }

  lemma OrCommutes(x: nat, y: nat)
    ensures Or(x, y) == Or(y, x)
    decreases x + y
  {
  }

  /** Setting bit 7 and clearing bit 6 leaves the marker bits 10 and the six lowest bits. */
  lemma TrailingBits(u: nat)
    ensures And(Or(u, 0x80), 0xBF) == 0x80 + u % 0x40
  {
    assert Pow2(6) == 0x40;
    MarkedBits(u, 6);
  }

  /** Setting one bit, clearing the one below it and keeping the `k` lower ones. */
  lemma {:induction false} MarkedBits(u: nat, k: nat)
    ensures var p := Pow2(k); And(Or(u, 2 * p), 3 * p - 1) == 2 * p + u % p
  {
    hide Or, And;
    if k == 0 {
      MarkedBit(u);
    } else {
      var q := Pow2(k - 1);
      var x := Or(u, 4 * q);
      OrUnfold(u, 4 * q);
      Quarter(q);
      AndUnfold(x, 6 * q - 1);
      assert And(x, 6 * q - 1) == 2 * And(Or(u / 2, 2 * q), 3 * q - 1) + u % 2;
      MarkedBits(u / 2, k - 1);
      ModDouble(u, q);
    }
  }

  lemma Quarter(q: nat)
    requires q > 0
    ensures 4 * q / 2 == 2 * q && 4 * q % 2 == 0 && (6 * q - 1) / 2 == 3 * q - 1 && (6 * q - 1) % 2 == 1
  {
  }

  lemma MarkedBit(u: nat)
    ensures And(Or(u, 2), 2) == 2
  {
    OrUnfold(u, 2);
    AndUnfold(Or(u, 2), 2);
    OrUnfold(u / 2, 1);
    AndUnfold(Or(u / 2, 1), 1);
  }

  /** Or-ing the marker of a leading byte to the bits left for it adds it. */
  lemma LeadingBits(u: nat)
    ensures Or(u, 0x00) == u
    ensures u < 0x20 ==> Or(u, 0xC0) == 0xC0 + u
    ensures u < 0x10 ==> Or(u, 0xE0) == 0xE0 + u
    ensures u < 0x08 ==> Or(u, 0xF0) == 0xF0 + u
  {
    OrCommutes(u, 0xC0);
    OrCommutes(u, 0xE0);
    OrCommutes(u, 0xF0);
    assert Pow2(4) == 0x10 && Pow2(5) == 0x20;
    if u < 0x20 {
      OrAdds(6, u, 5);
    }
    if u < 0x10 {
      OrAdds(14, u, 4);
      OrAdds(15, u, 4);
    }
  }

  /** The ten lowest bits of two numbers, put one behind the other. */
  lemma PairBits(high: nat, low: nat)
    ensures Or(And(high, 0x3FF) * 0x400, And(low, 0x3FF)) == high % 0x400 * 0x400 + low % 0x400
  {
    assert Pow2(10) == 0x400;
    AndMask(high, 10);
    AndMask(low, 10);
    OrAdds(high % 0x400, low % 0x400, 10);
  }

  // ---------------------------------------------------------------- pow2gt

  /** `x >> n` */
  function Shr(x: nat, n: nat): nat {
    if n == 0 then x else Shr(x / 2, n - 1)
  }

  /** The `k` highest bits of `x` are ones: each prefix of `x` of at most `k` bits is odd. */
  ghost predicate TopOnes(x: nat, k: nat) {
    x == 0 || (TopOnes(x / 2, k) && (x < Pow2(k) ==> x % 2 == 1))
  }

  lemma ShrHalf(x: nat, n: nat)
    ensures Shr(x, n) / 2 == Shr(x / 2, n)
  {
  }

  lemma {:induction false} ShrBound(x: nat, n: nat, k: nat)
    ensures x < Pow2(n + k) <==> Shr(x, n) < Pow2(k)
  {
    if n > 0 {
      ShrBound(x / 2, n - 1, k);
    }
  }

  lemma PrefixOnes(x: nat, k: nat, n: nat)
    requires TopOnes(x, k)
    ensures TopOnes(Shr(x, n), k)
  {
  }

  lemma OrAtLeast(x: nat, y: nat)
    ensures Or(x, y) >= x
    decreases x + y
  {
  }

  lemma OrBound(x: nat, y: nat, k: nat)
    requires x < Pow2(k) && y < Pow2(k)
    ensures Or(x, y) < Pow2(k)
  {
  }

  lemma ShrLess(x: nat, n: nat)
    ensures Shr(x, n) <= x
  {
  }

  /** Or-ing a number with itself, shifted by the number of its leading ones, doubles that number. */
  lemma {:induction false} SmearStep(x: nat, k: nat)
    requires TopOnes(x, k)
    ensures TopOnes(Or(x, Shr(x, k)), k + k)
    decreases x
  {
    if x != 0 {
      var z := Shr(x, k);
      var y := Or(x, z);
      OrUnfold(x, z);
      ShrHalf(x, k);
      SmearStep(x / 2, k);
      OrAtLeast(x, z);
      ShrBound(x, k, k);
      ShrBound(x, k, 0);
      PrefixOnes(x, k, k);
      assert Pow2(0) == 1;
      if y < Pow2(k + k) {
        assert x < Pow2(k + k) && z < Pow2(k);
        assert z == 0 ==> x < Pow2(k);
        assert y % 2 == 1;
      }
      assert y / 2 == Or(x / 2, Shr(x / 2, k));
      assert TopOnes(y / 2, k + k);
    } else {
      assert Shr(x, k) == 0 by { ShrLess(x, k); }
    }
  }

  /** A number all of whose bits are ones is one less than a power of two. */
  lemma {:induction false} AllOnes(x: nat, k: nat) returns (j: nat)
    requires TopOnes(x, k) && x < Pow2(k)
    ensures x + 1 == Pow2(j)
  {
    if x == 0 {
      j := 0;
    } else {
      var i := AllOnes(x / 2, k);
      j := i + 1;
    }
  }

  lemma OneTopOne(x: nat)
    ensures TopOnes(x, 1)
  {
  }

  /** One round of the smearing: the leading ones double and the length stays. */
  method Smear(x: nat, k: nat) returns (y: nat)
    requires TopOnes(x, k)
    ensures TopOnes(y, k + k) && x <= y
    ensures forall j: nat :: x < Pow2(j) ==> y < Pow2(j)
  {
    y := Or(x, Shr(x, k));
    SmearStep(x, k);
    OrAtLeast(x, Shr(x, k));
    forall j: nat | x < Pow2(j)
      ensures y < Pow2(j)
    {
      ShrLess(x, k);
      OrBound(x, Shr(x, k), j);
    }
  }

  lemma Pow2Of32()
    ensures Pow2(32) == 0x1_0000_0000
  {
    assert Pow2(8) == 0x100 && Pow2(16) == 0x1_0000 && Pow2(24) == 0x100_0000;
  }

  /** The least power of two at or above `x`; above 2^30 the C function overflows. */
  method Pow2gt(x: int) returns (r: int)
    requires 1 <= x <= 0x4000_0000
    ensures IsPow2(r) && r >= x
    ensures forall j: nat :: Pow2(j) >= x ==> Pow2(j) >= r
  {
    hide TopOnes, Pow2;
    var y: nat := x - 1;
    OneTopOne(y);
    y := Smear(y, 1);
    y := Smear(y, 2);
    y := Smear(y, 4);
    y := Smear(y, 8);
    y := Smear(y, 16);
    Pow2Of32();
    ghost var j := AllOnes(y, 32);
    r := y + 1;
  }
}
