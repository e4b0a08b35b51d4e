/** Powers of two and the division facts that fixed-width C arithmetic rests on. */
module Powers {

  function Pow2(n: nat): (r: nat)
    ensures r > 0
  {
    if n == 0 then 1 else 2 * Pow2(n - 1)
  }

  /** The C integer types: an unsigned value of the given width, as a number. */
  type U8 = x: nat | x < 0x100
  type U16 = x: nat | x < 0x1_0000
  type U32 = x: nat | x < 0x1_0000_0000
  type U64 = x: nat | x < 0x1_0000_0000_0000_0000

  lemma Pow2Values()
    ensures Pow2(1) == 2 && Pow2(2) == 4 && Pow2(3) == 8 && Pow2(4) == 16
    ensures Pow2(6) == 0x40 && Pow2(7) == 0x80 && Pow2(8) == 0x100 && Pow2(9) == 0x200
    ensures Pow2(16) == 0x1_0000
    ensures Pow2(22) == 0x40_0000
    ensures Pow2(24) == 0x100_0000
    ensures Pow2(31) == 0x8000_0000
    ensures Pow2(32) == 0x1_0000_0000
    ensures Pow2(40) == 0x100_0000_0000
    ensures Pow2(48) == 0x1_0000_0000_0000
    ensures Pow2(56) == 0x100_0000_0000_0000
    ensures Pow2(64) == 0x1_0000_0000_0000_0000
  {
    assert Pow2(4) == 16 && Pow2(8) == 0x100;
    Pow2Add(8, 8);
    Pow2Add(16, 6);
    Pow2Add(16, 8);
    Pow2Add(16, 16);
    assert 2 * Pow2(31) == Pow2(32);
    Pow2Add(32, 8);
    Pow2Add(32, 16);
    Pow2Add(32, 24);
    Pow2Add(32, 32);
  }

  lemma {:induction false} Pow2Add(m: nat, n: nat)
    ensures Pow2(m + n) == Pow2(m) * Pow2(n)
  {
    if m == 0 {
    } else {
      Pow2Add(m - 1, n);
      assert Pow2(m + n) == 2 * Pow2(m - 1 + n);
      MulAssoc(2, Pow2(m - 1), Pow2(n));
    }
  }

  lemma {:induction false} Pow2Mono(m: nat, n: nat)
    requires m <= n
    ensures Pow2(m) <= Pow2(n)
    ensures m < n ==> Pow2(m) < Pow2(n)
    decreases n
  {
    if m == n {
    } else {
      Pow2Mono(m, n - 1);
    }
  }

  /** n < 2^n, so every number fits in as many bits as its own value. */
  lemma {:induction false} Pow2Above(n: nat)
    ensures n < Pow2(n)
  {
    if n == 0 {
    } else {
      Pow2Above(n - 1);
    }
  }

  // ---------- products and quotients ----------

  lemma MulAssoc(a: int, b: int, c: int)
    ensures a * b * c == a * (b * c)
  {
  }

  lemma MulMono(a: int, b: int, c: nat)
    requires a <= b
    ensures a * c <= b * c
  {
  }

  lemma MulStrict(a: int, b: int, c: nat)
    requires a < b && 0 < c
    ensures a * c < b * c
  {
  }

  lemma MulNat(a: nat, b: nat)
    ensures 0 <= a * b
  {
  }

  /** Quotient and remainder are the only pair that rebuilds x. */
  lemma DivModUnique(x: int, d: nat, q: int, r: nat)
    requires x == q * d + r && r < d
    ensures x / d == q && x % d == r
  {
    var q', r' := x / d, x % d;
    assert x == q' * d + r' && 0 <= r' < d;
    MulDistrib(q', 1, d);
    MulDistrib(q, 1, d);
    if q' < q {
      MulMono(q' + 1, q, d);
    } else if q < q' {
      MulMono(q + 1, q', d);
    }
  }

  lemma ModSmall(x: nat, d: nat)
    requires x < d
    ensures x % d == x && x / d == 0
  {
    DivModUnique(x, d, 0, x);
  }

  lemma DivModParts(x: int, d: nat)
    requires 0 < d
    ensures x == (x / d) * d + x % d && 0 <= x % d < d
  {
  }

  lemma ModPlus(x: int, k: int, d: nat)
    requires 0 < d
    ensures (x + k * d) % d == x % d
    ensures (x + k * d) / d == x / d + k
  {
    DivModParts(x, d);
    assert x + k * d == (x / d + k) * d + x % d by {
      assert (x / d + k) * d == (x / d) * d + k * d;
    }
    DivModUnique(x + k * d, d, x / d + k, x % d);
  }

  /** Two numbers have the same remainder exactly when d divides their difference. */
  lemma SameMod(x: int, y: int, d: nat)
    requires 0 < d
    ensures x % d == y % d <==> (x - y) % d == 0
  {
    DivModParts(x, d);
    DivModParts(y, d);
    if x % d == y % d {
      assert x - y == (x / d - y / d) * d by {
        assert (x / d - y / d) * d == (x / d) * d - (y / d) * d;
      }
      DivModUnique(x - y, d, x / d - y / d, 0);
    }
    if (x - y) % d == 0 {
      DivModParts(x - y, d);
      ModPlus(y, (x - y) / d, d);
    }
  }

  lemma ModAddLeft(x: int, y: int, d: nat)
    requires 0 < d
    ensures (x % d + y) % d == (x + y) % d
  {
    DivModParts(x, d);
    ModPlus(x % d + y, x / d, d);
  }

  lemma ModOfDifference(x: int, y: int, d: nat)
    requires 0 < d
    ensures (x % d - y % d) % d == (x - y) % d
  {
    var q := y / d - x / d;
    DivModParts(x, d);
    DivModParts(y, d);
    MulDistrib(q, x / d, d);
    ModPlus(x - y, q, d);
  }

  lemma ModMulLeft(x: int, y: int, d: nat)
    requires 0 < d
    ensures (x % d * y) % d == (x * y) % d
  {
    DivModParts(x, d);
    var q, r := x / d, x % d;
    assert x * y == r * y + (q * y) * d by {
      assert x * y == (q * d + r) * y;
      assert (q * d) * y == (q * y) * d;
    }
    ModPlus(r * y, q * y, d);
  }

  lemma ModMulRight(x: nat, y: nat, d: nat)
    requires 0 < d
    ensures (x * (y % d)) % d == (x * y) % d
  {
    ModMulLeft(y, x, d);
    assert x * (y % d) == (y % d) * x;
    assert x * y == y * x;
  }

  /** An odd factor keeps parity; a factor that is 1 modulo 4 keeps the residue modulo 4. */
  lemma OddTimes(a: nat, x: nat)
    requires a % 2 == 1
    ensures (a * x) % 2 == x % 2
  {
    var h := a / 2;
    var e := h * x;
    assert a * x == 2 * e + x by {
      MulDistrib(2 * h, 1, x);
      MulAssoc(2, h, x);
    }
  }

  lemma OneMod4Times(a: nat, x: nat)
    requires a % 4 == 1
    ensures (a * x) % 4 == x % 4
  {
    var h := a / 4;
    assert a * x == x + (h * x) * 4 by {
      MulDistrib(4 * h, 1, x);
      MulAssoc(4, h, x);
    }
    ModPlus(x, h * x, 4);
  }

  lemma MulDistrib(a: int, b: int, c: int)
    ensures (a + b) * c == a * c + b * c
  {
  }

  /** Dividing by a product is dividing twice, and its remainder has two digits. */
  lemma DivModProduct(x: int, a: nat, b: nat)
    requires 0 < a && 0 < b
    ensures 0 < a * b
    ensures x / (a * b) == (x / a) / b
    ensures x % (a * b) == ((x / a) % b) * a + x % a
    ensures (x % (a * b)) % a == x % a
    ensures (x % (a * b)) / a == (x / a) % b
  {
    var q, r := x / a, x % a;
    DivModParts(x, a);
    DivModParts(q, b);
    var s := q % b;
    MulStrict(0, a, b);
    assert x == (q / b) * (a * b) + (s * a + r) by {
      assert ((q / b) * b + s) * a == (q / b) * b * a + s * a;
      assert (q / b) * b * a == (q / b) * (a * b);
    }
    assert s * a + r < a * b by {
      MulMono(s + 1, b, a);
      MulDistrib(s, 1, a);
    }
    MulNat(s, a);
    DivModUnique(x, a * b, q / b, s * a + r);
    DivModUnique(s * a + r, a, s, r);
  }

  lemma Pow2Divides(m: nat, n: nat)
    requires m <= n
    ensures Pow2(n) % Pow2(m) == 0
  {
    Pow2Add(n - m, m);
    MulDiv(Pow2(n - m), Pow2(m));
  }

  lemma ModOfMultiple(x: int, a: nat, b: nat)
    requires 0 < a && 0 < b
    ensures 0 < a * b
    ensures (x % (a * b)) % a == x % a
  {
    MulStrict(0, a, b);
    var q := x / (a * b);
    DivModParts(x, a * b);
    assert q * (a * b) == (q * b) * a;
    ModPlus(x % (a * b), q * b, a);
  }

  lemma MulDiv(x: int, d: nat)
    requires 0 < d
    ensures (x * d) / d == x && (x * d) % d == 0
  {
    DivModUnique(x * d, d, x, 0);
  }

  lemma DivBounds(x: nat, d: nat, lo: nat, hi: nat)
    requires 0 < d
    ensures lo <= x / d <==> lo * d <= x
    ensures x / d < hi <==> x < hi * d
  {
    DivModParts(x, d);
    var q := x / d;
    if lo <= q {
      MulMono(lo, q, d);
    } else {
      MulMono(q + 1, lo, d);
      MulDistrib(q, 1, d);
    }
    if q < hi {
      MulMono(q + 1, hi, d);
      MulDistrib(q, 1, d);
    } else {
      MulMono(hi, q, d);
    }
  }

  lemma ModAtMost(x: nat, d: nat)
    requires 0 < d
    ensures x % d <= x
  {
    DivModParts(x, d);
    DivBounds(x, d, 0, 0);
    MulNat(x / d, d);
  }

  /** Unsigned division. */
  function Quotient(x: nat, d: nat): nat
    requires 0 < d
  {
    DivBounds(x, d, 0, 0);
    x / d
  }

  // ---------- remainders without division ----------

  /** The value modulo d that an unsigned variable with d values keeps of x. Counting x up or down by d,
      instead of dividing, keeps proofs that only pass such values around free of division. */
  function Rem(x: int, d: nat): nat
    requires 0 < d
    decreases if x < 0 then 1 else 0, if x < 0 then -x else x
  {
    if x < 0 then Rem(x + d, d) else if x < d then x else Rem(x - d, d)
  }

  lemma {:induction false} RemIsMod(x: int, d: nat)
    requires 0 < d
    ensures Rem(x, d) == x % d < d
    decreases if x < 0 then 1 else 0, if x < 0 then -x else x
  {
    if x < 0 {
      RemIsMod(x + d, d);
      ModShift(x, 1, d);
    } else if x < d {
      ModSmall(x, d);
    } else {
      RemIsMod(x - d, d);
      ModShift(x, -1, d);
    }
  }

  lemma ModShift(x: int, k: int, d: nat)
    requires 0 < d && (k == 1 || k == -1)
    ensures (x + k * d) % d == x % d
  {
    ModPlus(x, k, d);
  }

  /** Truncating an operand does not change a truncated sum or difference. */
  lemma RemOfSum(x: int, y: int, d: nat)
    requires 0 < d
    ensures Rem(Rem(x, d) + y, d) == Rem(x + y, d)
  {
    RemIsMod(x, d);
    RemIsMod(Rem(x, d) + y, d);
    RemIsMod(x + y, d);
    ModAddLeft(x, y, d);
  }

  lemma RemOfDifference(x: int, y: int, d: nat)
    requires 0 < d
    ensures Rem(Rem(x, d) - Rem(y, d), d) == Rem(x - y, d)
  {
    RemIsMod(x, d);
    RemIsMod(y, d);
    RemIsMod(Rem(x, d) - Rem(y, d), d);
    RemIsMod(x - y, d);
    ModOfDifference(x, y, d);
  }

  lemma RemOfProduct(x: int, a: nat, b: nat, c: nat)
    requires 0 < a && 0 < b && 0 < c && c == a * b
    ensures Rem(Rem(x, c), a) == Rem(x, a)
  {
    RemIsMod(x, c);
    RemIsMod(Rem(x, c), a);
    RemIsMod(x, a);
    ModOfMultiple(x, a, b);
  }

  lemma RemTwice(x: int, d: nat)
    requires 0 < d
    ensures Rem(Rem(x, d), d) == Rem(x, d)
  {
    RemIsMod(x, d);
    RemSmall(Rem(x, d), d);
  }

  lemma RemShift(x: nat, d: nat)
    requires 0 < d
    ensures Rem(x + d, d) == Rem(x, d)
  {
  }

  /** Two numbers have the same remainder exactly when that of their difference is 0. */
  lemma SameRem(x: nat, y: nat, d: nat)
    requires 0 < d && x <= y
    ensures Rem(x, d) == Rem(y, d) <==> Rem(y - x, d) == 0
  {
    RemIsMod(x, d);
    RemIsMod(y, d);
    RemIsMod(y - x, d);
    SameMod(y, x, d);
  }

  lemma RemSmall(x: nat, d: nat)
    requires x < d
    ensures Rem(x, d) == x
  {
  }
}
