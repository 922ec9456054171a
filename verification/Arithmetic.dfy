/** Facts about multiplication and remainders, each small enough to be proved on its own. */
module Arithmetic {

  lemma Distribute(u: int, a: int, b: int)
    ensures u * b - u * a == u * (b - a)
  {
  }

  lemma MultipleAtLeast(u: int, d: int)
    requires u > 0 && d >= 1
    ensures u * d >= u
  {
  }

  // A multiple of u strictly between -u and u is zero.
  lemma SmallMultiple(u: int, d: int)
    requires u > 0 && -u < u * d < u
    ensures d == 0
  {
    if d >= 1 {
      MultipleAtLeast(u, d);
    } else if d <= -1 {
      MultipleAtLeast(u, -d);
    }
  }

  lemma ResiduesDiffer(m: nat, p: nat, q: nat, u: nat)
    requires p < q < u
    ensures (m + p) % u != (m + q) % u
  {
    var a, b := (m + p) / u, (m + q) / u;
    if (m + p) % u == (m + q) % u {
      Distribute(u, a, b);
      SmallMultiple(u, b - a);
    }
  }

  // The remainder by a modulus that is not a constant, as repeated subtraction.
  function Mod(a: nat, u: nat): (r: nat)
    requires u > 0
    ensures r < u
  {
    if a < u then a else Mod(a - u, u)
  }

  lemma {:induction false} ModIsRemainder(a: nat, u: nat)
    requires u > 0
    ensures Mod(a, u) == a % u
  {
    if a < u {
      SmallRemainder(a, u);
    } else {
      ModIsRemainder(a - u, u);
      RemainderBefore(a, u);
    }
  }

  lemma SmallRemainder(a: nat, u: nat)
    requires a < u
    ensures a % u == a
  {
  }

  lemma RemainderBefore(a: nat, u: nat)
    requires 0 < u <= a
    ensures (a - u) % u == a % u
  {
    var p, q := a / u, (a - u) / u;
    Distribute(u, q, p);
    assert u * (p - q) == u + ((a - u) % u - a % u);
    Distribute(u, 1, p - q);
    SmallMultiple(u, p - q - 1);
  }

  lemma SmallFactorOf79(u: nat, q: nat)
    requires u * q == 79 && u <= 8
    ensures u == 1
  {
    assert u == 0 || u == 1 || u == 2 || u == 3 || u == 4 || u == 5 || u == 6 || u == 7 || u == 8;
  }

  lemma LargeProduct(u: nat, q: nat)
    requires u >= 9 && q >= 9
    ensures u * q >= 81
  {
  }

  // 79 is prime.
  lemma FactorOf79(u: nat, q: nat)
    requires u * q == 79
    ensures u == 1 || u == 79
  {
    if u <= 8 {
      SmallFactorOf79(u, q);
    } else if q <= 8 {
      SmallFactorOf79(q, u);
    } else {
      LargeProduct(u, q);
    }
  }

  lemma EightyLeaves(u: nat, q: nat, r: nat)
    requires 1 < u < 79 && 80 == u * q + r
    ensures r != 1
  {
    if r == 1 {
      FactorOf79(u, q);
    }
  }

  lemma QuotientAndRemainder(a: nat, u: nat)
    requires u > 0
    ensures a == u * (a / u) + a % u
  {
  }

  lemma EightyIsNotOne(a: nat, u: nat)
    requires 1 < u < 79 && a == 80
    ensures Mod(a, u) != Mod(a % 79, u)
  {
    ModIsRemainder(a, u);
    ModIsRemainder(a % 79, u);
    SmallRemainder(a % 79, u);
    QuotientAndRemainder(a, u);
    EightyLeaves(u, a / u, a % u);
  }

  lemma ModShiftInjective(m: nat, p: nat, q: nat, u: nat)
    requires p < u && q < u
    ensures Mod(m + p, u) == Mod(m + q, u) <==> p == q
  {
    ModIsRemainder(m + p, u);
    ModIsRemainder(m + q, u);
    if p < q {
      ResiduesDiffer(m, p, q, u);
    } else if q < p {
      ResiduesDiffer(m, q, p, u);
    }
  }

  lemma ClockTop(clock: nat)
    requires clock < 268435456
    ensures clock / 128 % 2097152 == clock / 128
  {
  }

  lemma AddMultipleOf64(x: int, q: int)
    ensures (x + 64 * q) % 64 == x % 64
  {
  }

  // The fields of a clock: CLK7-27, CLK2-6, CLK1 and CLK0.
  lemma ClockFields(clock: nat)
    ensures var r := clock % 128;
            clock == 128 * (clock / 128) + 4 * (r / 4) + 2 * (r % 4 / 2) + r % 4 % 2 && r / 4 < 32
  {
    var r := clock % 128;
    QuotientAndRemainder(clock, 128);
    QuotientAndRemainder(r, 4);
    QuotientAndRemainder(r % 4, 2);
  }

  // Quotient and remainder are the only numbers of their kind.
  lemma QuotientIs(n: nat, m: nat, q: nat, r: nat)
    requires n == m * q + r && r < m
    ensures n / m == q && n % m == r
  {
    var p, s := n / m, n % m;
    QuotientAndRemainder(n, m);
    Distribute(m, q, p);
    SmallMultiple(m, p - q);
  }

  lemma XField(a: nat, x: nat, y: nat, z: nat)
    requires x < 32 && y < 2 && z < 2
    ensures var clock := 128 * a + 4 * x + 2 * y + z; clock / 2 % 64 / 2 == x && clock / 4 % 32 == x
  {
    var clock := 128 * a + 4 * x + 2 * y + z;
    QuotientIs(clock, 2, 64 * a + 2 * x + y, z);
    QuotientIs(64 * a + 2 * x + y, 64, a, 2 * x + y);
    QuotientIs(2 * x + y, 2, x, y);
    QuotientIs(clock, 4, 32 * a + x, 2 * y + z);
    QuotientIs(32 * a + x, 32, a, x);
  }

  lemma ClockX(clock: nat)
    ensures clock / 2 % 64 / 2 == clock / 4 % 32
  {
    ClockFields(clock);
    XField(clock / 128, clock % 128 / 4, clock % 128 % 4 / 2, clock % 128 % 4 % 2);
  }

  lemma ClockHigh(clock: nat)
    ensures clock / 2 / 64 == clock / 128
    ensures clock / 2097152 == clock / 128 / 16384
    ensures clock / 65536 == clock / 128 / 512
  {
  }

  lemma BlockEntry(n: nat, x: nat, y1: nat)
    requires x < 32 && y1 < 2
    ensures (64 * n + 2 * x + y1) / 64 == n
    ensures (64 * n + 2 * x + y1) % 64 / 2 == x
    ensures (64 * n + 2 * x + y1) % 2 == y1
  {
  }

  lemma EntryFields(t: nat)
    ensures t == 64 * (t / 64) + 2 * (t % 64 / 2) + t % 2
    ensures t % 64 / 2 < 32
  {
    var q, r := t / 64, t % 64;
    QuotientIs(t, 2, 32 * q + r / 2, r % 2);
  }

  // Doubling is injective modulo 79.
  lemma DoublesDiffer(i: nat, j: nat)
    requires i < j < 79
    ensures i * 2 % 79 != j * 2 % 79
  {
  }
}
