/** Products, quotients and powers, each fact in its smallest form. */
module Arithmetic {
  import opened Common
  import opened LittleEndian

  lemma MulAssoc(a: int, b: int, c: int)
    ensures (a * b) * c == a * (b * c)
  {
  }

  lemma MulAdd(a: int, b: int, c: int)
    ensures a * (b + c) == a * b + a * c
  {
  }

  // One more on the right is at least one more `d`.
  lemma MulStep(d: nat, b: nat, c: nat)
    ensures b < c ==> d * b + d <= d * c
    ensures b <= c ==> d * b <= d * c
  {
    if b <= c {
      MulAdd(d, b, c - b);
      if b < c {
        MulAdd(d, 1, c - b - 1);
      }
    }
  }

  lemma DivUnique(a: nat, d: nat, q: nat, r: nat)
    requires a == d * q + r && r < d
    ensures a / d == q && a % d == r
  {
    var p := a / d;
    assert a == d * p + a % d && p >= 0;
    MulStep(d, q, p);
    MulStep(d, p, q);
  }

  lemma Nested(a: nat, b: nat, c: nat, q: nat, r: nat, s: nat, t: nat)
    requires a == b * q + r && r < b && q == c * s + t && t < c
    ensures a == (b * c) * s + (b * t + r) && 0 <= b * t && b * t + r < b * c
  {
    MulAdd(b, c * s, t);
    MulAssoc(b, c, s);
    MulStep(b, t, c);
    MulStep(b, 0, t);
  }

  lemma DivDiv(a: nat, b: nat, c: nat)
    requires b > 0 && c > 0
    ensures b * c > 0 && a / (b * c) == (a / b) / c
  {
    var q, r := a / b, a % b;
    var s, t := q / c, q % c;
    Nested(a, b, c, q, r, s, t);
    DivUnique(a, b * c, s, b * t + r);
  }

  lemma DivAdd(a: nat, d: nat, k: nat)
    requires d > 0
    ensures d * k >= 0 && (a + d * k) / d == a / d + k && (a + d * k) % d == a % d
  {
    MulStep(d, 0, k);
    MulAdd(d, a / d, k);
    DivUnique(a + d * k, d, a / d + k, a % d);
  }

  // A multiple of d * m changes nothing about the quotient by d, taken modulo m.
  lemma HighPartDrops(lo: nat, d: nat, m: nat, t: nat)
    requires d > 0 && m > 0
    ensures lo + d * (m * t) >= 0 && ((lo + d * (m * t)) / d) % m == (lo / d) % m
  {
    MulStep(m, 0, t);
    DivAdd(lo, d, m * t);
    DivAdd(lo / d, m, t);
  }

  lemma {:induction false} PowAdd(b: nat, m: nat, n: nat)
    ensures Pow(b, m + n) == Pow(b, m) * Pow(b, n)
  {
    if m > 0 {
      PowAdd(b, m - 1, n);
      MulAssoc(b, Pow(b, m - 1), Pow(b, n));
    }
  }

  lemma Pow8()
    ensures Pow(2, 8) == 256
  {
    assert Pow(2, 2) == 4;
    PowAdd(2, 2, 2);
    PowAdd(2, 4, 4);
  }

  lemma {:induction false} PowBytes(k: nat)
    ensures Pow(256, k) == Pow(2, 8 * k)
  {
    if k > 0 {
      PowBytes(k - 1);
      PowAdd(2, 8, 8 * (k - 1));
      Pow8();
    }
  }

  lemma {:induction false} PowGrows(m: nat, n: nat)
    requires m <= n
    ensures Pow(2, m) <= Pow(2, n)
  {
    if m < n {
      PowGrows(m, n - 1);
    }
  }

  lemma Pow64()
    ensures Pow(2, 63) == 0x8000_0000_0000_0000 && Pow(2, 64) == 0x1_0000_0000_0000_0000
  {
    PowBytes(8);
    Powers();
  }

  lemma {:induction false} LeConcat(a: Bytes, b: Bytes)
    ensures Le(a + b) == Le(a) + Pow(256, |a|) * Le(b)
  {
    if a == [] {
      assert a + b == b;
    } else {
      LeConcat(a[1..], b);
      assert (a + b)[1..] == a[1..] + b;
      MulAssoc(256, Pow(256, |a| - 1), Le(b));
    }
  }
}
