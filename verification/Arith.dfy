/** Powers, division and bitwise-or on natural numbers, shared by the numeric modules. */
module Arith {

  function Pow(b: nat, e: nat): (r: nat)
    ensures b > 0 ==> r > 0
  {
    if e == 0 then 1 else b * Pow(b, e - 1)
  }

  lemma {:induction false} PowAdd(b: nat, m: nat, n: nat)
    ensures Pow(b, m + n) == Pow(b, m) * Pow(b, n)
  {
    if m > 0 {
      PowAdd(b, m - 1, n);
      MulAssoc(b, Pow(b, m - 1), Pow(b, n));
    }
  }

  lemma {:induction false} PowPow(b: nat, m: nat, n: nat)
    ensures Pow(Pow(b, m), n) == Pow(b, m * n)
  {
    if n > 0 {
      PowPow(b, m, n - 1);
      assert m * n == m + m * (n - 1);
      PowAdd(b, m, m * (n - 1));
    } else {
      assert m * n == 0;
    }
  }

  lemma {:induction false} PowMono(b: nat, m: nat, n: nat)
    requires b > 0 && m <= n
    ensures Pow(b, m) <= Pow(b, n)
  {
    PowAdd(b, m, n - m);
    MulMono(1, Pow(b, n - m), Pow(b, m));
  }

  lemma MulAssoc(a: int, b: int, c: int)
    ensures a * (b * c) == (a * b) * c
  {
  }

  lemma MulSwap(a: int, b: int, c: int)
    ensures a * (b * c) == b * (a * c)
  {
  }

  lemma SwapMul(a: int, b: int)
    ensures a * b == b * a
  {
  }

  /** The weight of bit k. */
  function Pow2(k: nat): (r: nat)
    ensures r > 0
  {
    Pow(2, k)
  }

  lemma Pow2Step(k: nat)
    ensures Pow2(k + 1) == 2 * Pow2(k)
  {
  }

  lemma Pow2Add(m: nat, n: nat)
    ensures Pow2(m + n) == Pow2(m) * Pow2(n)
  {
    PowAdd(2, m, n);
  }

  lemma Pow2Mono(m: nat, n: nat)
    requires m <= n
    ensures Pow2(m) <= Pow2(n)
  {
    PowMono(2, m, n);
  }

  lemma Pow2Square(n: nat, p: nat)
    requires Pow2(n) == p
    ensures Pow2(2 * n) == p * p
  {
    Pow2Add(n, n);
  }

  lemma Pow2Of64()
    ensures Pow2(32) == 0x1_0000_0000 && Pow2(64) == 0x1_0000_0000_0000_0000
  {
    Pow2Step(0);
    hide Pow2;
    Pow2Square(1, 2);
    Pow2Square(2, 4);
    Pow2Square(4, 16);
    Pow2Square(8, 0x100);
    Pow2Square(16, 0x1_0000);
    Pow2Square(32, 0x1_0000_0000);
  }

  lemma ZeroMul(a: int)
    ensures 0 * a == 0 && a * 0 == 0
  {
  }

  lemma NegMul(a: int, b: int)
    ensures (-a) * b == -(a * b)
  {
  }

  lemma MulDist(a: int, b: int, c: int)
    ensures a * (b + c) == a * b + a * c
  {
  }

  lemma SwapDist(a: int, b: int, c: int)
    ensures (a + b) * c == a * c + b * c
  {
  }

  lemma MulMono(a: int, b: int, c: int)
    requires a <= b && 0 <= c
    ensures a * c <= b * c
  {
  }

  lemma MulMonoStrict(a: int, b: int, c: int)
    requires a < b && 0 < c
    ensures a * c < b * c
  {
  }

  /** A value written as q * b + r with r in range has exactly that quotient and remainder. */
  lemma DivModUnique(a: int, b: int, q: int, r: int)
    requires b > 0 && a == q * b + r && 0 <= r < b
    ensures a / b == q && a % b == r
  {
    var q', r' := a / b, a % b;
    assert a == q' * b + r';
    assert (q - q') * b == r' - r;
    if q - q' >= 1 {
      MulMono(1, q - q', b);
    } else if q - q' <= -1 {
      MulMono(q - q', -1, b);
    }
  }

  lemma DivModOf(a: int, b: int)
    requires b > 0
    ensures a == (a / b) * b + a % b && 0 <= a % b < b
  {
  }

  lemma DivDiv(a: nat, b: nat, c: nat)
    requires b > 0 && c > 0
    ensures b * c > 0 && a / b / c == a / (b * c)
  {
    var q, r := a / b, a % b;
    var q2, r2 := q / c, q % c;
    DivModOf(a, b);
    DivModOf(q, c);
    MulMono(1, b, c);
    assert a == q2 * (b * c) + (r2 * b + r) by {
      assert (q2 * c + r2) * b == q2 * (b * c) + r2 * b by {
        MulAssoc(q2, b, c);
        MulAssoc(q2, c, b);
      }
    }
    assert 0 <= r2 * b + r < b * c by {
      MulMono(r2, c - 1, b);
      MulMono(0, r2, b);
      assert (c - 1) * b == b * c - b;
    }
    DivModUnique(a, b * c, q2, r2 * b + r);
  }

  /** Reducing modulo a multiple of b first does not change the value modulo b. */
  lemma ModMod(a: int, b: int, c: int)
    requires b > 0 && c > 0
    ensures b * c > 0 && a % (b * c) % b == a % b
  {
    MulMono(1, b, c);
    var q, r := a / (b * c), a % (b * c);
    DivModOf(a, b * c);
    DivModOf(r, b);
    assert a == (q * c + r / b) * b + r % b by {
      assert (q * c) * b == q * (b * c) by { MulAssoc(q, c, b); }
    }
    DivModUnique(a, b, q * c + r / b, r % b);
  }

  lemma ModShift(a: int, k: int, b: int)
    requires b > 0
    ensures (a + k * b) % b == a % b
  {
    DivModOf(a, b);
    assert a + k * b == (a / b + k) * b + a % b;
    DivModUnique(a + k * b, b, a / b + k, a % b);
  }

  lemma AddMod(a: int, b: int, m: int)
    requires m > 0
    ensures (a % m + b) % m == (a + b) % m
  {
    DivModOf(a, m);
    ModShift(a % m + b, a / m, m);
  }

  lemma ModSmall(a: int, b: int)
    requires 0 <= a < b
    ensures a % b == a && a / b == 0
  {
    DivModUnique(a, b, 0, a);
  }

  lemma ModMul(a: int, c: int, b: int)
    requires b > 0
    ensures ((a % b) * c) % b == (a * c) % b
  {
    DivModOf(a, b);
    var q := a / b;
    assert a * c == (a % b) * c + (q * c) * b by {
      assert (q * b) * c == (q * c) * b by { MulAssoc(q, b, c); MulAssoc(q, c, b); }
    }
    ModShift((a % b) * c, q * c, b);
  }

  lemma DivMono(a: int, c: int, b: int)
    requires b > 0 && a <= c
    ensures a / b <= c / b
  {
    DivModOf(a, b);
    DivModOf(c, b);
    if a / b >= c / b + 1 {
      MulMono(c / b + 1, a / b, b);
    }
  }

  /** a < b * c gives a / b < c. */
  lemma DivBound(a: nat, b: nat, c: nat)
    requires b > 0 && a < b * c
    ensures a / b < c
  {
    DivModOf(a, b);
    if a / b >= c {
      MulMono(c, a / b, b);
    }
  }

  lemma DivNat(a: nat, b: nat)
    requires b > 0
    ensures a / b >= 0
  {
    DivModOf(a, b);
    if a / b <= -1 {
      MulMono(a / b, -1, b);
    }
  }

  /** A right shift of an unsigned word. */
  function Shr(a: nat, k: nat): nat
  {
    DivNat(a, Pow2(k));
    a / Pow2(k)
  }

  /** The machine's inclusive-or, bit by bit. */
  function BitOr(a: nat, b: nat): nat
  {
    if a == 0 then b
    else if b == 0 then a
    else (if a % 2 == 1 || b % 2 == 1 then 1 else 0) + 2 * BitOr(a / 2, b / 2)
  }

  lemma {:induction false} OrZero(a: nat)
    ensures BitOr(a, 0) == a && BitOr(0, a) == a
  {
  }

  lemma OrComm(a: nat, b: nat)
    ensures BitOr(a, b) == BitOr(b, a)
  {
  }

  /** Or of values whose set bits cannot meet is their sum. */
  lemma {:induction false} OrDisjoint(a: nat, b: nat, k: nat)
    requires a % Pow2(k) == 0 && b < Pow2(k)
    ensures BitOr(a, b) == a + b
  {
    if k == 0 || a == 0 || b == 0 {
      OrZero(a);
    } else {
      var p := Pow2(k - 1);
      DivModOf(a, Pow2(k));
      var q := a / Pow2(k);
      assert a == 2 * (q * p) by { MulAssoc(q, 2, p); MulAssoc(2, q, p); }
      DivModUnique(q * p, p, q, 0);
      OrDisjoint(a / 2, b / 2, k - 1);
    }
  }

  /** Setting bit k: nothing changes if it is set, otherwise 2^k is added. */
  lemma {:induction false} OrBit(a: nat, k: nat)
    ensures BitOr(a, Pow2(k)) == if a / Pow2(k) % 2 == 1 then a else a + Pow2(k)
  {
    if k == 0 {
      assert a / Pow2(0) == a;
      if a > 0 {
        OrZero(a / 2);
      }
    } else if a == 0 {
      ModSmall(0, Pow2(k));
    } else {
      var p := Pow2(k - 1);
      OrBit(a / 2, k - 1);
      DivDiv(a, 2, p);
      assert Pow2(k) / 2 == p && Pow2(k) % 2 == 0;
    }
  }

  lemma {:induction false} OrBound(a: nat, b: nat, k: nat)
    requires a < Pow2(k) && b < Pow2(k)
    ensures BitOr(a, b) < Pow2(k)
  {
    if k > 0 && a > 0 && b > 0 {
      Pow2Step(k - 1);
      OrBound(a / 2, b / 2, k - 1);
    }
  }
}
