/** Barrett reduction of big numbers, Algorithm 14.42 of the Handbook of Applied Cryptography
    (double/v_bignum.c.c). */
module BigReduce {
  import opened Arith
  import opened Digits
  import opened BigBits
  import opened BigArith
  import opened BigMul
  import opened BigDiv

  /** The number of digits of s without its leading zeros. */
  function Sig(s: seq<Dig>): (k: nat)
    ensures k <= |s|
  {
    if s == [] then 0 else if s[|s| - 1] != 0 then |s| else Sig(s[..|s| - 1])
  }

  lemma {:induction false} SigValue(s: seq<Dig>)
    ensures Sig(s) == 0 ==> Val(s) == 0
    ensures Sig(s) > 0 ==> W(Sig(s) - 1) <= Val(s) < W(Sig(s))
  {
    if s != [] {
      var n := |s| - 1;
      ValStep(s, n);
      assert s[..n + 1] == s;
      if s[n] == 0 {
        SigValue(s[..n]);
      } else {
        ValBound(s);
        ValBound(s[..n]);
        MulMono(1, s[n], W(n));
      }
    }
  }

  /** Finds the number of significant digits of a non-zero number. */
  method SignificantDigits(m: array<Dig>) returns (k: nat)
    requires Val(m[..]) != 0
    ensures k == Sig(m[..]) && 1 <= k
  {
    SigValue(m[..]);
    k := m.Length;
    assert m[..k] == m[..];
    while m[k - 1] == 0
      invariant 1 <= k <= m.Length && Sig(m[..k]) == Sig(m[..]) > 0
      decreases k
    {
      assert m[..k][..k - 1] == m[..k - 1];
      k := k - 1;
    }
  }

  /** The estimate q of x / m that Barrett reduction multiplies back is at most two too small. */
  lemma BarrettEstimate(x: nat, m: nat, a: nat, c: nat, mu: nat, q1: nat, q: nat)
    requires 0 < a <= m && 0 < c && x < a * c
    requires mu == a * c / m && q1 == x / a && q == q1 * mu / c
    ensures q1 < c && mu <= c
    ensures 0 <= x - q * m < 3 * m
  {
    DivModOf(x, a);
    DivModOf(a * c, m);
    DivBound(x, a, c);
    MuBound(a, c, m, mu);
    MulMono(0, q1, mu);
    DivModOf(q1 * mu, c);
    EstimateLow(x, m, a, c, mu, q1, q);
    EstimateHigh(x, m, a, c, mu, q1, q);
  }

  lemma MuBound(a: nat, c: nat, m: nat, mu: nat)
    requires 0 < a <= m && mu * m <= a * c
    ensures mu <= c
  {
    MulMono(a, m, mu);
    SwapMul(mu, m);
    if mu >= c + 1 {
      MulMono(c + 1, mu, a);
      SwapMul(mu, a);
      SwapDist(c, 1, a);
      SwapMul(c, a);
    }
  }

  lemma EstimateLow(x: nat, m: nat, a: nat, c: nat, mu: nat, q1: nat, q: nat)
    requires 0 < a && 0 < m && 0 < c
    requires q1 * a <= x && mu * m <= a * c && q * c <= q1 * mu
    ensures q * m <= x
  {
    // q * m * (a * c) <= (q1 * a) * (mu * m) <= x * (a * c)
    MulMono(0, q1, a);
    MulMono(q1 * a, x, mu * m);
    MulMono(mu * m, a * c, x);
    SwapMul(x, mu * m);
    SwapMul(x, a * c);
    MulMono(0, a, m);
    MulMono(q * c, q1 * mu, a * m);
    Shuffle(q, c, a, m);
    Shuffle(q1, mu, a, m);
    MulMono(1, a, c);
    if q * m > x {
      MulMonoStrict(x, q * m, a * c);
    }
  }

  lemma Shuffle(q: int, c: int, a: int, m: int)
    ensures (q * c) * (a * m) == (q * a) * (c * m) == (q * m) * (a * c)
  {
    MulAssoc(q, c, a * m);
    MulAssoc(q, a, c * m);
    MulAssoc(q, m, a * c);
    MulSwap(c, a, m);
    MulSwap(m, a, c);
    SwapMul(m, c);
  }

  lemma EstimateHigh(x: nat, m: nat, a: nat, c: nat, mu: nat, q1: nat, q: nat)
    requires 0 < a && 0 < m && 0 < c && q1 < c && mu <= c
    requires x < q1 * a + a && a * c < mu * m + m && q1 * mu < q * c + c
    ensures x - q * m < 3 * m
  {
    // x * c < (q1 + 1) * a * c <= (q1 + 1) * (mu + 1) * m <= (q + 3) * c * m
    var t := (q1 + 1) * (mu + 1);
    SwapDist(q1, 1, a);
    MulMonoStrict(x, (q1 + 1) * a, c);
    MulAssoc(q1 + 1, a, c);
    SwapDist(mu, 1, m);
    MulMono(a * c, (mu + 1) * m, q1 + 1);
    SwapMul(q1 + 1, a * c);
    SwapMul(q1 + 1, (mu + 1) * m);
    MulAssoc(q1 + 1, mu + 1, m);
    assert x * c < t * m;
    assert t <= (q + 3) * c by {
      MulDist(q1 + 1, mu, 1);
      SwapDist(q1, 1, mu);
      SwapDist(q, 3, c);
    }
    MulMono(t, (q + 3) * c, m);
    MulAssoc(q + 3, c, m);
    MulAssoc(q + 3, m, c);
    SwapMul(c, m);
    SwapDist(q, 3, m);
    if x >= (q + 3) * m {
      MulMono((q + 3) * m, x, c);
    }
  }

  /** Computes mu = floor(b^2k / m) for a modulus of k significant digits. */
  method ReduceBegin(h: DigitHeap, m: array<Dig>) returns (mu: array<Dig>)
    requires Val(m[..]) != 0 && m.Length <= 2 * Sig(m[..]) + 1 < 0x1_0000
    requires h.pos + 3 * (2 * Sig(m[..]) + 2) <= HEAP_SIZE
    modifies h
    ensures fresh(mu) && mu.Length == 2 * Sig(m[..]) + 1 && h.pos == old(h.pos) + mu.Length + 1
    ensures Val(mu[..]) == W(2 * Sig(m[..])) / Val(m[..])
  {
    hide Val, W, Pow2;
    var k := SignificantDigits(m);
    mu := h.Alloc(2 * k + 1);
    SetZero(mu);
    OneBit(2 * k, 2 * k + 1);
    BitSet(mu, 16 * 2 * k);
    Div(h, mu, m, null);
  }

  /** Setting the bit at the foot of digit i of zero gives the weight of that digit. */
  lemma OneBit(i: nat, n: nat)
    requires i < n
    ensures WithBit(0, 16 * i, n) == W(i)
  {
    WBits(i);
    ModSmall(0, Pow2(16 * i));
  }

  /** Gives back the number ReduceBegin returned. */
  method ReduceEnd(h: DigitHeap, mu: array<Dig>)
    requires mu.Length + 1 <= h.pos
    modifies h
    ensures h.pos == old(h.pos) - mu.Length - 1
  {
    h.Free(mu);
  }

  /** Clears the digits of r from index k + 1 on. */
  method KeepLow(r: array<Dig>, k: nat)
    modifies r
    ensures Val(r[..]) == old(Val(r[..])) % W(LowDigits(r.Length, k))
  {
    ghost var rs := r[..];
    var i := k + 1;
    while i < r.Length
      invariant k + 1 <= i && (i <= r.Length || i == k + 1)
      invariant forall j :: 0 <= j < r.Length ==> r[j] == if k + 1 <= j < i then 0 else rs[j]
    {
      r[i] := 0;
      i := i + 1;
    }
    ghost var t := LowDigits(r.Length, k);
    assert r[..] == rs[..t] + r[t..];
    ValAppendZeros(rs[..t], r[t..]);
    ValTakeDrop(rs, t);
  }

  /** How many of n digits are at index k or below. */
  function LowDigits(n: nat, k: nat): nat {
    if n <= k + 1 then n else k + 1
  }

  /** What subtraction modulo the vector's size and the sign fix-up make of the two remainders. */
  function FixedUp(v: int, n: nat, k: nat): int
    requires n > 0
  {
    if v / Pow2(16 * n - 1) % 2 == 1 then (v + W(k + 1)) % W(n) else v
  }

  /** The sign fix-up restores r = x - q * m for vectors above, at and below k + 1 digits. */
  lemma FixUpRight(x: nat, qm: nat, m: nat, n: nat, k: nat)
    requires 1 <= k <= n && m < W(k) && x < W(n) && 0 <= x - qm < 3 * m
    ensures var t := LowDigits(n, k);
            FixedUp((x % W(t) - qm % W(t)) % W(n), n, k) == x - qm
  {
    var t, r := LowDigits(n, k), x - qm;
    WStep(k);
    if n > k + 1 {
      FixUpLong(x, qm, n, k);
    } else {
      WMono(k, n);
      ShortDifference(x, qm, W(n));
      WAdd(n, k + 1 - n);
      ModShift(r, W(k + 1 - n), W(n));
      SwapMul(W(n), W(k + 1 - n));
      ModSmall(r, W(n));
    }
  }

  lemma ShortDifference(x: nat, qm: nat, w: nat)
    requires w > 0 && 0 <= x - qm < w
    ensures (x % w - qm % w) % w == x - qm
  {
    DivModOf(x, w);
    DivModOf(qm, w);
    SwapDist(x / w, -(qm / w), w);
    NegMul(qm / w, w);
    ModShift(x % w - qm % w, x / w - qm / w, w);
    ModSmall(x - qm, w);
  }

  lemma FixUpLong(x: nat, qm: nat, n: nat, k: nat)
    requires n > k + 1 && 0 <= x - qm < W(k + 1)
    ensures FixedUp((x % W(k + 1) - qm % W(k + 1)) % W(n), n, k) == x - qm
  {
    var c, w, r, h := W(k + 1), W(n), x - qm, Pow2(16 * n - 1);
    ShortDifference(x, qm, c);
    DivModOf(x, c);
    DivModOf(qm, c);
    var d := x % c - qm % c;
    WMono(k + 1, n - 1);
    WStep(n - 1);
    WBits(n);
    Pow2Step(16 * n - 1);
    assert 2 * h == w && c <= h;
    if d >= 0 {
      ModSmall(d, c);
      ModSmall(d, w);
      ModSmall(d, h);
    } else {
      DivModUnique(d, c, -1, d + c);
      DivModUnique(d, w, -1, d + w);
      DivModUnique(d + w, h, 1, d + w - h);
      DivModUnique(d + w + c, w, 1, d + c);
    }
  }

  /** The estimate of the quotient, computed without any of its steps being cut off. */
  lemma EstimateSteps(x: nat, m: nat, mu: nat, k: nat, n: nat)
    requires 1 <= k <= n && W(k - 1) <= m < W(k) && mu == W(2 * k) / m && x < W(2 * k) && x < W(n)
    ensures var lq, q1 := n + k + 2, x / Pow2(16 * (k - 1));
            var q := q1 * mu / Pow2(16 * (k + 1));
            && x % W(lq) == x
            && q1 * mu % W(lq) == q1 * mu
            && 0 <= q && 0 <= x - q * m < 3 * m
  {
    var a, c, lq := W(k - 1), W(k + 1), n + k + 2;
    WBits(k - 1);
    WBits(k + 1);
    WAdd(k - 1, k + 1);
    WMono(n, lq);
    ModSmall(x, W(lq));
    var q1 := x / a;
    DivNat(x, a);
    DivNat(W(2 * k), m);
    MulMono(0, q1, mu);
    DivNat(q1 * mu, c);
    BarrettEstimate(x, m, a, c, mu, q1, q1 * mu / c);
    ProductFits(q1, mu, k, lq);
  }

  lemma ProductFits(q1: nat, mu: nat, k: nat, lq: nat)
    requires q1 < W(k + 1) && mu <= W(k + 1) && 2 * k + 2 <= lq
    ensures q1 * mu % W(lq) == q1 * mu
  {
    var c := W(k + 1);
    WAdd(k + 1, k + 1);
    WMono(2 * k + 2, lq);
    MulMono(0, q1, mu);
    MulMono(mu, c, q1);
    SwapMul(q1, mu);
    SwapMul(c, q1);
    MulMonoStrict(q1, c, c);
    ModSmall(q1 * mu, W(lq));
  }

  /** Truncating the factor and the product does not matter to the low t digits. */
  lemma TruncatedProduct(q: nat, m: nat, n: nat, t: nat)
    requires t <= n
    ensures (q % W(n)) * m % W(n) % W(t) == q * m % W(t)
  {
    ModMul(q, m, W(n));
    WAdd(t, n - t);
    ModMod(q * m, W(t), W(n - t));
  }

  lemma TruncatedValue(x: nat, n: nat, t: nat)
    requires t <= n && x < W(n)
    ensures x % W(n) % W(t) == x % W(t) && x % W(t) % W(n) == x % W(t)
  {
    ModSmall(x, W(n));
    WMono(t, n);
    DivModOf(x, W(t));
    ModSmall(x % W(t), W(n));
  }

  /** The first steps of the reduction: an estimate of the quotient x / m. */
  method EstimateQuotient(h: DigitHeap, x: array<Dig>, m: array<Dig>, mu: array<Dig>, k: nat)
    returns (q: array<Dig>)
    requires 1 <= k == Sig(m[..]) && m.Length <= x.Length && mu.Length == 2 * k + 1 && Val(m[..]) != 0
    requires Val(mu[..]) == W(2 * k) / Val(m[..]) && Val(x[..]) < W(2 * k)
    requires x.Length + 3 * k + 4 <= 2048 && h.pos + x.Length + k + 3 <= HEAP_SIZE
    modifies h
    ensures fresh(q) && h.pos == old(h.pos) + q.Length + 1 == old(h.pos) + x.Length + k + 3
    ensures var v := Val(q[..]) * Val(m[..]);
            0 <= Val(q[..]) && 0 <= Val(x[..]) - v < 3 * Val(m[..])
  {
    hide Val, W, Pow2;
    SigValue(m[..]);
    ValBound(x[..]);
    ValBound(mu[..]);
    EstimateSteps(Val(x[..]), Val(m[..]), Val(mu[..]), k, x.Length);
    q := h.Alloc(x.Length + mu.Length - (k - 1));
    SetBignum(q, x);
    ShiftRight(q, 16 * (k - 1));
    Mul(q, mu);
    ShiftRight(q, 16 * (k + 1));
  }

  /** Step 2: x minus q times m, both cut to their low digits. */
  method Difference(h: DigitHeap, x: array<Dig>, m: array<Dig>, q: array<Dig>, k: nat)
    returns (r1: array<Dig>, r2: array<Dig>)
    requires x != m && x != q && m.Length <= x.Length && x.Length + m.Length + 1 <= 2048 && 0 <= Val(q[..])
    requires h.pos + 2 * (x.Length + 1) <= HEAP_SIZE
    modifies h, x
    ensures fresh(r1) && fresh(r2) && r1.Length == r2.Length == x.Length
    ensures h.pos == old(h.pos) + 2 * (x.Length + 1)
    ensures var w := W(LowDigits(x.Length, k));
            Val(x[..]) == (old(Val(x[..])) % w - old(Val(q[..]) * Val(m[..])) % w) % W(x.Length)
  {
    hide Val, W;
    ghost var t, n := LowDigits(x.Length, k), x.Length;
    ValBound(x[..]);
    ValBound(m[..]);
    TruncatedValue(Val(x[..]), n, t);
    TruncatedProduct(Val(q[..]), Val(m[..]), n, t);
    r1 := h.Alloc(x.Length);
    r2 := h.Alloc(x.Length);
    SetBignum(r1, x);
    KeepLow(r1, k);
    SetBignum(r2, q);
    Mul(r2, m);
    KeepLow(r2, k);
    SetBignum(x, r1);
    Sub(x, r2);
  }

  /** Step 3: makes a negative difference positive again. */
  method SignFixUp(h: DigitHeap, r: array<Dig>, k: nat)
    requires r.Length > 0 && h.pos + k + 17 <= HEAP_SIZE
    modifies h, r
    ensures h.pos == old(h.pos)
    ensures Val(r[..]) == FixedUp(old(Val(r[..])), r.Length, k)
  {
    hide Val, W, Pow2;
    if BitTest(r, 16 * r.Length - 1) {
      var term := h.Alloc(k + 1 * 16);
      SetZero(term);
      OneBit(k + 1, k + 16);
      BitSet(term, 16 * (k + 1));
      Add(r, term);
      h.Free(term);
    }
  }

  /** Step 4: at most two subtractions of m remain. */
  method SubtractRest(r: array<Dig>, m: array<Dig>) returns (ghost rounds: nat)
    requires r != m && m.Length <= r.Length && 0 < Val(m[..]) && Val(r[..]) < 3 * Val(m[..])
    modifies r
    ensures Val(r[..]) == old(Val(r[..]) % Val(m[..])) && rounds <= 2
  {
    hide Val, W;
    ghost var mv, rv := Val(m[..]), Val(r[..]);
    rounds := 0;
    ValBound(r[..]);
    var more := Gte(r, m);
    while more
      invariant m[..] == old(m[..]) && rounds <= 2
      invariant Val(r[..]) == rv - rounds * mv && Val(r[..]) >= 0
      invariant more <==> Val(r[..]) >= mv
      decreases 3 - rounds
    {
      ValBound(r[..]);
      ModSmall(Val(r[..]) - mv, W(r.Length));
      SwapDist(rounds, 1, mv);
      Sub(r, m);
      rounds := rounds + 1;
      more := Gte(r, m);
    }
    DivModUnique(rv, mv, rounds, Val(r[..]));
  }

  /** Computes x = x % m with the helper mu from ReduceBegin, for x below b^2k. */
  method Reduce(h: DigitHeap, x: array<Dig>, m: array<Dig>, mu: array<Dig>)
    returns (ghost rounds: nat)
    requires x != m && x != mu && m.Length <= x.Length && Val(m[..]) != 0
    requires mu.Length == 2 * Sig(m[..]) + 1 && Val(mu[..]) == W(2 * Sig(m[..])) / Val(m[..])
    requires Val(x[..]) < W(2 * Sig(m[..]))
    requires x.Length + 3 * Sig(m[..]) + 4 <= 2048 && x.Length + m.Length + 1 <= 2048
    requires h.pos + 3 * x.Length + 2 * Sig(m[..]) + 22 <= HEAP_SIZE
    modifies h, x
    ensures h.pos == old(h.pos)
    ensures Val(x[..]) == old(Val(x[..]) % Val(m[..])) && rounds <= 2
  {
    hide Val, W, Pow2, FixedUp;
    var k := SignificantDigits(m);
    ghost var xv, mv := Val(x[..]), Val(m[..]);
    SigValue(m[..]);
    ValBound(x[..]);
    var q := EstimateQuotient(h, x, m, mu, k);
    ghost var qv := Val(q[..]);
    FixUpRight(xv, qv * mv, mv, x.Length, k);
    var r1, r2 := Difference(h, x, m, q, k);
    SignFixUp(h, x, k);
    rounds := SubtractRest(x, m);
    ModShift(xv, -qv, mv);
    NegMul(qv, mv);
    h.Free(r2);
    h.Free(r1);
    h.Free(q);
  }
}
