/** Modular exponentiation of big numbers (double/v_bignum.c.c). */
module BigPow {
  import opened Arith
  import opened Digits
  import opened BigBits
  import opened BigMul
  import opened BigDiv
  import opened BigReduce
  import opened BigSquare

  /** What modular exponentiation leaves in x: without a second bit in the exponent nothing is reduced. */
  function PowerMod(x: nat, e: nat, n: nat): int
    requires n > 0
  {
    if e <= 1 then x else Pow(x, e) % n
  }

  /** The result is the power modulo n for every exponent from 2 on, for 1 if x is reduced already, and for
      0 only if x happens to be 1 modulo n. */
  lemma PowerModExact(x: nat, e: nat, n: nat)
    requires n > 0
    ensures PowerMod(x, e, n) == Pow(x, e) % n <==> e >= 2 || (e == 1 && x < n) || (e == 0 && x == 1 % n)
  {
    if e == 1 {
      assert Pow(x, 1) == x * Pow(x, 0) == x;
      DivModOf(x, n);
      if x < n {
        ModSmall(x, n);
      }
    }
  }

  /** 5 to the power 1 modulo 3 is left at 5. */
  lemma NotReduced()
    ensures PowerMod(5, 1, 3) == 5 && Pow(5, 1) % 3 == 2
  {
    assert Pow(5, 1) == 5 * Pow(5, 0);
  }

  lemma SquaredPower(x: nat, e: nat, n: nat)
    requires n > 0 && e >= 1
    ensures PowerMod(x, e, n) * PowerMod(x, e, n) % n == PowerMod(x, 2 * e, n)
  {
    var v, p := PowerMod(x, e, n), Pow(x, e);
    PowAdd(x, e, e);
    if e == 1 {
      assert Pow(x, 1) == x * Pow(x, 0) == x;
    } else {
      ModMul(p, p % n, n);
      ModMul(p, p, n);
      SwapMul(p, p % n);
    }
  }

  lemma NextPower(x: nat, e: nat, n: nat)
    requires n > 0 && e >= 1
    ensures PowerMod(x, 2 * e, n) * x % n == PowerMod(x, 2 * e + 1, n)
  {
    var p := Pow(x, 2 * e);
    ModMul(p, x, n);
    SwapMul(x, p);
  }

  /** Below b^k two numbers have a product below b^2k. */
  lemma ProductBelow(a: nat, b: nat, k: nat)
    requires a < W(k) && b < W(k)
    ensures 0 <= a * b < W(2 * k)
  {
    WAdd(k, k);
    var w := W(k);
    MulMono(0, a, b);
    MulMono(b, w, a);
    MulMonoStrict(a, w, w);
    SwapMul(a, b);
    SwapMul(w, a);
  }

  /** tmp = tmp^2 mod n. */
  method SquareStep(h: DigitHeap, tmp: array<Dig>, n: array<Dig>, mu: array<Dig>)
    requires tmp != n && tmp != mu && 2 * n.Length <= tmp.Length <= 256 && tmp.Length % 2 == 0
    requires Val(n[..]) != 0 && Val(tmp[..]) < W(Sig(n[..]))
    requires mu.Length == 2 * Sig(n[..]) + 1 && Val(mu[..]) == W(2 * Sig(n[..])) / Val(n[..])
    requires h.pos + 3 * tmp.Length + 2 * Sig(n[..]) + 22 <= HEAP_SIZE
    modifies h, tmp
    ensures h.pos == old(h.pos) && 0 <= Val(tmp[..]) < Val(n[..])
    ensures Val(tmp[..]) == old(Val(tmp[..]) * Val(tmp[..]) % Val(n[..]))
  {
    hide Val, W;
    ValBound(n[..]);
    ghost var half, v := tmp.Length / 2, Val(tmp[..]);
    ValBound(tmp[..]);
    WMono(Sig(n[..]), half);
    ValTakeDrop(tmp[..], half);
    ModSmall(v, W(half));
    assert tmp[..][..half] == tmp[..half];
    ProductBelow(v, v, Sig(n[..]));
    SquareHalf(tmp);
    var _ := Reduce(h, tmp, n, mu);
  }

  /** tmp = tmp * x mod n. */
  method MulStep(h: DigitHeap, tmp: array<Dig>, x: array<Dig>, n: array<Dig>, mu: array<Dig>)
    requires tmp != n && tmp != mu && tmp != x && n.Length <= x.Length && 2 * x.Length == tmp.Length <= 256
    requires Val(n[..]) != 0 && Val(tmp[..]) < W(Sig(n[..])) && Val(x[..]) < W(Sig(n[..]))
    requires mu.Length == 2 * Sig(n[..]) + 1 && Val(mu[..]) == W(2 * Sig(n[..])) / Val(n[..])
    requires h.pos + 3 * tmp.Length + 2 * Sig(n[..]) + 22 <= HEAP_SIZE
    modifies h, tmp
    ensures h.pos == old(h.pos) && 0 <= Val(tmp[..]) < Val(n[..])
    ensures Val(tmp[..]) == old(Val(tmp[..]) * Val(x[..]) % Val(n[..]))
  {
    hide Val, W;
    ghost var v := Val(tmp[..]) * Val(x[..]);
    ValBound(n[..]);
    ValBound(tmp[..]);
    ValBound(x[..]);
    ProductBelow(Val(tmp[..]), Val(x[..]), Sig(n[..]));
    WMono(2 * Sig(n[..]), tmp.Length);
    ModSmall(v, W(tmp.Length));
    Mul(tmp, x);
    var _ := Reduce(h, tmp, n, mu);
  }

  /** The power reached when the exponent's bits down to position b have been used. */
  function Reached(x: nat, y: nat, n: nat, b: int): int
    requires n > 0
  {
    if b <= 0 then PowerMod(x, y, n) else PowerMod(x, Shr(y, b), n)
  }

  lemma PowerStart(x: nat, y: nat, n: nat, k: int)
    requires n > 0 && k >= -1 && (k == -1 <==> y == 0) && (k >= 0 ==> Pow2(k) <= y < Pow2(k + 1))
    ensures Reached(x, y, n, k) == x && (k >= 0 ==> y / Pow2(k) >= 1)
  {
    if k >= 0 {
      Pow2Step(k);
      DivModUnique(y, Pow2(k), 1, y - Pow2(k));
      assert Pow2(0) == 1;
    }
  }

  /** One more bit of the exponent: square, and multiply if the bit is set. */
  lemma PowerRound(x: nat, y: nat, n: nat, i: nat)
    requires n > 0 && y / Pow2(i + 1) >= 1
    ensures y / Pow2(i) >= 1
    ensures var v := Reached(x, y, n, i + 1) * Reached(x, y, n, i + 1) % n;
            Reached(x, y, n, i) == if y / Pow2(i) % 2 == 1 then v * x % n else v
  {
    var e := Shr(y, i + 1);
    NextPrefix(y, i);
    SquaredPower(x, e, n);
    NextPower(x, e, n);
    assert Pow2(0) == 1;
    assert Reached(x, y, n, i) == PowerMod(x, Shr(y, i), n);
  }

  /** One bit of the exponent. */
  method PowBit(h: DigitHeap, tmp: array<Dig>, x: array<Dig>, y: array<Dig>, n: array<Dig>, mu: array<Dig>, i: nat)
    requires tmp != n && tmp != mu && tmp != x && tmp != y
    requires n.Length <= x.Length && 2 * x.Length == tmp.Length <= 256
    requires Val(n[..]) != 0 && Val(x[..]) < W(Sig(n[..])) && 0 <= Val(x[..]) && 0 <= Val(y[..])
    requires mu.Length == 2 * Sig(n[..]) + 1 && Val(mu[..]) == W(2 * Sig(n[..])) / Val(n[..])
    requires h.pos + 3 * tmp.Length + 2 * Sig(n[..]) + 22 <= HEAP_SIZE
    requires 0 < Val(n[..]) < W(Sig(n[..])) && Val(tmp[..]) < W(Sig(n[..]))
    requires Val(y[..]) / Pow2(i + 1) >= 1 && Val(tmp[..]) == Reached(Val(x[..]), Val(y[..]), Val(n[..]), i + 1)
    modifies h, tmp
    ensures h.pos == old(h.pos) && Val(tmp[..]) < W(Sig(n[..]))
    ensures Val(y[..]) / Pow2(i) >= 1 && Val(tmp[..]) == Reached(Val(x[..]), Val(y[..]), Val(n[..]), i)
  {
    hide Val, W, Pow2, PowerMod, Reached;
    PowerRound(Val(x[..]), Val(y[..]), Val(n[..]), i);
    SquareStep(h, tmp, n, mu);
    if BitTest(y, i) {
      MulStep(h, tmp, x, n, mu);
    }
  }

  /** The loop over the exponent's bits below the top one. */
  method PowLoop(h: DigitHeap, tmp: array<Dig>, x: array<Dig>, y: array<Dig>, n: array<Dig>, mu: array<Dig>, k: int)
    requires tmp != n && tmp != mu && tmp != x && tmp != y
    requires n.Length <= x.Length && 2 * x.Length == tmp.Length <= 256
    requires Val(n[..]) != 0 && Val(x[..]) < W(Sig(n[..])) && 0 <= Val(x[..]) && 0 <= Val(y[..])
    requires mu.Length == 2 * Sig(n[..]) + 1 && Val(mu[..]) == W(2 * Sig(n[..])) / Val(n[..])
    requires h.pos + 3 * tmp.Length + 2 * Sig(n[..]) + 22 <= HEAP_SIZE
    requires -1 <= k < 16 * y.Length && (k == -1 <==> Val(y[..]) == 0)
    requires k >= 0 ==> Pow2(k) <= Val(y[..]) < Pow2(k + 1)
    requires Val(tmp[..]) == Val(x[..]) && 0 < Val(n[..]) < W(Sig(n[..]))
    modifies h, tmp
    ensures h.pos == old(h.pos) && Val(tmp[..]) < W(Sig(n[..]))
    ensures Val(tmp[..]) == PowerMod(Val(x[..]), Val(y[..]), Val(n[..]))
  {
    ghost var xv, yv, nv := Val(x[..]), Val(y[..]), Val(n[..]);
    hide Val, W, Pow2, PowerMod;
    PowerStart(xv, yv, nv, k);
    var i := k - 1;
    while i >= 0
      invariant -2 <= i < k && (i == -2 ==> k == -1) && h.pos == old(h.pos)
      invariant x[..] == old(x[..]) && y[..] == old(y[..]) && n[..] == old(n[..]) && mu[..] == old(mu[..])
      invariant Val(tmp[..]) < W(Sig(n[..])) && Val(tmp[..]) == Reached(xv, yv, nv, i + 1)
      invariant i >= -1 ==> yv / Pow2(i + 1) >= 1
    {
      PowBit(h, tmp, x, y, n, mu, i);
      i := i - 1;
    }
  }

  /** Computes x = x^y mod n. */
  method PowMod(h: DigitHeap, x: array<Dig>, y: array<Dig>, n: array<Dig>)
    requires Val(n[..]) != 0 && n.Length <= 2 * Sig(n[..]) + 1
    requires n.Length <= x.Length <= 128 && Val(x[..]) < W(Sig(n[..]))
    requires h.pos + 8 * x.Length + 4 * Sig(n[..]) + 25 <= HEAP_SIZE
    modifies h, x
    ensures h.pos == old(h.pos)
    ensures 0 <= old(Val(x[..])) && 0 <= old(Val(y[..])) && 0 < old(Val(n[..]))
    ensures Val(x[..]) == PowerMod(old(Val(x[..])), old(Val(y[..])), old(Val(n[..])))
  {
    hide Val, W, Pow2, PowerMod;
    ValBound(x[..]);
    ValBound(y[..]);
    ValBound(n[..]);
    SigValue(n[..]);
    WMono(x.Length, 2 * x.Length);
    ModSmall(Val(x[..]), W(2 * x.Length));
    var tmp := h.Alloc(2 * x.Length);
    SetBignum(tmp, x);
    var k := BitMsb(y);
    var mu := ReduceBegin(h, n);
    PowLoop(h, tmp, x, y, n, mu, k);
    WMono(Sig(n[..]), x.Length);
    ValBound(tmp[..]);
    ModSmall(Val(tmp[..]), W(x.Length));
    SetBignum(x, tmp);
    ReduceEnd(h, mu);
    h.Free(tmp);
  }
}
