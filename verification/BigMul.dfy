/** Schoolbook multiplication of big numbers, truncated to the first operand (double/v_bignum.c.c). */
module BigMul {
  import opened Arith
  import opened Digits
  import opened BigBits

  /** The state of a row: the n low digits of w, a carry c into index p and multiples q of W(n) that
      were pushed out of the result make up the part of the product computed so far. */
  ghost predicate Row(low: seq<int>, c: int, p: nat, q: int, target: int) {
    Val(low) + c * W(p) + q * W(|low|) == target
  }

  /** A product of two digits, a digit of w and a carry still fit 32 bits, and their carry a digit. */
  lemma FitsWord(w: Dig, a: Dig, b: Dig, c: Dig)
    ensures 0 <= w + a * b + c < 0x1_0000_0000
    ensures (w + a * b + c) / BASE < BASE
  {
    MulMono(0, a, b);
    MulMono(a, 0xFFFF, b);
    MulMono(b, 0xFFFF, 0xFFFF);
  }

  lemma RowInside(low: seq<int>, c: int, p: nat, q: int, target: int, prod: int)
    requires p < |low| && Row(low, c, p, q, target)
    ensures var uv := low[p] + prod + c;
            Row(low[p := uv % BASE], uv / BASE, p + 1, q, target + prod * W(p))
  {
    var uv := low[p] + prod + c;
    ValUpdate(low, p, uv % BASE);
    WStep(p);
    hide Val, W;
    HalvesOf(uv, W(p));
    SwapDist(uv % BASE, -low[p], W(p));
    NegMul(low[p], W(p));
    SwapDist(low[p] + prod, c, W(p));
    SwapDist(low[p], prod, W(p));
  }

  lemma RowOutside(low: seq<int>, c: int, p: nat, q: int, target: int, prod: int, c': int) returns (q': int)
    requires p >= |low| && Row(low, c, p, q, target)
    ensures Row(low, c', p + 1, q', target + prod * W(p))
  {
    var n := |low|;
    WStep(p);
    WAdd(p - n, n);
    hide Val, W;
    var k := prod - c' * BASE + c;
    MulAssoc(k, W(p - n), W(n));
    SwapDist(q, k * W(p - n), W(n));
    MulAssoc(c', BASE, W(p));
    SwapDist(prod - c' * BASE, c, W(p));
    SwapDist(prod, -(c' * BASE), W(p));
    NegMul(c' * BASE, W(p));
    q' := q + k * W(p - n);
  }

  /** The carry left at the end of a row has a weight beyond the result. */
  lemma RowEnd(low: seq<int>, c: int, i: nat, q: int, target: int) returns (q': int)
    requires Row(low, c, i + |low|, q, target)
    ensures Row(low, 0, 0, q', target)
  {
    WAdd(i, |low|);
    hide Val, W;
    MulAssoc(c, W(i), W(|low|));
    SwapDist(q, c * W(i), W(|low|));
    ZeroMul(W(0));
    q' := q + c * W(i);
  }

  /** What the rows below i and the first j steps of row i have to add up to. */
  function Target(xs: seq<int>, ys: seq<int>, i: nat, j: nat): int
    requires i < |ys| && j <= |xs|
  {
    Val(xs) * Val(ys[..i]) + Val(xs[..j]) * (ys[i] * W(i))
  }

  lemma TargetStep(xs: seq<int>, ys: seq<int>, i: nat, j: nat)
    requires i < |ys| && j < |xs|
    ensures Target(xs, ys, i, j + 1) == Target(xs, ys, i, j) + xs[j] * ys[i] * W(i + j)
  {
    ValStep(xs, j);
    WAdd(i, j);
    hide Val, W;
    SwapDist(Val(xs[..j]), xs[j] * W(j), ys[i] * W(i));
    assert (xs[j] * W(j)) * (ys[i] * W(i)) == xs[j] * ys[i] * (W(i) * W(j)) by {
      Regroup(xs[j], W(j), ys[i], W(i));
    }
  }

  lemma Regroup(a: int, b: int, c: int, d: int)
    ensures (a * b) * (c * d) == a * c * (d * b)
  {
    MulAssoc(a, b, c * d);
    MulSwap(b, c, d);
    MulAssoc(a, c, b * d);
    SwapMul(b, d);
  }

  lemma TargetRow(xs: seq<int>, ys: seq<int>, i: nat)
    requires i < |ys|
    ensures Target(xs, ys, i, 0) == Val(xs) * Val(ys[..i])
    ensures Target(xs, ys, i, |xs|) == Val(xs) * Val(ys[..i + 1])
  {
    ValStep(ys, i);
    assert xs[..|xs|] == xs && xs[..0] == [];
    ZeroMul(ys[i] * W(i));
    MulDist(Val(xs), Val(ys[..i]), ys[i] * W(i));
  }

  lemma ProductDone(low: seq<int>, q: int, target: int)
    requires Normal(low) && Row(low, 0, 0, q, target)
    ensures Val(low) == target % W(|low|)
  {
    ZeroMul(W(0));
    ValBound(low);
    DivModUnique(target, W(|low|), q, Val(low));
  }

  /** One row of the product: x times digit i of y is added to w at index i. The carry out of the row is
      stored one slot above its place, where it can no longer reach the n low digits. */
  method MulRow(x: array<Dig>, y: array<Dig>, w: array<Dig>, i: nat, ghost q0: int)
    returns (ghost q: int)
    requires i < y.Length && x.Length + y.Length + 1 <= w.Length && w != x && w != y
    requires Row(w[..x.Length], 0, 0, q0, Val(x[..]) * Val(y[..i]))
    modifies w
    ensures Row(w[..x.Length], 0, 0, q, Val(x[..]) * Val(y[..i + 1]))
  {
    hide Row, Val, W, Target;
    var n, j, c: Dig, uv := x.Length, 0, 0, 0;
    ghost var xs, ys := x[..], y[..];
    assert ys[..i] == y[..i] && ys[..i + 1] == y[..i + 1];
    TargetRow(xs, ys, i);
    RowBegin(w[..n], i, q0, Target(xs, ys, i, 0));
    q := q0;
    while j < n
      invariant 0 <= j <= n && x[..] == xs && y[..] == ys
      invariant 0 <= uv && c == uv / BASE < BASE
      invariant Row(w[..n], c, i + j, q, Target(xs, ys, i, j))
    {
      ghost var low: seq<int>, prod: int := w[..n], x[j] as int * y[i];
      FitsWord(w[i + j], x[j], y[i], c);
      TargetStep(xs, ys, i, j);
      uv := w[i + j] as int + x[j] as int * y[i] + c;
      if i + j < n {
        RowInside(low, c, i + j, q, Target(xs, ys, i, j), prod);
      } else {
        q := RowOutside(low, c, i + j, q, Target(xs, ys, i, j), prod, uv / BASE);
      }
      w[i + j] := uv % BASE;
      c := uv / BASE;
      assert w[..n] == if i + j < n then low[i + j := uv % BASE] else low;
      j := j + 1;
    }
    ghost var low: seq<int> := w[..n];
    w[i + n + 1] := uv / BASE;
    assert w[..n] == low;
    q := RowEnd(low, c, i, q, Target(xs, ys, i, n));
  }

  lemma RowBegin(low: seq<int>, i: nat, q: int, target: int)
    requires Row(low, 0, 0, q, target)
    ensures Row(low, 0, i, q, target)
  {
    ZeroMul(W(0));
    ZeroMul(W(i));
  }

  /** Computes x *= y, truncating the product to x's digits. */
  method Mul(x: array<Dig>, y: array<Dig>)
    requires x.Length + y.Length + 1 <= 2048
    modifies x
    ensures Val(x[..]) == old(Val(x[..]) * Val(y[..])) % W(x.Length)
  {
    hide Row, Val, W;
    var n, t := x.Length, y.Length;
    ghost var xs, ys, q := x[..], y[..], 0;
    var w := new Dig[2048];
    forall k | 0 <= k < n + t + 1 {
      w[k] := 0;
    }
    RowZero(w[..n], Val(xs), ys);
    var i := 0;
    while i < t
      invariant 0 <= i <= t && x[..] == xs && y[..] == ys
      invariant Row(w[..n], 0, 0, q, Val(xs) * Val(ys[..i]))
    {
      assert ys[..i] == y[..i] && ys[..i + 1] == y[..i + 1];
      q := MulRow(x, y, w, i, q);
      i := i + 1;
    }
    assert ys[..t] == ys;
    ghost var low := w[..n];
    ProductDone(low, q, Val(xs) * Val(ys));
    i := 0;
    while i < n
      invariant 0 <= i <= n && w[..n] == low && x[..i] == w[..i]
    {
      x[i] := w[i];
      i := i + 1;
    }
    assert x[..] == x[..n] == w[..n];
  }

  lemma RowZero(low: seq<int>, v: int, ys: seq<int>)
    requires AllZero(low)
    ensures Row(low, 0, 0, 0, v * Val(ys[..0]))
  {
    ValZero(low);
    ZeroMul(W(0));
    ZeroMul(W(|low|));
    ZeroMul(v);
  }
}
