/** Comparison, addition and subtraction of big numbers (double/v_bignum.c.c). */
module BigArith {
  import opened Arith
  import opened Digits
  import opened BigBits

  /** The index of the highest non-zero digit, -1 if there is none. */
  method HighestDigit(x: array<Dig>) returns (i: int)
    ensures IsHighest(x[..], i)
  {
    i := x.Length - 1;
    while i >= 0 && x[i] == 0
      invariant -1 <= i < x.Length && forall k :: i < k < x.Length ==> x[k] == 0
    {
      i := i - 1;
    }
  }

  /** i is the index of the highest non-zero digit of s, or -1. */
  ghost predicate IsHighest(s: seq<Dig>, i: int) {
    -1 <= i < |s| && (i >= 0 ==> s[i] != 0) && forall k :: i < k < |s| ==> s[k] == 0
  }

  /** The comparison of two different vectors. */
  ghost predicate AtLeast(x: seq<Dig>, y: seq<Dig>) {
    Val(x) > Val(y) || (Val(x) == Val(y) && (Val(x) == 0 || |x| >= |y|))
  }

  /** It is right if and only if the numbers are not equal and non-zero with x having fewer digits. */
  lemma AtLeastExact(x: seq<Dig>, y: seq<Dig>)
    ensures (AtLeast(x, y) <==> Val(x) >= Val(y)) <==> !(|x| < |y| && Val(x) == Val(y) != 0)
  {
  }

  /** 1 is not at least 1 if that has a digit more. */
  lemma OneLessThanOne()
    ensures Val([1]) == Val([1, 0]) == 1 && !AtLeast([1], [1, 0])
  {
    WBits(0);
    assert W(0) == 1;
    ValSplit([1, 0], 1);
    ValStep([1], 0);
    ValStep([1, 0], 0);
    ValStep([1, 0], 1);
  }

  /** Returns x >= y, except that equal non-zero numbers count as smaller when x has fewer digits:
      once all digits agree the loop index has run down to the length words, and these are compared. */
  method Gte(x: array<Dig>, y: array<Dig>) returns (r: bool)
    ensures r <==> x == y || AtLeast(x[..], y[..])
  {
    if x == y {
      return true;
    }
    var i := HighestDigit(x);
    var j := HighestDigit(y);
    if i < 0 && j < 0 {
      Leading(x[..], i);
      Leading(y[..], j);
      return true;
    }
    if i < j {
      MoreDigits(x[..], i, y[..], j);
      return false;
    }
    if i > j {
      MoreDigits(y[..], j, x[..], i);
      return true;
    }
    var k := i;
    while k >= 0
      invariant -1 <= k <= i
      invariant forall m :: k < m <= i ==> x[m] == y[m]
    {
      if x[k] < y[k] {
        FirstDifference(x[..], y[..], i, k);
        return false;
      }
      if x[k] > y[k] {
        FirstDifference(y[..], x[..], i, k);
        return true;
      }
      k := k - 1;
    }
    SameDigits(x[..], y[..], i);
    return x.Length >= y.Length;
  }

  /** A number whose highest non-zero digit is at i is its low i + 1 digits and lies in [W(i), W(i + 1)). */
  lemma Leading(s: seq<Dig>, i: int)
    requires IsHighest(s, i)
    ensures Val(s) == Val(s[..i + 1]) < W(i + 1)
    ensures if i >= 0 then W(i) <= Val(s) else Val(s) == 0
  {
    ValSplit(s, i + 1);
    ValZero(s[i + 1..]);
    ZeroMul(W(i + 1));
    hide Val;
    ValBound(s[..i + 1]);
    if i >= 0 {
      ValStep(s, i);
      ValBound(s[..i]);
      MulMono(1, s[i], W(i));
    } else {
      ValZero(s[..0]);
    }
  }

  lemma MoreDigits(s: seq<Dig>, i: int, t: seq<Dig>, j: int)
    requires IsHighest(s, i) && IsHighest(t, j) && i < j
    ensures Val(s) < Val(t)
  {
    Leading(s, i);
    Leading(t, j);
    WMono(i + 1, j);
  }

  lemma SameDigits(s: seq<Dig>, t: seq<Dig>, i: nat)
    requires IsHighest(s, i) && IsHighest(t, i) && forall m :: 0 <= m <= i ==> s[m] == t[m]
    ensures Val(s) == Val(t) != 0
  {
    Leading(s, i);
    Leading(t, i);
    assert s[..i + 1] == t[..i + 1];
  }

  lemma FirstDifference(s: seq<Dig>, t: seq<Dig>, i: nat, k: nat)
    requires IsHighest(s, i) && IsHighest(t, i)
    requires k <= i && s[k] < t[k] && forall m :: k < m <= i ==> s[m] == t[m]
    ensures Val(s) < Val(t)
  {
    Leading(s, i);
    Leading(t, i);
    DecidingDigit(s[..i + 1], t[..i + 1], k);
  }

  lemma DecidingDigit(s: seq<Dig>, t: seq<Dig>, k: nat)
    requires |s| == |t| && k < |s| && s[k] < t[k] && s[k + 1..] == t[k + 1..]
    ensures Val(s) < Val(t)
  {
    ValSplit(s, k + 1);
    ValSplit(t, k + 1);
    ValStep(s, k);
    ValStep(t, k);
    ValBound(s[..k]);
    ValBound(t[..k]);
    var d: int := s[k];
    MulMono(d + 1, t[k], W(k));
    SwapDist(d, 1, W(k));
  }

  /** The state of a carry loop: low is the sum of the digits of xs and ys below index |low|, up to
      a carry into that index. Subtraction is the sum with negated digits and carries. */
  ghost predicate Partial(low: seq<int>, carry: int, xs: seq<int>, ys: seq<int>)
    requires |low| <= |xs| && |low| <= |ys|
  {
    Val(low) + carry * W(|low|) == Val(xs[..|low|]) + Val(ys[..|low|])
  }

  lemma PartialStart(xs: seq<int>, ys: seq<int>)
    ensures Partial([], 0, xs, ys)
  {
  }

  lemma PartialStep(low: seq<int>, carry: int, xs: seq<int>, ys: seq<int>, t: int)
    requires |low| < |xs| == |ys| && Partial(low, carry, xs, ys)
    requires t == xs[|low|] + ys[|low|] + carry
    ensures Partial(low + [t % BASE], t / BASE, xs, ys)
  {
    var i := |low|;
    DigitStep(low, t);
    ValStep(xs, i);
    ValStep(ys, i);
    SwapDist(xs[i] + ys[i], carry, W(i));
    SwapDist(xs[i], ys[i], W(i));
  }

  lemma UntouchedTop(x: seq<int>, i: nat, xs: seq<int>, ys: seq<int>)
    requires i <= |x| == |xs| == |ys|
    requires x[i..] == xs[i..] && AllZero(ys[i..])
    ensures Val(x) - Val(x[..i]) == Val(xs) - Val(xs[..i])
    ensures Val(ys) == Val(ys[..i])
  {
    ValSplit(x, i);
    ValSplit(xs, i);
    ValSplit(ys, i);
    ValZero(ys[i..]);
    ZeroMul(W(i));
  }

  lemma PartialWhole(x: seq<int>, i: nat, carry: int, xs: seq<int>, ys: seq<int>)
    requires i <= |x| == |xs| == |ys|
    requires Partial(x[..i], carry, xs, ys) && x[i..] == xs[i..] && AllZero(ys[i..])
    requires carry == 0 || i == |x|
    ensures Val(x) + carry * W(|x|) == Val(xs) + Val(ys)
  {
    hide W, Val;
    UntouchedTop(x, i, xs, ys);
    if carry == 0 {
      ZeroMul(W(i));
      ZeroMul(W(|x|));
    }
  }

  /** What the digits cut off or missing are worth. */
  function Beyond(s: seq<Dig>, n: nat): int {
    if n <= |s| then Val(s[n..]) else 0
  }

  lemma ResizedParts(s: seq<Dig>, n: nat)
    ensures Val(s) == Val(Resized(s, n)) + Beyond(s, n) * W(n)
  {
    if n <= |s| {
      ValSplit(s, n);
      SwapMul(W(n), Val(s[n..]));
    } else {
      ValAppendZeros(s, seq(n - |s|, _ => 0));
      ZeroMul(W(n));
    }
  }

  lemma AddWhole(x: seq<Dig>, i: nat, carry: int, xs: seq<Dig>, ys: seq<Dig>)
    requires i <= |x| == |xs|
    requires Partial(x[..i], carry, xs, Resized(ys, |x|)) && x[i..] == xs[i..]
    requires (carry == 0 && i >= |ys|) || i == |x|
    ensures Val(x) + carry * W(|x|) == Val(xs) + Val(Resized(ys, |x|))
  {
    hide W, Val, Partial;
    PartialWhole(x, i, carry, xs, Resized(ys, |x|));
  }

  lemma SumRemainder(x: int, carry: int, hi: int, w: int, sum: int)
    requires x + carry * w + hi * w == sum && 0 <= x < w
    ensures x == sum % w
  {
    SwapDist(carry, hi, w);
    DivModUnique(sum, w, carry + hi, x);
  }

  lemma OperandRemainder(x: seq<Dig>, carry: int, v: int, hi: int, ys: int)
    requires Val(x) + carry * W(|x|) == v + (ys - hi * W(|x|))
    ensures Val(x) == (v + ys) % W(|x|)
  {
    ValBound(x);
    SumRemainder(Val(x), carry, hi, W(|x|), v + ys);
  }

  lemma AddDone(x: seq<Dig>, i: nat, carry: int, xs: seq<Dig>, ys: seq<Dig>)
    requires i <= |x| == |xs|
    requires Partial(x[..i], carry, xs, Resized(ys, |x|)) && x[i..] == xs[i..]
    requires (carry == 0 && i >= |ys|) || i == |x|
    ensures Val(x) == (Val(xs) + Val(ys)) % W(|x|)
  {
    hide *;
    AddWhole(x, i, carry, xs, ys);
    ResizedParts(ys, |x|);
    OperandRemainder(x, carry, Val(xs), Beyond(ys, |x|), Val(ys));
  }

  lemma SubWhole(x: seq<Dig>, i: nat, carry: int, xs: seq<Dig>, ys: seq<Dig>)
    requires i <= |x| == |xs|
    requires Partial(x[..i], carry, xs, Negated(Resized(ys, |x|))) && x[i..] == xs[i..]
    requires (carry == 0 && i >= |ys|) || i == |x|
    ensures Val(x) + carry * W(|x|) == Val(xs) - Val(Resized(ys, |x|))
  {
    hide W, Val, Partial;
    PartialWhole(x, i, carry, xs, Negated(Resized(ys, |x|)));
    NegatedValue(Resized(ys, |x|));
  }

  lemma SubDone(x: seq<Dig>, i: nat, carry: int, xs: seq<Dig>, ys: seq<Dig>)
    requires i <= |x| == |xs|
    requires Partial(x[..i], carry, xs, Negated(Resized(ys, |x|))) && x[i..] == xs[i..]
    requires (carry == 0 && i >= |ys|) || i == |x|
    ensures Val(x) == (Val(xs) - Val(ys)) % W(|x|)
  {
    hide *;
    SubWhole(x, i, carry, xs, ys);
    ResizedParts(ys, |x|);
    NegMul(Beyond(ys, |x|), W(|x|));
    OperandRemainder(x, carry, Val(xs), -Beyond(ys, |x|), -Val(ys));
  }

  lemma CarryOf(t: int)
    requires 0 <= t < 0x2_0000
    ensures (if t > BASE - 1 then 1 else 0) == t / BASE
  {
  }

  /** The second loop of an addition: the carry runs up through the digits y does not have. */
  method RippleCarry(x: array<Dig>, start: nat, carryIn: int, ghost xs: seq<Dig>, ghost ys: seq<int>)
    returns (i: nat, carry: int)
    requires start <= x.Length == |xs| == |ys| && 0 <= carryIn <= 1 && AllZero(ys[start..])
    requires x[start..] == xs[start..] && Partial(x[..start], carryIn, xs, ys)
    modifies x
    ensures start <= i <= x.Length && x[i..] == xs[i..] && (carry == 0 || i == x.Length)
    ensures Partial(x[..i], carry, xs, ys)
  {
    hide Partial, Val, W;
    i, carry := start, carryIn;
    while carry != 0 && i < x.Length
      invariant start <= i <= x.Length && 0 <= carry <= 1
      invariant x[i..] == xs[i..]
      invariant Partial(x[..i], carry, xs, ys)
    {
      var t := x[i] as int + carry;
      ghost var low := x[..i];
      PartialStep(low, carry, xs, ys, t);
      CarryOf(t);
      x[i] := t % BASE;
      carry := if t > BASE - 1 then 1 else 0;
      i := i + 1;
      assert x[..i] == low + [t % BASE];
    }
  }

  /** Computes x += y, dropping the carry out of x's top digit. */
  method Add(x: array<Dig>, y: array<Dig>)
    modifies x
    ensures Val(x[..]) == old(Val(x[..]) + Val(y[..])) % W(x.Length)
  {
    hide Partial, Val, W;
    ghost var xs, ys, ysn := x[..], y[..], Resized(y[..], x.Length);
    var s := if x.Length < y.Length then x.Length else y.Length;
    var i, carry := 0, 0;
    PartialStart(xs, ysn);
    while i < s
      invariant 0 <= i <= s && 0 <= carry <= 1
      invariant x[i..] == xs[i..] && y[i..] == ys[i..]
      invariant Partial(x[..i], carry, xs, ysn)
    {
      var t := x[i] as int + y[i] as int + carry;
      ghost var low := x[..i];
      PartialStep(low, carry, xs, ysn, t);
      CarryOf(t);
      x[i] := t % BASE;
      carry := if t > BASE - 1 then 1 else 0;
      i := i + 1;
      assert x[..i] == low + [t % BASE];
    }
    i, carry := RippleCarry(x, s, carry, xs, ysn);
    AddDone(x[..], i, carry, xs, ys);
  }

  /** The borrow out of a digit difference, as the unsigned 32-bit word shows it. */
  lemma BorrowOf(d: int)
    requires -0x1_0000 <= d < 0x1_0000
    ensures var t := d % 0x1_0000_0000;
            t % BASE == d % BASE && (if t > BASE - 1 then 1 else 0) == -(d / BASE)
  {
  }

  /** The second loop of a subtraction: the borrow runs up through the digits y does not have. */
  method RippleBorrow(x: array<Dig>, start: nat, carryIn: int, ghost xs: seq<Dig>, ghost ys: seq<int>)
    returns (i: nat, carry: int)
    requires start <= x.Length == |xs| == |ys| && 0 <= carryIn <= 1 && AllZero(ys[start..])
    requires x[start..] == xs[start..] && Partial(x[..start], -carryIn, xs, ys)
    modifies x
    ensures start <= i <= x.Length && x[i..] == xs[i..] && (carry == 0 || i == x.Length)
    ensures Partial(x[..i], -carry, xs, ys)
  {
    hide Partial, Val, W;
    i, carry := start, carryIn;
    while carry != 0 && i < x.Length
      invariant start <= i <= x.Length && 0 <= carry <= 1
      invariant x[i..] == xs[i..]
      invariant Partial(x[..i], -carry, xs, ys)
    {
      var t := (x[i] as int - carry) % 0x1_0000_0000;
      ghost var low, exact := x[..i], x[i] as int - carry;
      PartialStep(low, -carry, xs, ys, exact);
      BorrowOf(exact);
      x[i] := t % BASE;
      carry := if t > BASE - 1 then 1 else 0;
      i := i + 1;
      assert x[..i] == low + [exact % BASE];
    }
  }

  /** Computes x -= y, modulo x's size. */
  method Sub(x: array<Dig>, y: array<Dig>)
    modifies x
    ensures Val(x[..]) == old(Val(x[..]) - Val(y[..])) % W(x.Length)
  {
    hide Partial, Val, W;
    if x == y {
      SetZero(x);
      ModSmall(0, W(x.Length));
      return;
    }
    ghost var xs, ys, ysn := x[..], y[..], Negated(Resized(y[..], x.Length));
    var s := if x.Length < y.Length then x.Length else y.Length;
    var i, carry := 0, 0;
    PartialStart(xs, ysn);
    while i < s
      invariant 0 <= i <= s && 0 <= carry <= 1
      invariant x[i..] == xs[i..] && y[..] == ys
      invariant Partial(x[..i], -carry, xs, ysn)
    {
      var t := (x[i] as int - y[i] as int - carry) % 0x1_0000_0000;
      ghost var low, exact := x[..i], x[i] as int - y[i] as int - carry;
      PartialStep(low, -carry, xs, ysn, exact);
      BorrowOf(exact);
      x[i] := t % BASE;
      carry := if t > BASE - 1 then 1 else 0;
      i := i + 1;
      assert x[..i] == low + [exact % BASE];
    }
    i, carry := RippleBorrow(x, s, carry, xs, ysn);
    SubDone(x[..], i, -carry, xs, ys);
  }
}
