/** Little-endian numbers: what a vector of 16-bit digits is worth. */
module Digits {
  import opened Arith

  const BASE: nat := 0x1_0000

  /** One digit (an unsigned short). */
  type Dig = d: int | 0 <= d < 0x1_0000

  /** The weight of the digit at index i. */
  function W(i: nat): (r: nat)
    ensures r > 0
  {
    Pow(BASE, i)
  }

  /** The number a digit vector stands for; digits need not be normalised. */
  function Val(s: seq<int>): int
  {
    Sum(s)
  }

  function Sum(s: seq<int>): int
  {
    if s == [] then 0 else Sum(s[..|s| - 1]) + s[|s| - 1] * W(|s| - 1)
  }

  ghost predicate Normal(s: seq<int>) {
    forall i :: 0 <= i < |s| ==> 0 <= s[i] < BASE
  }

  ghost predicate AllZero(s: seq<int>) {
    forall i :: 0 <= i < |s| ==> s[i] == 0
  }

  lemma WStep(i: nat)
    ensures W(i + 1) == BASE * W(i)
  {
  }

  lemma WAdd(i: nat, j: nat)
    ensures W(i + j) == W(i) * W(j)
  {
    PowAdd(BASE, i, j);
  }

  lemma WMono(i: nat, j: nat)
    requires i <= j
    ensures W(i) <= W(j)
  {
    PowMono(BASE, i, j);
  }

  lemma TwoTo16()
    ensures Pow2(16) == BASE
  {
    assert Pow2(8) == 256;
    Pow2Add(8, 8);
  }

  lemma WBits(i: nat)
    ensures W(i) == Pow2(16 * i)
  {
    TwoTo16();
    PowPow(2, 16, i);
  }

  lemma ValStep(s: seq<int>, i: nat)
    requires i < |s|
    ensures Val(s[..i + 1]) == Val(s[..i]) + s[i] * W(i)
  {
    assert s[..i + 1][..i] == s[..i];
  }

  lemma {:induction false} ValUpdate(s: seq<int>, i: nat, d: int)
    requires i < |s|
    ensures Val(s[i := d]) == Val(s) + (d - s[i]) * W(i)
  {
    var n := |s| - 1;
    if i == n {
      assert s[i := d][..n] == s[..n];
    } else {
      assert s[i := d][..n] == s[..n][i := d];
      ValUpdate(s[..n], i, d);
    }
  }

  lemma {:induction false} ValSplit(s: seq<int>, i: nat)
    requires i <= |s|
    ensures Val(s) == Val(s[..i]) + W(i) * Val(s[i..])
  {
    var n := |s| - 1;
    if i == |s| {
      assert s[..i] == s && s[i..] == [];
    } else {
      assert s[..n][..i] == s[..i];
      assert s[..n][i..] == s[i..][..n - i];
      ValSplit(s[..n], i);
      WAdd(i, n - i);
      MulSwap(W(i), s[n], W(n - i));
      MulDist(W(i), Val(s[..n][i..]), s[n] * W(n - i));
    }
  }

  lemma {:induction false} ValBound(s: seq<int>)
    requires Normal(s)
    ensures 0 <= Val(s) < W(|s|)
  {
    if s != [] {
      var n := |s| - 1;
      ValBound(s[..n]);
      MulMono(0, s[n], W(n));
      MulMono(s[n], BASE - 1, W(n));
    }
  }

  lemma {:induction false} ValZero(s: seq<int>)
    requires AllZero(s)
    ensures Val(s) == 0
  {
    if s != [] {
      ValZero(s[..|s| - 1]);
    }
  }

  /** A number below the weight of index i has no digits from i on. */
  lemma {:induction false} ValSmall(s: seq<int>, i: nat)
    requires Normal(s) && i <= |s| && Val(s) < W(i)
    ensures AllZero(s[i..])
  {
    if i < |s| {
      var n := |s| - 1;
      ValBound(s[..n]);
      WMono(i, n);
      if s[n] >= 1 {
        MulMono(1, s[n], W(n));
        assert false;
      }
      ValSmall(s[..n], i);
      assert s[i..] == s[..n][i..] + [0];
    }
  }

  /** The low i digits are the remainder, the others the quotient, by the weight of index i. */
  lemma ValTakeDrop(s: seq<int>, i: nat)
    requires Normal(s) && i <= |s|
    ensures Val(s[..i]) == Val(s) % W(i) && Val(s[i..]) == Val(s) / W(i)
  {
    ValSplit(s, i);
    ValBound(s[..i]);
    SwapMul(W(i), Val(s[i..]));
    DivModUnique(Val(s), W(i), Val(s[i..]), Val(s[..i]));
  }

  lemma ValAppendZeros(s: seq<int>, z: seq<int>)
    requires AllZero(z)
    ensures Val(s + z) == Val(s)
  {
    ValSplit(s + z, |s|);
    assert (s + z)[..|s|] == s && (s + z)[|s|..] == z;
    ValZero(z);
  }

  lemma ValOne(d: int)
    ensures Val([d]) == d
  {
    assert [d][..0] == [];
    ValStep([d], 0);
    assert [d][..1] == [d];
  }

  /** Adding a multiple of 2^16 does not disturb the low sixteen bits. */
  lemma LowBits(d: Dig, h: nat, b: nat)
    requires b < 16
    ensures (d + BASE * h) / Pow2(b) % 2 == d / Pow2(b) % 2
  {
    TwoTo16();
    Pow2Add(b, 16 - b);
    var p, q := Pow2(b), Pow2(15 - b);
    DivModOf(d, p);
    MulAssoc(p, 2 * q, h);
    MulAssoc(2, q, h);
    SwapMul(p, 2 * (q * h));
    SwapDist(d / p, 2 * (q * h), p);
    DivModUnique(d + BASE * h, p, d / p + 2 * (q * h), d % p);
    ModShift(d / p, q * h, 2);
  }

  /** The bit at a position is the bit of the digit that holds it. */
  lemma BitOfDigit(s: seq<int>, slot: nat, b: nat)
    requires Normal(s) && slot < |s| && b < 16
    ensures Val(s) / Pow2(16 * slot + b) % 2 == s[slot] / Pow2(b) % 2
  {
    ValBound(s);
    ValTakeDrop(s, slot);
    WBits(slot);
    Pow2Add(16 * slot, b);
    DivDiv(Val(s), W(slot), Pow2(b));
    HighDigits(s, slot);
    ValBound(s[slot + 1..]);
    LowBits(s[slot], Val(s[slot + 1..]), b);
  }

  lemma HighDigits(s: seq<int>, i: nat)
    requires i < |s|
    ensures Val(s[i..]) == s[i] + BASE * Val(s[i + 1..])
  {
    ValSplit(s[i..], 1);
    assert s[i..][..1] == [s[i]];
    assert s[i..][1..] == s[i + 1..];
    ValOne(s[i]);
    assert W(1) == BASE * W(0);
  }

  /** The digits of s cut off or extended with zeros to length n. */
  function Resized(s: seq<Dig>, n: nat): (r: seq<Dig>)
    ensures |r| == n
  {
    if n <= |s| then s[..n] else s + seq(n - |s|, _ => 0)
  }

  lemma ResizedValue(s: seq<Dig>, n: nat)
    ensures Val(Resized(s, n)) == Val(s) % W(n)
  {
    if n <= |s| {
      ValTakeDrop(s, n);
    } else {
      ValAppendZeros(s, seq(n - |s|, _ => 0));
      ValBound(s);
      WMono(|s|, n);
      ModSmall(Val(s), W(n));
    }
  }

  function Negated(s: seq<int>): (r: seq<int>)
    ensures |r| == |s| && forall i :: 0 <= i < |s| ==> r[i] == -s[i]
  {
    seq(|s|, i requires 0 <= i < |s| => -s[i])
  }

  lemma {:induction false} NegatedValue(s: seq<int>)
    ensures Val(Negated(s)) == -Val(s)
  {
    if s != [] {
      var n := |s| - 1;
      assert Negated(s)[..n] == Negated(s[..n]);
      NegatedValue(s[..n]);
      NegMul(s[n], W(n));
    }
  }
}
