/** Assignment, bit access and shifts of big numbers (double/v_bignum.c.c).
    The length word in front of the digits is the array's Length. */
module BigBits {
  import opened Arith
  import opened Digits

  /** Assigns x = 0. */
  method SetZero(x: array<Dig>)
    modifies x
    ensures AllZero(x[..]) && Val(x[..]) == 0
  {
    forall i | 0 <= i < x.Length {
      x[i] := 0;
    }
    ValZero(x[..]);
  }

  /** Assigns x = y, cutting off the digits that do not fit and clearing those y does not have. */
  method SetBignum(x: array<Dig>, y: array<Dig>)
    modifies x
    ensures x[..] == old(Resized(y[..], x.Length))
    ensures Val(x[..]) == old(Val(y[..])) % W(x.Length)
  {
    var s := if y.Length > x.Length then x.Length else y.Length;
    ghost var ys := y[..];
    var i := 0;
    while i < s
      invariant 0 <= i <= s
      invariant y[i..] == ys[i..]
      invariant x[..i] == ys[..i]
    {
      x[i] := y[i];
      i := i + 1;
    }
    while i < x.Length
      invariant s <= i <= x.Length
      invariant x[..s] == ys[..s]
      invariant AllZero(x[s..i])
    {
      x[i] := 0;
      i := i + 1;
    }
    assert x[..] == x[..s] + x[s..i];
    ResizedValue(ys, x.Length);
  }

  /** Whether a bit of x is set; bits beyond the vector are clear. */
  predicate BitTest(x: array<Dig>, bit: nat): (r: bool)
    reads x
    ensures r <==> Val(x[..]) / Pow2(bit) % 2 == 1
  {
    var slot, b := bit / 16, bit % 16;
    BitTestValue(x[..], bit);
    slot < x.Length && x[slot] / Pow2(b) % 2 == 1
  }

  lemma BitTestValue(s: seq<Dig>, bit: nat)
    ensures Val(s) / Pow2(bit) % 2 == 1
       <==> bit / 16 < |s| && s[bit / 16] / Pow2(bit % 16) % 2 == 1
  {
    if bit / 16 < |s| {
      BitOfDigit(s, bit / 16, bit % 16);
    } else {
      ValBound(s);
      WBits(|s|);
      Pow2Mono(16 * |s|, bit);
      ModSmall(Val(s), Pow2(bit));
    }
  }

  /** The number y with one bit set, when that bit exists in n digits. */
  function WithBit(y: nat, bit: nat, n: nat): nat {
    if bit >= 16 * n || y / Pow2(bit) % 2 == 1 then y else y + Pow2(bit)
  }

  /** Computes x |= 1 << bit; bits beyond the vector are ignored. */
  method BitSet(x: array<Dig>, bit: nat)
    requires 0 <= Val(x[..])
    modifies x
    ensures Val(x[..]) == WithBit(old(Val(x[..])), bit, x.Length)
  {
    if bit >= x.Length * 16 {
      return;
    }
    var slot, m := bit / 16, Pow2(bit % 16);
    ghost var xs := x[..];
    OrFits(x[slot], bit % 16);
    x[slot] := BitOr(x[slot], m);
    assert x[..] == xs[slot := x[slot]];
    OrDigit(xs, bit);
  }

  /** Setting a bit of a digit sets that bit of the number. */
  lemma OrDigit(s: seq<int>, bit: nat)
    requires Normal(s) && bit < 16 * |s| && 0 <= Val(s)
    ensures var slot := bit / 16;
            Val(s[slot := BitOr(s[slot], Pow2(bit % 16))]) == WithBit(Val(s), bit, |s|)
  {
    var slot, b := bit / 16, bit % 16;
    BitTestValue(s, bit);
    OrBit(s[slot], b);
    ValUpdate(s, slot, BitOr(s[slot], Pow2(b)));
    hide Val;
    WBits(slot);
    Pow2Add(16 * slot, b);
    SwapMul(W(slot), Pow2(b));
    ZeroMul(W(slot));
  }

  /** Computes x[1] |= 1, the lowest digit with its lowest bit set. */
  method SetLowBit(x: array<Dig>)
    requires x.Length > 0 && Val(x[..]) % 2 == 0
    modifies x
    ensures Val(x[..]) == old(Val(x[..])) + 1
  {
    ghost var xs := x[..];
    OrFits(x[0], 0);
    x[0] := BitOr(x[0], 1);
    assert x[..] == xs[0 := x[0]];
    ValBound(xs);
    OrDigit(xs, 0);
  }

  lemma OrFits(d: Dig, b: nat)
    requires b < 16
    ensures BitOr(d, Pow2(b)) < BASE
  {
    TwoTo16();
    Pow2Step(b);
    Pow2Mono(b + 1, 16);
    OrBound(d, Pow2(b), 16);
  }

  /** The index of the most significant set bit of a digit, -1 for zero. */
  method TopBit(d: Dig) returns (r: int)
    ensures d == 0 ==> r == -1
    ensures d != 0 ==> 0 <= r < 16 && Pow2(r) <= d < Pow2(r + 1)
  {
    var mask := 0x8000;
    r := 15;
    TwoTo16();
    while mask != 0
      invariant -1 <= r < 16 && d < Pow2(r + 1)
      invariant mask == if r == -1 then 0 else Pow2(r)
    {
      NextBit(d, r);
      if d / mask % 2 == 1 {
        return;
      }
      mask := mask / 2;
      r := r - 1;
    }
  }

  lemma NextBit(d: nat, r: nat)
    requires d < Pow2(r + 1)
    ensures d / Pow2(r) % 2 == 1 <==> Pow2(r) <= d
    ensures Pow2(r) / 2 == if r == 0 then 0 else Pow2(r - 1)
  {
    if d >= Pow2(r) {
      DivModUnique(d, Pow2(r), 1, d - Pow2(r));
    } else {
      ModSmall(d, Pow2(r));
    }
  }

  /** The index of the most significant set bit of x, -1 when x is zero. */
  method BitMsb(x: array<Dig>) returns (r: int)
    ensures -1 <= r < 16 * x.Length
    ensures r == -1 <==> Val(x[..]) == 0
    ensures r >= 0 ==> Pow2(r) <= Val(x[..]) < Pow2(r + 1)
  {
    var i := x.Length - 1;
    while i >= 0
      invariant -1 <= i < x.Length
      invariant AllZero(x[i + 1..])
    {
      if x[i] != 0 {
        var b := TopBit(x[i]);
        r := 16 * i + b;
        TopDigit(x[..], i, b);
        return;
      }
      i := i - 1;
    }
    assert x[0..] == x[..];
    ValZero(x[..]);
    r := -1;
  }

  /** A top digit with top bit b at index i puts the number in [2^(16i+b), 2^(16i+b+1)). */
  lemma TopDigit(s: seq<Dig>, i: nat, b: nat)
    requires i < |s| && AllZero(s[i + 1..]) && Pow2(b) <= s[i] < Pow2(b + 1)
    ensures Pow2(16 * i + b) <= Val(s) < Pow2(16 * i + b + 1)
  {
    assert s == s[..i + 1] + s[i + 1..];
    ValAppendZeros(s[..i + 1], s[i + 1..]);
    ValStep(s, i);
    ValBound(s[..i]);
    WBits(i);
    Pow2Add(b, 16 * i);
    Pow2Add(b + 1, 16 * i);
    MulMono(Pow2(b), s[i], W(i));
    var d: int := s[i];
    MulMono(d + 1, Pow2(b + 1), W(i));
    SwapDist(d, 1, W(i));
  }

  /** Performs x <<= 1, dropping the bit shifted out. */
  method ShiftLeft1(x: array<Dig>)
    modifies x
    ensures Val(x[..]) == (2 * old(Val(x[..]))) % W(x.Length)
  {
    ghost var xs := x[..];
    var i, carry := 0, 0;
    while i < x.Length
      invariant 0 <= i <= x.Length && 0 <= carry <= 1
      invariant x[i..] == xs[i..]
      invariant Val(x[..i]) + carry * W(i) == 2 * Val(xs[..i])
    {
      var d: int := x[i];
      OrDisjoint(2 * d, carry, 1);
      var t := BitOr(2 * d, carry);
      ghost var before := x[..i];
      x[i] := t % BASE;
      assert x[..i + 1] == before + [t % BASE];
      DigitStep(before, t);
      DoubleStep(xs, i, carry);
      carry := t / BASE;
      i := i + 1;
    }
    assert x[..x.Length] == x[..] && xs[..x.Length] == xs;
    CutOff(x[..], 2 * Val(xs), carry);
  }

  /** Storing the low half of t at index |s| and carrying the high half loses nothing. */
  lemma DigitStep(s: seq<int>, t: int)
    ensures Val(s + [t % BASE]) + t / BASE * W(|s| + 1) == Val(s) + t * W(|s|)
  {
    assert (s + [t % BASE])[..|s|] == s;
    WStep(|s|);
    HalvesOf(t, W(|s|));
  }

  lemma HalvesOf(t: int, w: int)
    ensures t * w == t % BASE * w + t / BASE * (BASE * w)
  {
    MulAssoc(t / BASE, BASE, w);
    SwapDist(t % BASE, t / BASE * BASE, w);
  }

  lemma DoubleStep(s: seq<int>, i: nat, carry: int)
    requires i < |s|
    ensures 2 * Val(s[..i]) + (2 * s[i] + carry) * W(i) == 2 * Val(s[..i + 1]) + carry * W(i)
  {
    ValStep(s, i);
    SwapDist(2 * s[i], carry, W(i));
    MulAssoc(2, s[i], W(i));
  }

  /** A sum that ends with a carry out of the top leaves its value modulo the vector's size. */
  lemma CutOff(x: seq<Dig>, v: int, carry: int)
    requires Val(x) + carry * W(|x|) == v
    ensures Val(x) == v % W(|x|)
  {
    ValBound(x);
    DivModUnique(v, W(|x|), carry, Val(x));
  }

  lemma DroppedDigits(x: seq<Dig>, xs: seq<Dig>, places: nat, bits: nat)
    requires places <= |x| == |xs| && x[..|x| - places] == xs[places..] && AllZero(x[|x| - places..])
    ensures Val(x) / Pow2(bits) == Val(xs) / Pow2(16 * places + bits)
  {
    assert x == xs[places..] + x[|x| - places..];
    ValAppendZeros(xs[places..], x[|x| - places..]);
    ValTakeDrop(xs, places);
    ValBound(xs);
    hide Val;
    WBits(places);
    Pow2Add(16 * places, bits);
    DivDiv(Val(xs), W(places), Pow2(bits));
  }

  /** The part of x >>= count that moves whole digits. */
  method ShiftRightDigits(x: array<Dig>, places: nat)
    requires places <= x.Length
    modifies x
    ensures x[..x.Length - places] == old(x[places..]) && AllZero(x[x.Length - places..])
  {
    var i := 0;
    while i < x.Length - places
      invariant 0 <= i <= x.Length - places
      invariant forall k :: 0 <= k < i ==> x[k] == old(x[k + places])
      invariant forall k :: i <= k < x.Length ==> x[k] == old(x[k])
    {
      x[i] := x[i + places];
      i := i + 1;
    }
    while i < x.Length
      invariant x.Length - places <= i <= x.Length
      invariant forall k :: 0 <= k < x.Length - places ==> x[k] == old(x[k + places])
      invariant forall k :: x.Length - places <= k < i ==> x[k] == 0
    {
      x[i] := 0;
      i := i + 1;
    }
  }

  lemma AllShiftedOut(x: seq<Dig>, count: nat)
    requires count / 16 > |x|
    ensures Val(x) / Pow2(count) == 0
  {
    ValBound(x);
    WBits(|x|);
    Pow2Mono(16 * |x|, count);
    ModSmall(Val(x), Pow2(count));
  }

  /** Performs x >>= count. */
  method ShiftRight(x: array<Dig>, count: nat)
    modifies x
    ensures Val(x[..]) == old(Val(x[..])) / Pow2(count)
  {
    hide Val;
    ghost var xs := x[..];
    var places, bits := count / 16, count % 16;
    if places > x.Length {
      SetZero(x);
      AllShiftedOut(xs, count);
      return;
    }
    ShiftRightDigits(x, places);
    DroppedDigits(x[..], xs, places, bits);
    ShiftRightBits(x, bits);
  }

  /** The right shift's t: the digit's bits with those spilled from above in front of them. */
  lemma SpillOr(d: Dig, count: nat, spill: nat)
    requires count < 16
    ensures BitOr(Shr(d * BASE, count), Pow2(16 - count) * spill * BASE)
         == Pow2(16 - count) * (d + spill * BASE)
  {
    var p, q := Pow2(count), Pow2(16 - count);
    TwoTo16();
    Pow2Add(count, 16 - count);
    assert d * BASE == (q * d) * p + 0 by { MulAssoc(d, q, p); SwapMul(d, q); SwapMul(p, q); }
    DivModUnique(d * BASE, p, q * d, 0);
    // the carry starts above bit 32 - count, where the digit ends
    Pow2Add(16, 16 - count);
    var carry := q * spill * BASE;
    assert carry == spill * (BASE * q) by { SwapMul(q, spill); MulAssoc(spill, q, BASE); }
    MulMono(0, spill, BASE * q);
    DivModUnique(carry, BASE * q, spill, 0);
    MulMono(0, d, q);
    MulMonoStrict(d, BASE, q);
    SwapMul(q, d);
    OrDisjoint(carry, q * d, 32 - count);
    OrComm(q * d, carry);
    MulAssoc(q, spill, BASE);
    MulDist(q, d, spill * BASE);
  }

  lemma SpillSplit(v: nat, p: nat, q: nat)
    requires p > 0 && q > 0 && p * q == BASE
    ensures q * v / BASE == v / p && q * v % BASE == q * (v % p)
  {
    var e, r := v / p, v % p;
    DivModOf(v, p);
    assert q * v == e * BASE + q * r by {
      MulDist(q, e * p, r);
      MulSwap(q, e, p);
      SwapMul(q, p);
    }
    MulMono(0, r, q);
    MulMonoStrict(r, p, q);
    SwapMul(q, r);
    DivModUnique(q * v, BASE, e, q * r);
  }

  /** One step of the right shift: t holds the digit's quotient above and the bits it spills below. */
  lemma SpillStep(d: Dig, count: nat, spill: nat)
    requires count < 16 && spill < Pow2(count)
    ensures var p, q, v := Pow2(count), Pow2(16 - count), d + spill * BASE;
            var t := BitOr(Shr(d * BASE, count), q * spill * BASE);
            t / BASE == v / p < BASE && t % BASE == q * (v % p)
  {
    var p, q, v := Pow2(count), Pow2(16 - count), d + spill * BASE;
    TwoTo16();
    Pow2Add(count, 16 - count);
    SpillOr(d, count, spill);
    SpillSplit(v, p, q);
    SwapMul(p, BASE);
    DivBound(v, p, BASE);
  }

  lemma SpillValue(d: int, p: nat, spill: int, e: int, v: int)
    requires p > 0 && e == (d + spill * BASE) / p
    ensures d + BASE * (p * v + spill) == p * (e + BASE * v) + (d + spill * BASE) % p
  {
    DivModOf(d + spill * BASE, p);
    MulDist(p, e, BASE * v);
    MulSwap(p, BASE, v);
    SwapMul(p, e);
  }

  /** The state of the right shift: s has become done, with spill left over for the digit below. */
  ghost predicate Shifting(done: seq<int>, s: seq<int>, count: nat, spill: nat, carry: nat)
    requires count < 16
  {
    && spill < Pow2(count)
    && carry == Pow2(16 - count) * spill * BASE
    && Val(s) == Pow2(count) * Val(done) + spill
  }

  lemma ShiftStart(count: nat)
    requires count < 16
    ensures Shifting([], [], count, 0, 0)
  {
  }

  lemma ShiftStep(done: seq<int>, s: seq<Dig>, i: nat, count: nat, spill: nat, carry: nat)
    requires i < |s| && count < 16 && Shifting(done, s[i + 1..], count, spill, carry)
    ensures var t := BitOr(Shr(s[i] * BASE, count), carry);
            && t / BASE < BASE
            && exists spill': nat ::
                 Shifting([t / BASE] + done, s[i..], count, spill', t % BASE * BASE)
  {
    var t := BitOr(Shr(s[i] * BASE, count), carry);
    var v := s[i] + spill * BASE;
    DivModOf(v, Pow2(count));
    SpillStep(s[i], count, spill);
    HighDigits(s, i);
    assert ([t / BASE] + done)[1..] == done;
    HighDigits([t / BASE] + done, 0);
    assert ([t / BASE] + done)[0..] == [t / BASE] + done;
    SpillValue(s[i], Pow2(count), spill, t / BASE, Val(done));
    assert Shifting([t / BASE] + done, s[i..], count, v % Pow2(count), t % BASE * BASE);
  }

  lemma ShiftDone(x: seq<int>, s: seq<int>, count: nat, spill: nat, carry: nat)
    requires count < 16 && Shifting(x, s, count, spill, carry)
    ensures Val(x) == Val(s) / Pow2(count)
  {
    SwapMul(Pow2(count), Val(x));
    DivModUnique(Val(s), Pow2(count), Val(x), spill);
  }

  /** The part of x >>= count that moves fewer than sixteen places. */
  method ShiftRightBits(x: array<Dig>, count: nat)
    requires count < 16
    modifies x
    ensures Val(x[..]) == old(Val(x[..])) / Pow2(count)
  {
    hide Shifting, Val;
    ghost var xs, spill: nat := x[..], 0;
    var i, carry: nat := x.Length, 0;
    ShiftStart(count);
    assert x[i..] == [] && xs[i..] == [];
    while i > 0
      invariant 0 <= i <= x.Length
      invariant x[..i] == xs[..i]
      invariant Shifting(x[i..], xs[i..], count, spill, carry)
      decreases i
    {
      i := i - 1;
      ghost var done := x[i + 1..];
      ShiftStep(done, xs, i, count, spill, carry);
      var t := BitOr(Shr(x[i] * BASE, count), carry);
      carry := t % BASE * BASE;
      spill :| Shifting([t / BASE] + done, xs[i..], count, spill, carry);
      x[i] := t / BASE;
      assert x[i..] == [t / BASE] + done;
    }
    assert x[0..] == x[..] && xs[0..] == xs;
    ShiftDone(x[..], xs, count, spill, carry);
  }

  lemma ModBit(h: nat, i: nat)
    ensures h % Pow2(i + 1) == h % Pow2(i) + (if h / Pow2(i) % 2 == 1 then Pow2(i) else 0)
  {
    var p := Pow2(i);
    var q, r := h / p, h % p;
    DivModOf(h, p);
    DivNat(h, p);
    SwapDist(q / 2 * 2, q % 2, p);
    MulAssoc(q / 2, 2, p);
    DivModUnique(h, 2 * p, q / 2, q % 2 * p + r);
  }

  /** How many of the bits asked for fit into n digits. */
  function Fitting(bits: nat, n: nat): nat {
    if bits < 16 * n then bits else 16 * n
  }

  /** The bits of v from msb down, right-adjusted; if more are asked for than there are, zeros follow them. */
  function PartOf(v: nat, msb: nat, bits: nat): (r: nat)
  {
    if bits <= msb + 1 then Shr(v, msb + 1 - bits) else ScaledNat(v, bits - (msb + 1)); v * Pow2(bits - (msb + 1))
  }

  lemma ScaledNat(v: nat, s: nat)
    ensures v * Pow2(s) >= 0
  {
  }

  /** The bits of a number with s zeros behind it. */
  lemma ScaledBit(v: nat, s: nat, i: nat)
    ensures v * Pow2(s) / Pow2(i) % 2 == if i < s then 0 else v / Pow2(i - s) % 2
  {
    if i < s {
      Pow2Add(s - i, i);
      Pow2Step(s - i - 1);
      var p, h := Pow2(i), Pow2(s - i - 1);
      MulAssoc(v, 2 * h, p);
      DivModUnique(v * (2 * h) * p, p, v * (2 * h), 0);
      MulSwap(v, 2, h);
      DivModUnique(2 * (v * h), 2, v * h, 0);
    } else {
      Pow2Add(s, i - s);
      ScaledNat(v, s);
      DivDiv(v * Pow2(s), Pow2(s), Pow2(i - s));
      DivModUnique(v * Pow2(s), Pow2(s), v, 0);
    }
  }

  /** The bit read for bit i of the part, with an index below zero wrapped to one beyond every number. */
  lemma PartBit(s: seq<Dig>, msb: nat, bits: nat, i: nat)
    requires i < bits && Val(s) >= 0 && msb < 0x1_0000_0000
    requires bits > msb + 1 ==> bits - (msb + 1) <= 0x8000_0000 && 16 * |s| <= 0x8000_0000
    ensures var bit := (msb + 1 - bits + i) % 0x1_0000_0000;
            Val(s) / Pow2(bit) % 2 == 1 <==> PartOf(Val(s), msb, bits) / Pow2(i) % 2 == 1
  {
    var v := Val(s);
    if bits <= msb + 1 {
      Pow2Add(msb + 1 - bits, i);
      DivDiv(v, Pow2(msb + 1 - bits), Pow2(i));
    } else {
      ScaledBit(v, bits - (msb + 1), i);
      if i < bits - (msb + 1) {
        BitTestValue(s, msb + 1 - bits + i + 0x1_0000_0000);
      }
    }
    hide Pow2, Val;
  }

  /** Performs x = y[msb : msb - bits], right-adjusting the result. */
  method SetBignumPart(x: array<Dig>, y: array?<Dig>, msb: nat, bits: nat)
    requires x != y && msb < 0x1_0000_0000
    requires bits > msb + 1 ==> bits - (msb + 1) <= 0x8000_0000 && (y != null ==> 16 * y.Length <= 0x8000_0000)
    modifies x
    ensures y == null || msb > y.Length * 16 ==> AllZero(x[..])
    ensures y != null && msb <= y.Length * 16 ==>
              Val(y[..]) >= 0 && Val(x[..]) == PartOf(Val(y[..]), msb, bits) % Pow2(Fitting(bits, x.Length))
  {
    hide Val, Pow2, PartOf;
    SetZero(x);
    if y == null || msb > y.Length * 16 {
      return;
    }
    ValBound(y[..]);
    ghost var h: nat := PartOf(Val(y[..]), msb, bits);
    NothingYet(h);
    var i := 0;
    while i < bits
      invariant 0 <= i <= bits
      invariant Val(x[..]) == h % Pow2(Fitting(i, x.Length))
    {
      var bit := (msb + 1 - bits + i) % 0x1_0000_0000;
      ModBit(h, i);
      DivModOf(h, Pow2(i));
      ModSmall(h % Pow2(i), Pow2(i));
      PartBit(y[..], msb, bits, i);
      if BitTest(y, bit) {
        BitSet(x, i);
      }
      i := i + 1;
    }
  }

  lemma NothingYet(h: nat)
    ensures h % Pow2(Fitting(0, 0)) == 0 && Fitting(0, 0) == 0
  {
    assert Pow2(0) == 1;
  }
}
