/** Squaring of big numbers whose upper half is unused, Algorithm 14.16 of the Handbook of Applied
    Cryptography (double/v_bignum.c.c). Products are doubled in 32-bit words, the bit lost is kept apart. */
module BigSquare {
  import opened Arith
  import opened Digits
  import opened BigBits
  import opened BigMul

  const WORD: nat := 0x1_0000_0000

  ghost predicate NonNegative(s: seq<int>) {
    forall k :: 0 <= k < |s| ==> s[k] >= 0
  }

  /** An entry of a vector without negative entries is worth at most the whole. */
  lemma {:induction false} EntryBound(s: seq<int>, k: nat)
    requires NonNegative(s) && k < |s|
    ensures 0 <= s[k] * W(k) <= Val(s)
  {
    ValSplit(s, k);
    HighEntries(s[k..]);
    HighEntries(s[..k]);
    ValSplit(s[k..], 1);
    assert s[k..][..1] == [s[k]];
    ValOne(s[k]);
    HighEntries(s[k..][1..]);
    MulMono(0, Val(s[k..][1..]), W(1));
    SwapMul(W(1), Val(s[k..][1..]));
    MulMono(s[k], Val(s[k..]), W(k));
    MulMono(0, s[k], W(k));
    SwapMul(W(k), Val(s[k..]));
  }

  lemma {:induction false} HighEntries(s: seq<int>)
    requires NonNegative(s)
    ensures 0 <= Val(s)
  {
    if s != [] {
      var n := |s| - 1;
      ValStep(s, n);
      assert s[..n + 1] == s;
      HighEntries(s[..n]);
      MulMono(0, s[n], W(n));
    }
  }

  /** What the rows below i add up to: all products with a factor among the i low digits of xs. */
  function RowsValue(xs: seq<int>, i: nat): int
    requires i <= |xs|
  {
    Val(xs[..i]) * (2 * Val(xs) - Val(xs[..i]))
  }

  /** The same with the square of digit i and its products with the digits below j. */
  function RowValue(xs: seq<int>, i: nat, j: nat): int
    requires i < j <= |xs|
  {
    var a := xs[i] * W(i);
    RowsValue(xs, i) + a * a + 2 * (a * (Val(xs[..j]) - Val(xs[..i + 1])))
  }

  /** The entries of w around row i: digits below the carry slot of the row before, which may hold one
      more bit as long as it has not been worked on, and zeros above. */
  ghost predicate Shape(w: seq<int>, t: nat, i: nat, open: bool) {
    && |w| == 2 * t
    && NonNegative(w)
    && (forall k :: 0 <= k < |w| && k + 1 < i + t ==> w[k] < BASE)
    && (forall k :: 0 <= k < |w| && k + 1 == i + t ==> w[k] < if open then 2 * BASE else BASE)
    && (forall k :: 0 <= k < |w| && k >= i + t ==> w[k] == 0)
  }

  ghost predicate Rows(w: seq<int>, xs: seq<int>, i: nat) {
    i <= |xs| && Normal(xs) && Shape(w, |xs|, i, true) && Val(w) == RowsValue(xs, i)
  }

  ghost predicate InRow(w: seq<int>, xs: seq<int>, i: nat, j: nat, c: int) {
    && i < j <= |xs| && Normal(xs) && 0 <= c < 2 * BASE
    && Shape(w, |xs|, i, j < |xs|)
    && Val(w) + c * W(i + j) == RowValue(xs, i, j)
  }

  lemma Rectangle(l: int, x: int, wi: int, wt: int)
    requires 0 <= l < wi && l <= x < wt
    ensures l * (2 * x - l) < 2 * (wi * wt)
  {
    MulMono(l, wi, 2 * x - l);
    MulMonoStrict(2 * x - l, 2 * wt, wi);
    SwapMul(2 * x - l, wi);
    MulAssoc(2, wt, wi);
    SwapMul(wt, wi);
  }

  lemma LowPart(xs: seq<int>, i: nat)
    requires Normal(xs) && i <= |xs|
    ensures 0 <= Val(xs[..i]) < W(i) && Val(xs[..i]) <= Val(xs) < W(|xs|)
  {
    ValBound(xs);
    ValBound(xs[..i]);
    ValSplit(xs, i);
    ValBound(xs[i..]);
    MulMono(0, Val(xs[i..]), W(i));
    SwapMul(W(i), Val(xs[i..]));
  }

  lemma RowsBound(xs: seq<int>, i: nat)
    requires Normal(xs) && i <= |xs|
    ensures RowsValue(xs, i) < 2 * W(i + |xs|)
  {
    hide Val, W;
    LowPart(xs, i);
    WAdd(i, |xs|);
    Rectangle(Val(xs[..i]), Val(xs), W(i), W(|xs|));
  }

  lemma AllRows(xs: seq<int>)
    requires Normal(xs)
    ensures 0 <= RowsValue(xs, |xs|) == Val(xs) * Val(xs) < W(2 * |xs|)
  {
    hide Val, W;
    assert xs[..|xs|] == xs;
    ValBound(xs);
    WAdd(|xs|, |xs|);
    var x, w := Val(xs), W(|xs|);
    MulMono(0, x, x);
    MulMono(x, w, x);
    MulMonoStrict(x, w, w);
    SwapMul(x, w);
  }

  /** Row i starts with the square of digit i. */
  lemma RowBegins(xs: seq<int>, i: nat)
    requires i < |xs|
    ensures RowValue(xs, i, i + 1) == RowsValue(xs, i) + xs[i] * xs[i] * W(i + i)
  {
    WAdd(i, i);
    hide Val, W;
    Regroup(xs[i], W(i), xs[i], W(i));
    ZeroMul(xs[i] * W(i));
  }

  /** Each step adds twice the product of two digits. */
  lemma RowGrows(xs: seq<int>, i: nat, j: nat)
    requires i < j < |xs|
    ensures RowValue(xs, i, j + 1) == RowValue(xs, i, j) + 2 * (xs[j] * xs[i]) * W(i + j)
  {
    ValStep(xs, j);
    WAdd(i, j);
    hide Val, W;
    var a, l := xs[i] * W(i), Val(xs[..i + 1]);
    MulDist(a, Val(xs[..j]) - l, xs[j] * W(j));
    SwapMul(a, xs[j] * W(j));
    Regroup(xs[j], W(j), xs[i], W(i));
    MulAssoc(2, xs[j] * xs[i], W(i + j));
  }

  /** A complete row makes up the value of the rows below the next one. */
  lemma RowEnds(xs: seq<int>, i: nat)
    requires i < |xs|
    ensures RowValue(xs, i, |xs|) == RowsValue(xs, i + 1)
  {
    ValStep(xs, i);
    assert xs[..|xs|] == xs;
    hide Val, W;
    SquareStep(Val(xs[..i]), xs[i] * W(i), Val(xs));
  }

  lemma SquareStep(l: int, a: int, x: int)
    ensures l * (2 * x - l) + a * a + 2 * (a * (x - (l + a))) == (l + a) * (2 * x - (l + a))
  {
  }

  /** In the last row the entry is the carry slot; that the sum still fits a word follows from the
      size of the whole square. */
  lemma FirstFits(w: seq<int>, xs: seq<int>, i: nat)
    requires i < |xs| && Rows(w, xs, i)
    ensures 0 <= w[2 * i] + xs[i] * xs[i] < WORD
  {
    var d: int := xs[i];
    MulMono(0, d, d);
    MulMono(d, 0xFFFF, d);
    MulMono(d, 0xFFFF, 0xFFFF);
    SwapMul(d, 0xFFFF);
    if i + 1 == |xs| {
      EntryBound(w, 2 * i);
      RowBegins(xs, i);
      RowEnds(xs, i);
      AllRows(xs);
      hide Val, W;
      SwapDist(w[2 * i], d * d, W(2 * i));
      WStep(2 * i);
      WStep(2 * i + 1);
      if w[2 * i] + d * d >= WORD {
        MulMono(WORD, w[2 * i] + d * d, W(2 * i));
      }
    }
  }

  /** Adding v to entry p, storing the low half and carrying the rest adds v at that weight. */
  lemma StoreStep(w: seq<int>, p: nat, v: int)
    requires p < |w|
    ensures var uv := w[p] + v;
            Val(w[p := uv % BASE]) + uv / BASE * W(p + 1) == Val(w) + v * W(p)
  {
    var uv := w[p] + v;
    ValUpdate(w, p, uv % BASE);
    WStep(p);
    hide Val, W;
    HalvesOf(uv, W(p));
    SwapDist(uv % BASE, -w[p], W(p));
    NegMul(w[p], W(p));
    SwapDist(w[p], v, W(p));
  }

  lemma FirstValue(w: seq<int>, xs: seq<int>, i: nat)
    requires i < |xs| && 2 * i < |w| && Val(w) == RowsValue(xs, i)
    ensures var uv := w[2 * i] + xs[i] * xs[i];
            Val(w[2 * i := uv % BASE]) + uv / BASE * W(i + (i + 1)) == RowValue(xs, i, i + 1)
  {
    RowBegins(xs, i);
    hide *;
    StoreStep(w, 2 * i, xs[i] * xs[i]);
  }

  lemma FirstStep(w: seq<int>, xs: seq<int>, i: nat)
    requires i < |xs| && Rows(w, xs, i)
    ensures var uv := w[2 * i] + xs[i] * xs[i];
            InRow(w[2 * i := uv % BASE], xs, i, i + 1, uv / BASE)
  {
    hide Val, W, RowValue, RowsValue;
    FirstFits(w, xs, i);
    FirstValue(w, xs, i);
  }

  /** The doubled product with the old entry and the carry needs 33 bits at most: below the carry slot
      because of its parts, at the carry slot because of the size of the rows up to here. */
  lemma InnerFits(w: seq<int>, xs: seq<int>, i: nat, j: nat, c: int)
    requires j < |xs| && InRow(w, xs, i, j, c)
    ensures 0 <= xs[j] * xs[i] < WORD
    ensures xs[j] * xs[i] * 2 + (w[i + j] + c) < 2 * WORD
  {
    var a: int, b: int := xs[j], xs[i];
    MulMono(0, a, b);
    MulMono(a, 0xFFFF, b);
    MulMono(b, 0xFFFF, 0xFFFF);
    SwapMul(0xFFFF, b);
    if j + 1 == |xs| {
      CarrySlotFits(w, xs, i, j, c);
    }
  }

  lemma CarrySlotFits(w: seq<int>, xs: seq<int>, i: nat, j: nat, c: int)
    requires j + 1 == |xs| && InRow(w, xs, i, j, c)
    ensures xs[j] * xs[i] * 2 + (w[i + j] + c) < 2 * WORD
  {
    EntryBound(w, i + j);
    LastStepBound(xs, i, j);
    hide Val, W, RowValue;
    BelowTwoWords(w[i + j], c, xs[j] * xs[i], W(i + j), Val(w));
  }

  lemma LastStepBound(xs: seq<int>, i: nat, j: nat)
    requires Normal(xs) && i < j && j + 1 == |xs|
    ensures RowValue(xs, i, j) + 2 * (xs[j] * xs[i]) * W(i + j) < 2 * WORD * W(i + j)
  {
    RowGrows(xs, i, j);
    RowEnds(xs, i);
    RowsBound(xs, i + 1);
    assert i + 1 + |xs| == i + j + 2;
    WStep(i + j);
    WStep(i + j + 1);
  }

  lemma BelowTwoWords(e: int, c: int, p: int, wp: int, v: int)
    requires 0 < wp && e * wp <= v && v + c * wp + 2 * p * wp < 2 * WORD * wp
    ensures p * 2 + (e + c) < 2 * WORD
  {
    SwapDist(2 * p, e + c, wp);
    SwapDist(e, c, wp);
    if p * 2 + (e + c) >= 2 * WORD {
      MulMono(2 * WORD, 2 * p + (e + c), wp);
    }
  }

  lemma InnerValue(w: seq<int>, xs: seq<int>, i: nat, j: nat, c: int)
    requires i < j < |xs| && i + j < |w| && Val(w) + c * W(i + j) == RowValue(xs, i, j)
    ensures var uv := xs[j] * xs[i] * 2 + (w[i + j] + c);
            Val(w[i + j := uv % BASE]) + uv / BASE * W(i + (j + 1)) == RowValue(xs, i, j + 1)
  {
    var v := 2 * (xs[j] * xs[i]) + c;
    RowGrows(xs, i, j);
    hide *;
    StoreStep(w, i + j, v);
    SwapDist(2 * (xs[j] * xs[i]), c, W(i + j));
    assert xs[j] * xs[i] * 2 + (w[i + j] + c) == w[i + j] + v;
  }

  lemma InnerStep(w: seq<int>, xs: seq<int>, i: nat, j: nat, c: int)
    requires j < |xs| && InRow(w, xs, i, j, c)
    ensures var uv := xs[j] * xs[i] * 2 + (w[i + j] + c);
            InRow(w[i + j := uv % BASE], xs, i, j + 1, uv / BASE)
  {
    hide Val, W, RowValue, RowsValue;
    InnerFits(w, xs, i, j, c);
    InnerValue(w, xs, i, j, c);
  }

  lemma RowStored(w: seq<int>, xs: seq<int>, i: nat, c: int)
    requires i < |xs| && InRow(w, xs, i, |xs|, c)
    ensures Rows(w[i + |xs| := c], xs, i + 1)
  {
    RowEnds(xs, i);
    ValUpdate(w, i + |xs|, c);
  }

  lemma RowsStart(w: seq<int>, xs: seq<int>)
    requires Normal(xs) && |w| == 2 * |xs| && AllZero(w)
    ensures Rows(w, xs, 0)
  {
    ValZero(w);
    assert xs[..0] == [];
    ZeroMul(2 * Val(xs));
  }

  /** After the last row all entries are digits and the value is the square. */
  lemma RowsDone(w: seq<int>, xs: seq<int>)
    requires Rows(w, xs, |xs|)
    ensures Normal(w) && Val(w) == Val(xs) * Val(xs)
  {
    AllRows(xs);
    if |xs| > 0 {
      var k := 2 * |xs| - 1;
      EntryBound(w, k);
      WStep(k);
      if w[k] >= BASE {
        MulMono(BASE, w[k], W(k));
      }
    }
  }

  /** Adding a to ouv modulo 2^32 shows its carry in the comparison with ouv. */
  lemma WrapShows(ouv: nat, a: nat)
    requires ouv < WORD && a < WORD
    ensures var uv := (ouv + a) % WORD;
            ouv + a == (if uv < ouv then 1 else 0) * WORD + uv
  {
  }

  /** The next carry, put together from the word and the bit kept apart. */
  lemma HighAndLow(hi: nat, k: nat, uv: nat)
    requires hi + k <= 1 && uv < WORD
    ensures BitOr(uv / BASE, BitOr(hi, k) * BASE) == ((hi + k) * WORD + uv) / BASE
    ensures uv % BASE == ((hi + k) * WORD + uv) % BASE
  {
    OrZero(hi);
    OrZero(k);
    TwoTo16();
    OrDisjoint((hi + k) * BASE, uv / BASE, 16);
    OrComm(uv / BASE, (hi + k) * BASE);
  }

  /** The 32-bit words of one step: doubling p may lose its top bit and the sum may wrap, but never both. */
  lemma WordStep(p: nat, a: nat)
    requires p < WORD && a < 4 * BASE && p * 2 + a < 2 * WORD
    ensures var ouv := p * 2 % WORD;
            var uv := (ouv + a) % WORD;
            var high := BitOr(if p >= 0x8000_0000 then 1 else 0, if uv < ouv then 1 else 0);
            uv % BASE == (p * 2 + a) % BASE && BitOr(uv / BASE, high * BASE) == (p * 2 + a) / BASE
  {
    var ouv := p * 2 % WORD;
    var uv := (ouv + a) % WORD;
    var hi, k := if p >= 0x8000_0000 then 1 else 0, if uv < ouv then 1 else 0;
    WrapShows(ouv, a);
    assert p * 2 + a == (hi + k) * WORD + uv;
    HighAndLow(hi, k, uv);
  }

  /** The double of a product and a sum added to it, in a 32-bit word and one bit more. */
  method DoubleAndAdd(p: nat, a: nat) returns (uv: nat, high: nat)
    requires p < WORD && a < 4 * BASE && p * 2 + a < 2 * WORD
    ensures uv < WORD && high <= 1 && uv % BASE == (p * 2 + a) % BASE
    ensures BitOr(uv / BASE, high * BASE) == (p * 2 + a) / BASE
  {
    WordStep(p, a);
    uv := p;
    high := if uv >= 0x8000_0000 then 1 else 0;
    uv := uv * 2 % WORD;
    var ouv := uv;
    uv := (uv + a) % WORD;
    high := BitOr(high, if uv < ouv then 1 else 0);
  }

  /** One row: the square of digit i and its doubled products with the digits above. */
  method SquareRow(x: array<Dig>, w: array<nat>, t: nat, i: nat)
    requires i < t <= x.Length && 2 * t <= w.Length
    requires Rows(w[..2 * t], x[..t], i)
    modifies w
    ensures Rows(w[..2 * t], x[..t], i + 1)
  {
    hide Rows, InRow, Val;
    ghost var xs: seq<int>, n := x[..t], 2 * t;
    RowFacts(w[..n], xs, i);
    ghost var ws: seq<int> := w[..n];
    FirstFits(ws, xs, i);
    FirstStep(ws, xs, i);
    var uv: nat := w[2 * i] + x[i] as int * x[i] as int;
    w[2 * i] := uv % BASE;
    assert w[..n] == ws[2 * i := uv % BASE];
    var c: nat, high: nat := uv / BASE, 0;
    var j := i + 1;
    while j < t
      invariant i < j <= t && 0 <= uv < WORD && high <= 1
      invariant c == BitOr(uv / BASE, high * BASE)
      invariant InRow(w[..n], xs, i, j, c)
    {
      ws := w[..n];
      InRowFacts(ws, xs, i, j, c);
      InnerFits(ws, xs, i, j, c);
      InnerStep(ws, xs, i, j, c);
      ghost var sum := xs[j] * xs[i] * 2 + (ws[i + j] + c);
      uv, high := DoubleAndAdd(x[j] as int * x[i] as int, w[i + j] + c);
      w[i + j] := uv % BASE;
      c := BitOr(uv / BASE, high * BASE);
      assert w[..n] == ws[i + j := sum % BASE];
      j := j + 1;
    }
    ws := w[..n];
    RowStored(ws, xs, i, c);
    w[i + t] := BitOr(uv / BASE, high * BASE);
    assert w[..n] == ws[i + t := c];
  }

  lemma RowFacts(w: seq<int>, xs: seq<int>, i: nat)
    requires Rows(w, xs, i)
    ensures |w| == 2 * |xs|
  {
  }

  lemma InRowFacts(w: seq<int>, xs: seq<int>, i: nat, j: nat, c: int)
    requires InRow(w, xs, i, j, c)
    ensures |w| == 2 * |xs| && 0 <= c < 2 * BASE && forall k :: 0 <= k < |w| ==> 0 <= w[k] < 2 * BASE
  {
  }

  /** The significant digits of the lower half of x. */
  method LowerHalf(x: array<Dig>) returns (t: nat)
    ensures t <= x.Length / 2 && Val(x[..t]) == Val(x[..x.Length / 2])
  {
    t := x.Length / 2;
    while t > 0 && x[t - 1] == 0
      invariant t <= x.Length / 2 && Val(x[..t]) == Val(x[..x.Length / 2])
    {
      ValStep(x[..], t - 1);
      assert x[..][..t] == x[..t] && x[..][..t - 1] == x[..t - 1];
      ZeroMul(W(t - 1));
      t := t - 1;
    }
  }

  /** The entries of w replace the low digits of x, the others are cleared. */
  method WriteBack(x: array<Dig>, w: array<nat>, n: nat)
    requires n <= x.Length && n <= w.Length && Normal(w[..n])
    modifies x
    ensures Val(x[..]) == Val(w[..n])
  {
    var i := 0;
    while i < n
      invariant i <= n && forall k :: 0 <= k < i ==> x[k] == w[k]
    {
      x[i] := w[i];
      i := i + 1;
    }
    while i < x.Length
      invariant n <= i <= x.Length && forall k :: 0 <= k < i ==> x[k] == if k < n then w[k] else 0
    {
      x[i] := 0;
      i := i + 1;
    }
    ghost var ws: seq<int> := w[..n];
    assert x[..] == ws + x[n..];
    ValAppendZeros(ws, x[n..]);
  }

  /** Computes x * x in place for a number in the lower half of its digits; with a single digit, which has
      no lower half, x stays what it is. */
  method SquareHalf(x: array<Dig>)
    requires x.Length <= 257
    modifies x
    ensures x.Length < 2 ==> x[..] == old(x[..])
    ensures x.Length >= 2 ==>
              Val(x[..]) == (var low := old(Val(x[..x.Length / 2])); low * low)
  {
    if x.Length / 2 == 0 {
      return;
    }
    hide Rows, Val;
    var t := LowerHalf(x);
    ghost var xs := x[..t];
    var w := new nat[256];
    forall k | 0 <= k < 2 * t {
      w[k] := 0;
    }
    RowsStart(w[..2 * t], xs);
    var i := 0;
    while i < t
      invariant 0 <= i <= t && x[..t] == xs && Rows(w[..2 * t], xs, i)
    {
      SquareRow(x, w, t, i);
      i := i + 1;
    }
    RowsDone(w[..2 * t], xs);
    WriteBack(x, w, 2 * t);
  }
}
