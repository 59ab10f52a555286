/** The digit heap and shift-subtract division of big numbers (double/v_bignum.c.c). */
module BigDiv {
  import opened Arith
  import opened Digits
  import opened BigBits
  import opened BigArith

  /** Words in the static heap that temporary numbers are taken from, last in first out. */
  const HEAP_SIZE: nat := 2048 + 32

  class DigitHeap {
    var pos: nat

    constructor ()
      ensures pos == 0
    {
      pos := 0;
    }

    /** Takes a number of n digits and its length word. The test leaves out the length word: if exactly n words are
        left, the last digit comes to lie behind the heap. */
    method Alloc(n: nat) returns (y: array?<Dig>)
      modifies this
      ensures old(pos) + n > 2080 ==> y == null && pos == old(pos)
      ensures old(pos) + n <= 2080 ==> y != null && fresh(y) && y.Length == n && pos == old(pos) + n + 1
      ensures y != null ==> (pos > 2080 <==> old(pos) + n == 2080)
    {
      if pos + n > HEAP_SIZE {
        return null;
      }
      y := new Dig[n];
      pos := pos + n + 1;
    }

    /** Gives back the number taken last. */
    method Free(x: array<Dig>)
      requires x.Length + 1 <= pos
      modifies this
      ensures pos == old(pos) - x.Length - 1
    {
      pos := pos - (x.Length + 1);
    }
  }

  /** The state in front of the division step for the prefix p of the dividend. */
  ghost predicate Dividing(work: int, q: int, p: int, y: int) {
    0 <= q && work == p - 2 * (q * y) && 0 <= work < 2 * y
  }

  /** After the step the quotient digit is in place and work is the remainder of the prefix. */
  lemma DivStep(work: int, q: int, p: int, y: int, digit: int)
    requires y > 0 && 0 <= p && Dividing(work, q, p, y)
    requires digit == if work >= y then 1 else 0
    ensures 2 * q + digit == p / y && work - digit * y == p % y && 2 * q <= p
  {
    MulAssoc(2, q, y);
    SwapDist(2 * q, digit, y);
    DivModUnique(p, y, 2 * q + digit, work - digit * y);
    DivMono(p, p, y);
    DivModOf(p, y);
    DivNat(p, y);
    MulMono(1, y, p / y);
    SwapMul(y, p / y);
  }

  lemma NextPrefix(x: nat, k: nat)
    ensures x / Pow2(k) == 2 * (x / Pow2(k + 1)) + x / Pow2(k) % 2
    ensures 0 <= x / Pow2(k) <= x
  {
    Pow2Step(k);
    SwapMul(2, Pow2(k));
    DivDiv(x, Pow2(k), 2);
    DivNat(x, Pow2(k));
    DivModOf(x, Pow2(k));
    MulMono(1, Pow2(k), x / Pow2(k));
    SwapMul(Pow2(k), x / Pow2(k));
  }

  /** Shifting the remainder and bringing down the next bit gives the state for the next prefix. */
  lemma BringDown(x: nat, k: nat, y: nat)
    requires y > 0
    ensures var p, p' := x / Pow2(k + 1), x / Pow2(k);
            var work := 2 * (p % y) + p' % 2;
            Dividing(work, p / y, p', y) && work <= x
  {
    var p := x / Pow2(k + 1);
    NextPrefix(x, k);
    NextPrefix(x, k + 1);
    DivModOf(p, y);
    DivNat(p, y);
    MulMono(0, p / y, y);
  }

  /** The leading bits of x that are as long as y start the division. */
  lemma FirstPrefix(x: nat, y: nat, msbx: nat, msby: nat)
    requires Pow2(msbx) <= x < Pow2(msbx + 1) && Pow2(msby) <= y && msby <= msbx
    ensures var p := x / Pow2(msbx - msby);
            Dividing(p, 0, p, y) && 0 <= p < Pow2(msby + 1) && p <= x
  {
    var s := msbx - msby;
    NextPrefix(x, s);
    Pow2Add(s, msby + 1);
    DivBound(x, Pow2(s), Pow2(msby + 1));
    Pow2Step(msby);
    ZeroMul(y);
  }

  lemma FirstWork(xs: seq<Dig>, yv: nat, msbx: nat, msby: nat, short: bool)
    requires Pow2(msbx) <= Val(xs) < Pow2(msbx + 1) && Pow2(msby) <= yv && msby <= msbx < 16 * |xs|
    ensures var p := Val(xs) / Pow2(msbx - msby); OnCourse(p % Pow2(Fitting(msby + 1, |xs|)), 0, p, yv, short)
  {
    FirstPrefix(Val(xs), yv, msbx, msby);
    PrefixPositive(Val(xs), msbx, msbx - msby);
    ModSmall(Val(xs) / Pow2(msbx - msby), Pow2(msby + 1));
  }

  /** Undoing the last left shift leaves the remainder, short of a bit that was shifted out. */
  lemma LastShift(r: nat, n: nat)
    requires n > 0
    ensures 2 * r % W(n) / Pow2(1) == r % Pow2(16 * n - 1)
  {
    WBits(n);
    Pow2Step(16 * n - 1);
    var h := Pow2(16 * n - 1);
    assert Pow2(1) == 2 * Pow2(0);
    DivModOf(r, h);
    MulSwap(2, r / h, h);
    DivModUnique(2 * r, 2 * h, r / h, 2 * (r % h));
  }

  /** What is left of a remainder that has gone through the last shift and into a vector of its own. */
  function Returned(r: int, n: nat, size: nat): int
    requires n > 0
  {
    r % Pow2(16 * n - 1) % W(size)
  }

  /** A remainder needs the top bit of the dividend's vector only if the dividend has it and is its own
      remainder. */
  lemma NeedsTopBit(x: nat, y: nat, n: nat)
    requires n > 0 && y > 0 && x < W(n)
    ensures x % y < Pow2(16 * n - 1) <==> !(Pow2(16 * n - 1) <= x < y)
  {
    WBits(n);
    Pow2Step(16 * n - 1);
    var p := Pow2(16 * n - 1);
    DivModOf(x, y);
    DivNat(x, y);
    if x < y {
      ModSmall(x, y);
    } else {
      DivMono(y, x, y);
      DivModUnique(y, y, 1, 0);
      MulMono(1, x / y, y);
    }
    hide Pow2, W;
  }

  /** The remainder Div leaves in a vector of the given size: x itself if its highest bit is below that of y, else
      what comes out of the division loop. */
  ghost function RemainderOf(x: nat, y: nat, n: nat, size: nat): int
    requires n > 0 && y > 0
  {
    if TopBelow(x, y) then x % W(size) else Returned(x % y, n, size)
  }

  /** The highest bit of x is below that of y. */
  ghost predicate TopBelow(x: nat, y: nat) {
    exists k: nat :: x < Pow2(k) <= y
  }

  /** x has the top bit of its vector and lies below y, and y has the same top bit. */
  predicate SharesTopBit(x: nat, y: nat, n: nat)
    requires n > 0
  {
    Pow2(16 * n - 1) <= x < y < W(n)
  }

  lemma TopBitShared(x: nat, y: nat, n: nat)
    requires n > 0 && x < W(n)
    ensures SharesTopBit(x, y, n) <==> Pow2(16 * n - 1) <= x < y && !TopBelow(x, y)
  {
    WBits(n);
    if y < W(n) && TopBelow(x, y) && Pow2(16 * n - 1) <= x {
      var k: nat :| x < Pow2(k) <= y;
      if k < 16 * n {
        Pow2Mono(k, 16 * n - 1);
      } else {
        Pow2Mono(16 * n, k);
      }
    }
    hide Pow2, W;
  }

  /** For a remainder vector that has room for the divisor the remainder is right if and only if the dividend does
      not have the top bit of its vector and lie below a divisor with that same top bit. */
  lemma RemainderExact(x: nat, y: nat, n: nat, size: nat)
    requires n > 0 && 0 < y <= W(size) && x < W(n)
    ensures RemainderOf(x, y, n, size) == x % y <==> !SharesTopBit(x, y, n)
  {
    TopBitShared(x, y, n);
    if TopBelow(x, y) {
      ModSmall(x, y);
      ModSmall(x, W(size));
    } else {
      ReturnedExact(x, y, n, size);
    }
    hide Pow2, W, Returned;
  }

  lemma ReturnedExact(x: nat, y: nat, n: nat, size: nat)
    requires n > 0 && 0 < y <= W(size) && x < W(n)
    ensures Returned(x % y, n, size) == x % y <==> !(Pow2(16 * n - 1) <= x < y)
  {
    var p, w := Pow2(16 * n - 1), W(size);
    NeedsTopBit(x, y, n);
    DivModOf(x, y);
    DivModOf(x % y, p);
    DivModOf(x % y % p, w);
    if x % y < p {
      ModSmall(x % y, p);
      ModSmall(x % y, w);
    } else {
      ModBelow(x % y, p);
      ModBelow(x % y % p, w);
    }
    hide Pow2, W;
  }

  lemma ModBelow(a: nat, b: nat)
    requires b > 0
    ensures a % b <= a
  {
    DivModOf(a, b);
    DivNat(a, b);
    MulMono(0, a / b, b);
  }

  /** q and r are the quotient and the remainder of x by y. */
  ghost predicate Divided(x: nat, y: nat, q: int, r: int) {
    x == q * y + r && 0 <= r < y
  }

  /** Quotient and remainder are as they should be if and only if neither an equal divisor of more digits was missed
      nor the top bit of the remainder lost. */
  lemma DivisionExact(x: nat, y: nat, n: nat, size: nat, missed: bool, q: int, r: int)
    requires n > 0 && 0 < y <= W(size) && x < W(n)
    requires if missed then 0 <= q < x / y else q == x / y && r == RemainderOf(x, y, n, size)
    ensures Divided(x, y, q, r) <==> !missed && !SharesTopBit(x, y, n)
  {
    RemainderExact(x, y, n, size);
    DivModOf(x, y);
    hide Pow2, W, RemainderOf;
    if Divided(x, y, q, r) {
      DivModUnique(x, y, q, r);
    }
  }

  /** 0x8000 divided by 0x8001 in one digit leaves the remainder 0. */
  lemma RemainderLost()
    ensures SharesTopBit(0x8000, 0x8001, 1) && RemainderOf(0x8000, 0x8001, 1, 1) == 0 && 0x8000 % 0x8001 == 0x8000
  {
    WBits(1);
    TwoTo15();
    TwoTo16();
    TopBitShared(0x8000, 0x8001, 1);
    DivModUnique(0x8000, 0x8000, 1, 0);
    ModSmall(0, W(1));
  }

  lemma TwoTo15()
    ensures Pow2(15) == 0x8000
  {
    TwoTo16();
    Pow2Step(15);
    hide Pow2;
  }

  /** The divisor divides a prefix of the dividend's bits. */
  ghost predicate Meets(x: nat, y: nat)
    requires y > 0
  {
    exists k: nat :: MeetsAt(x, y, k)
  }

  ghost predicate MeetsAt(x: nat, y: nat, k: nat)
    requires y > 0
  {
    x / Pow2(k) > 0 && x / Pow2(k) % y == 0
  }

  /** A dividend with a lower top bit is its own remainder. */
  lemma ShortDividend(x: nat, y: nat, msbx: int, msby: int)
    requires -1 <= msbx < msby && (if msbx < 0 then x == 0 else x < Pow2(msbx + 1)) && Pow2(msby) <= y
    ensures x < Pow2(msby) && x / y == 0 && x % y == x && !Meets(x, y)
  {
    if msbx >= 0 {
      Pow2Mono(msbx + 1, msby);
    }
    ModSmall(x, y);
    forall k: nat ensures !MeetsAt(x, y, k) {
      NextPrefix(x, k);
      ModSmall(x / Pow2(k), y);
    }
    hide Pow2;
  }

  /** The prefixes the division comes to are the ones that matter. */
  lemma MeetsWithin(x: nat, y: nat, msbx: nat, msby: nat)
    requires Pow2(msbx) <= x < Pow2(msbx + 1) && Pow2(msby) <= y && msby <= msbx
    ensures Meets(x, y) <==> MeetsFrom(x, y, msbx - msby, 0)
  {
    var top := msbx - msby;
    forall k: nat ensures MeetsAt(x, y, k) <==> (k <= top && x / Pow2(k) % y == 0) {
      if k <= top {
        PrefixPositive(x, msbx, k);
      } else {
        PrefixSmall(x, msbx, msby, k);
        DivNat(x, Pow2(k));
        ModSmall(x / Pow2(k), y);
      }
    }
    hide Pow2;
    if Meets(x, y) {
      var k: nat :| MeetsAt(x, y, k);
      assert 0 <= k <= top && DividesPrefix(x, y, k);
    }
    if MeetsFrom(x, y, top, 0) {
      var k: nat :| 0 <= k <= top && DividesPrefix(x, y, k);
      assert MeetsAt(x, y, k);
    }
  }

  lemma PrefixPositive(x: nat, msb: nat, k: nat)
    requires Pow2(msb) <= x && k <= msb
    ensures x / Pow2(k) > 0
  {
    Pow2Mono(k, msb);
    DivMono(Pow2(k), x, Pow2(k));
    DivModUnique(Pow2(k), Pow2(k), 1, 0);
  }

  lemma PrefixSmall(x: nat, msbx: nat, msby: nat, k: nat)
    requires x < Pow2(msbx + 1) && msby <= msbx && k > msbx - msby
    ensures x / Pow2(k) < Pow2(msby)
  {
    Pow2Mono(msbx + 1, k + msby);
    Pow2Add(k, msby);
    DivBound(x, Pow2(k), Pow2(msby));
  }

  ghost predicate DividesPrefix(x: nat, y: nat, k: nat)
    requires y > 0
  {
    x / Pow2(k) % y == 0
  }

  /** The divisor divides one of the prefixes from top bits dropped down to last bits dropped. */
  ghost predicate MeetsFrom(x: nat, y: nat, top: int, last: nat)
    requires y > 0
  {
    exists k: nat :: last <= k <= top && DividesPrefix(x, y, k)
  }

  lemma MeetsNext(x: nat, y: nat, top: int, last: nat)
    requires y > 0 && last <= top
    ensures MeetsFrom(x, y, top, last) <==> MeetsFrom(x, y, top, last + 1) || DividesPrefix(x, y, last)
  {
  }

  /** One divided by one, written with a digit more, is not recognized. */
  lemma EqualDivisorMissed()
    ensures Meets(1, 1)
  {
    assert Pow2(0) == 1;
    assert MeetsAt(1, 1, 0);
  }

  /** Everything in front of the shift of work stays below the size of the vectors. */
  lemma RoundFits(xv: nat, yv: nat, qv: int, wv: int, k: nat, size: nat)
    requires yv > 0 && xv < size && wv < size && Dividing(wv, qv, xv / Pow2(k), yv)
    ensures 2 * qv % size == 2 * qv
    ensures var digit := if wv >= yv then 1 else 0;
            && 2 * qv + digit == xv / Pow2(k) / yv
            && (wv - digit * yv) % size == wv - digit * yv == xv / Pow2(k) % yv
  {
    var digit := if wv >= yv then 1 else 0;
    NextPrefix(xv, k);
    DivStep(wv, qv, xv / Pow2(k), yv, digit);
    ModSmall(2 * qv, size);
    ModSmall(wv - digit * yv, size);
  }

  lemma RoundNext(xv: nat, yv: nat, k: nat, size: nat)
    requires yv > 0 && xv < size
    ensures var r, bit := xv / Pow2(k + 1) % yv, xv / Pow2(k) % 2;
            2 * r % size == 2 * r && Dividing(2 * r + bit, xv / Pow2(k + 1) / yv, xv / Pow2(k), yv)
  {
    BringDown(xv, k, yv);
    DivModOf(xv / Pow2(k + 1), yv);
    ModSmall(2 * (xv / Pow2(k + 1) % yv), size);
  }

  lemma BeyondTop(xs: seq<Dig>, bit: nat)
    requires bit >= 16 * |xs|
    ensures Val(xs) / Pow2(bit) % 2 != 1
  {
    BitTestValue(xs, bit);
  }

  /** The division is right so far. With a divisor of more digits, which is not recognized when it is equal, the
      remainder has never been zero. */
  ghost predicate OnCourse(work: int, q: int, p: int, y: int, short: bool) {
    Dividing(work, q, p, y) && (short ==> work > 0)
  }

  /** The comparison recognizes all but an equal divisor of more digits: the quotient digit is right unless the
      divisor divides the prefix, and then the quotient stays behind. */
  lemma ShortStep(work: int, q: int, p: int, y: int, short: bool, digit: int)
    requires y > 0 && 0 <= p && OnCourse(work, q, p, y, short)
    requires digit == if work > y || (work == y && !short) then 1 else 0
    ensures short && p % y == 0 ==> 2 * q + digit < p / y && digit == 0
    ensures !(short && p % y == 0) ==> digit == if work >= y then 1 else 0
  {
    var full := if work >= y then 1 else 0;
    DivStep(work, q, p, y, full);
  }

  /** A quotient that is behind stays behind. */
  lemma BehindStays(q: int, x: nat, k: nat, y: nat)
    requires y > 0 && 0 <= q < x / Pow2(k + 1) / y
    ensures 2 * q + 1 < x / Pow2(k) / y && 2 * q + 1 < x
  {
    NextPrefix(x, k);
    var p, p' := x / Pow2(k + 1), x / Pow2(k);
    hide Pow2;
    DivModOf(p, y);
    DivNat(p, y);
    DivNat(p', y);
    MulAssoc(2, p / y, y);
    DivMono(2 * (p / y) * y, p', y);
    DivModUnique(2 * (p / y) * y, y, 2 * (p / y), 0);
    ModBelow(p', 1);
    DivModOf(p', y);
    MulMono(1, y, p' / y);
    SwapMul(y, p' / y);
  }

  lemma DoubledIsEven(v: nat, n: nat)
    requires n > 0
    ensures 2 * v % W(n) % 2 == 0
  {
    WBits(n);
    Pow2Step(16 * n - 1);
    var h := Pow2(16 * n - 1);
    DivModOf(v, h);
    MulSwap(2, v / h, h);
    DivModUnique(2 * v, 2 * h, v / h, 2 * (v % h));
    hide Pow2, W;
    ModShift(0, v % h, 2);
  }

  /** The divisor subtracted if it is recognized to fit, and the quotient bit for it. */
  method SubtractIfAtLeast(q: array<Dig>, work: array<Dig>, y: array<Dig>)
    requires q != work && q != y && work != y && q.Length > 0
    requires Val(q[..]) % 2 == 0 && Val(work[..]) >= 0 && Val(y[..]) > 0
    requires Val(work[..]) < W(work.Length)
    modifies q, work
    ensures var wv, yv := old(Val(work[..])), old(Val(y[..]));
            var digit := if wv > yv || (wv == yv && work.Length >= y.Length) then 1 else 0;
            Val(q[..]) == old(Val(q[..])) + digit && Val(work[..]) == (wv - digit * yv) % W(work.Length)
  {
    hide Val, W;
    ModSmall(Val(work[..]), W(work.Length));
    var ge := Gte(work, y);
    if ge {
      SetLowBit(q);
      Sub(work, y);
    }
  }

  /** One round of the division loop: a quotient bit, and the next bit of the dividend brought down. The round
      is lost if the divisor has more digits and divides the prefix. */
  method DivRound(x: array<Dig>, y: array<Dig>, q: array<Dig>, work: array<Dig>, next: int, ghost lost: bool)
    returns (ghost lost': bool)
    requires x.Length == q.Length == work.Length < 0x1_0000 && x.Length > 0
    requires q != work && q != x && q != y && work != x && work != y
    requires -1 <= next < 0x7FFF_FFFF && Val(x[..]) >= 0 && Val(y[..]) > 0
    requires if lost then x.Length < y.Length && 0 <= Val(q[..]) < Val(x[..]) / Pow2(next + 2) / Val(y[..])
             else OnCourse(Val(work[..]), Val(q[..]), Val(x[..]) / Pow2(next + 1), Val(y[..]), x.Length < y.Length)
    modifies q, work
    ensures lost' == (lost || (x.Length < y.Length && DividesPrefix(Val(x[..]), Val(y[..]), next + 1)))
    ensures lost' ==> 0 <= Val(q[..]) < Val(x[..]) / Pow2(next + 1) / Val(y[..])
    ensures !lost' ==> Val(q[..]) == Val(x[..]) / Pow2(next + 1) / Val(y[..])
    ensures !lost' && next >= 0 ==>
              OnCourse(Val(work[..]), Val(q[..]), Val(x[..]) / Pow2(next), Val(y[..]), x.Length < y.Length)
    ensures !lost' && next == -1 ==>
              Val(work[..]) == 2 * (Val(x[..]) / Pow2(next + 1) % Val(y[..])) % W(x.Length)
  {
    hide Val, W, Pow2, Dividing, DividesPrefix;
    ghost var xv, yv, short := Val(x[..]), Val(y[..]), x.Length < y.Length;
    ghost var qv, wv := Val(q[..]), Val(work[..]);
    ValBound(x[..]);
    ValBound(work[..]);
    Prefixes(xv, yv, next + 1);
    lost' := lost || (short && DividesPrefix(xv, yv, next + 1));
    if lost {
      BehindStays(qv, xv, next + 1, yv);
      ModSmall(2 * qv, W(x.Length));
    } else {
      RoundFits(xv, yv, qv, wv, next + 1, W(x.Length));
      ShortStep(wv, qv, xv / Pow2(next + 1), yv, short, if wv > yv || (wv == yv && !short) then 1 else 0);
    }
    ShiftLeft1(q);
    SubtractIfAtLeast(q, work, y);
    ValBound(work[..]);
    DoubledIsEven(Val(work[..]), x.Length);
    ShiftLeft1(work);
    if next >= 0 {
      if !lost' {
        RoundNext(xv, yv, next, W(x.Length));
      }
    } else {
      BeyondTop(x[..], next + 0x1_0000_0000);
    }
    // the bit index is unsigned: -1 stands for a bit beyond every number
    if BitTest(x, if next < 0 then next + 0x1_0000_0000 else next) {
      SetLowBit(work);
    }
  }

  lemma Prefixes(x: nat, y: nat, k: nat)
    requires y > 0
    ensures x / Pow2(k) >= 0 && (DividesPrefix(x, y, k) <==> x / Pow2(k) % y == 0)
  {
    DivNat(x, Pow2(k));
  }

  /** The division loop: from the bit below the first prefix down to the shift that has to be undone. */
  method DivLoop(x: array<Dig>, y: array<Dig>, q: array<Dig>, work: array<Dig>, start: int) returns (ghost lost: bool)
    requires x.Length == q.Length == work.Length < 0x1_0000 && x.Length > 0
    requires q != work && q != x && q != y && work != x && work != y
    requires -1 <= start < 0x7FFF_FFFF && Val(x[..]) >= 0 && Val(y[..]) > 0
    requires OnCourse(Val(work[..]), Val(q[..]), Val(x[..]) / Pow2(start + 1), Val(y[..]), x.Length < y.Length)
    modifies q, work
    ensures lost <==> x.Length < y.Length && MeetsFrom(Val(x[..]), Val(y[..]), start + 1, 0)
    ensures lost ==> 0 <= Val(q[..]) < Val(x[..]) / Val(y[..])
    ensures !lost ==> Val(q[..]) == Val(x[..]) / Val(y[..])
    ensures !lost ==> Val(work[..]) == 2 * (Val(x[..]) % Val(y[..])) % W(x.Length)
  {
    assert Pow2(0) == 1;
    hide OnCourse, Val, W, Pow2, DividesPrefix, MeetsFrom;
    ghost var xv, yv := Val(x[..]), Val(y[..]);
    NoneYet(xv, yv, start + 1);
    var next := start;
    lost := false;
    while next >= -1
      invariant -2 <= next <= start && x[..] == old(x[..]) && y[..] == old(y[..])
      invariant lost <==> x.Length < y.Length && MeetsFrom(xv, yv, start + 1, next + 2)
      invariant lost ==> 0 <= Val(q[..]) < xv / Pow2(next + 2) / yv
      invariant !lost && next >= -1 ==>
                  OnCourse(Val(work[..]), Val(q[..]), xv / Pow2(next + 1), yv, x.Length < y.Length)
      invariant !lost && next == -2 ==> Val(q[..]) == xv / yv && Val(work[..]) == 2 * (xv % yv) % W(x.Length)
    {
      MeetsNext(xv, yv, start + 1, next + 1);
      lost := DivRound(x, y, q, work, next, lost);
      next := next - 1;
    }
  }

  lemma NoneYet(x: nat, y: nat, top: int)
    requires y > 0 && top >= 0
    ensures !MeetsFrom(x, y, top, top + 1)
  {
  }

  lemma NotTopBelow(x: nat, y: nat, msbx: nat, msby: nat)
    requires Pow2(msbx) <= x && y < Pow2(msby + 1) && msby <= msbx
    ensures !TopBelow(x, y)
  {
    forall k: nat ensures !(x < Pow2(k) <= y) {
      if k <= msby {
        Pow2Mono(k, msbx);
      } else {
        Pow2Mono(msby + 1, k);
      }
    }
    hide Pow2;
  }

  lemma QuickRemainder(x: nat, y: nat, n: nat, size: nat, msby: nat)
    requires n > 0 && x < Pow2(msby) <= y
    ensures RemainderOf(x, y, n, size) == x % W(size)
  {
  }

  lemma LoopRemainder(x: nat, y: nat, n: nat, size: nat)
    requires n > 0 && y > 0 && !TopBelow(x, y)
    ensures RemainderOf(x, y, n, size) == x % y % Pow2(16 * n - 1) % W(size)
  {
  }

  /** DivisionExact for vectors. */
  lemma ConcludeDivision(xv: nat, yv: nat, x: array<Dig>, remainder: array?<Dig>, missed: bool)
    requires x.Length > 0 && yv > 0 && xv < W(x.Length)
    requires if missed then 0 <= Val(x[..]) < xv / yv else Val(x[..]) == xv / yv
    requires remainder != null && !missed ==> Val(remainder[..]) == RemainderOf(xv, yv, x.Length, remainder.Length)
    ensures remainder != null && yv <= W(remainder.Length) ==>
              (Divided(xv, yv, Val(x[..]), Val(remainder[..])) <==> !missed && !SharesTopBit(xv, yv, x.Length))
  {
    hide *;
    if remainder != null && yv <= W(remainder.Length) {
      DivisionExact(xv, yv, x.Length, remainder.Length, missed, Val(x[..]), Val(remainder[..]));
    }
  }

  /** Computes x /= y and remainder = x % y. A zero divisor gives zero and leaves the remainder alone. A divisor with
      more digits than x is not recognized when the remainder equals it: the quotient is right then if and only if
      the divisor divides no prefix of x's bits. The remainder goes through one left shift too many. */
  method Div(h: DigitHeap, x: array<Dig>, y: array<Dig>, remainder: array?<Dig>)
    requires 0 < x.Length < 0x1_0000 && remainder != x
    requires h.pos + 2 * (x.Length + 1) <= HEAP_SIZE
    modifies h, x, remainder
    ensures h.pos == old(h.pos)
    ensures old(Val(y[..])) == 0 ==> Val(x[..]) == 0
    ensures old(Val(y[..])) == 0 && remainder != null ==> remainder[..] == old(remainder[..])
    ensures old(Val(x[..])) >= 0 && old(Val(y[..])) >= 0
    ensures old(Val(y[..])) != 0 ==>
              if x.Length < y.Length && Meets(old(Val(x[..])), old(Val(y[..])))
              then 0 <= Val(x[..]) < old(Val(x[..]) / Val(y[..]))
              else Val(x[..]) == old(Val(x[..]) / Val(y[..]))
    ensures old(Val(y[..])) != 0 && remainder != null
            && !(x.Length < y.Length && Meets(old(Val(x[..])), old(Val(y[..])))) ==>
              Val(remainder[..]) == RemainderOf(old(Val(x[..])), old(Val(y[..])), x.Length, remainder.Length)
    ensures old(Val(y[..])) != 0 && remainder != null && old(Val(y[..])) <= W(remainder.Length) ==>
              (Divided(old(Val(x[..])), old(Val(y[..])), Val(x[..]), Val(remainder[..]))
               <==> !(x.Length < y.Length && Meets(old(Val(x[..])), old(Val(y[..]))))
                    && !SharesTopBit(old(Val(x[..])), old(Val(y[..])), x.Length))
  {
    hide OnCourse, Val, W, Pow2, Meets, MeetsFrom, RemainderOf, Divided, SharesTopBit;
    ghost var xs, ys, xv, yv, missed := x[..], y[..], Val(x[..]), Val(y[..]), false;
    ValBound(xs);
    ValBound(ys);
    var msbx := BitMsb(x);
    var msby := BitMsb(y);
    if msby > msbx {
      ShortDividend(xv, yv, msbx, msby);
      if remainder != null {
        SetBignum(remainder, x);
        QuickRemainder(xv, yv, x.Length, remainder.Length, msby);
      }
      SetZero(x);
      ConcludeDivision(xv, yv, x, remainder, missed);
      return;
    }
    if msby < 0 {
      SetZero(x);
      return;
    }
    MeetsWithin(xv, yv, msbx, msby);
    NotTopBelow(xv, yv, msbx, msby);
    var q := h.Alloc(x.Length);
    SetZero(q);
    var work := h.Alloc(x.Length);
    SetBignumPart(work, x, msbx, msby + 1);
    FirstWork(xs, yv, msbx, msby, x.Length < y.Length);
    missed := DivLoop(x, y, q, work, msbx - (msby + 1));
    LastShift(xv % yv, x.Length);
    ShiftRight(work, 1);
    if remainder != null {
      SetBignum(remainder, work);
      LoopRemainder(xv, yv, x.Length, remainder.Length);
    }
    h.Free(work);
    ValBound(q[..]);
    ModSmall(Val(q[..]), W(x.Length));
    SetBignum(x, q);
    h.Free(q);
    ConcludeDivision(xv, yv, x, remainder, missed);
  }
}
