/** The run-time part of LOOP and +LOOP, in C and in Forth, and how often a loop runs. Cells have any number of bits
    and are unsigned; a cell with the top bit set stands for a negative number. */
module CountedLoop {
  import opened Arith

  /** How many bits a cell has. */
  type Width = b: nat | b >= 1 witness 64

  /** One more than the largest cell. */
  function Word(bits: nat): (r: nat)
    ensures r > 0
  {
    Pow2(bits)
  }

  /** The weight of the top bit. */
  function Half(bits: nat): (r: nat)
    requires bits >= 1
    ensures r > 0
  {
    Pow2(bits - 1)
  }

  lemma WordIs(bits: nat)
    requires bits >= 1
    ensures Word(bits) == 2 * Half(bits)
  {
    Pow2Step(bits - 1);
  }

  /** n bits of the exclusive or, and of the and. */
  function Xor(a: nat, b: nat, n: nat): (r: nat)
    ensures r < Pow2(n)
    decreases n
  {
    Pow2Step(if n == 0 then 0 else n - 1);
    if n == 0 then 0 else (a + b) % 2 + 2 * Xor(a / 2, b / 2, n - 1)
  }

  function And(a: nat, b: nat, n: nat): (r: nat)
    ensures r < Pow2(n)
    decreases n
  {
    Pow2Step(if n == 0 then 0 else n - 1);
    if n == 0 then 0 else (if a % 2 == 1 && b % 2 == 1 then 1 else 0) + 2 * And(a / 2, b / 2, n - 1)
  }

  /** Every bit of both. */
  lemma {:induction false} BitsOf(a: nat, b: nat, n: nat, k: nat)
    requires k < n
    ensures var x, y := a / Pow2(k) % 2, b / Pow2(k) % 2;
            && Xor(a, b, n) / Pow2(k) % 2 == (if x != y then 1 else 0)
            && And(a, b, n) / Pow2(k) % 2 == (if x == 1 == y then 1 else 0)
    decreases k
  {
    if k > 0 {
      BitsOf(a / 2, b / 2, n - 1, k - 1);
      Pow2Step(k - 1);
      DivDiv(a, 2, Pow2(k - 1));
      DivDiv(b, 2, Pow2(k - 1));
      DivDiv(Xor(a, b, n), 2, Pow2(k - 1));
      DivDiv(And(a, b, n), 2, Pow2(k - 1));
    } else {
      assert Pow2(0) == 1;
    }
  }

  /** The top bit of both. */
  lemma {:induction false} TopBits(a: nat, b: nat, n: nat)
    requires a < Pow2(n + 1) && b < Pow2(n + 1)
    ensures Xor(a, b, n + 1) >= Pow2(n) <==> (a >= Pow2(n)) != (b >= Pow2(n))
    ensures And(a, b, n + 1) >= Pow2(n) <==> a >= Pow2(n) && b >= Pow2(n)
    decreases n
  {
    Pow2Step(n);
    if n > 0 {
      Pow2Step(n - 1);
      TopBits(a / 2, b / 2, n - 1);
    }
  }

  predicate Negative(x: nat, bits: nat)
    requires bits >= 1
  {
    x >= Half(bits)
  }

  lemma Signs(a: nat, b: nat, bits: nat)
    requires bits >= 1 && a < Word(bits) && b < Word(bits)
    ensures Negative(Xor(a, b, bits), bits) <==> Negative(a, bits) != Negative(b, bits)
    ensures Negative(And(a, b, bits), bits) <==> Negative(a, bits) && Negative(b, bits)
  {
    TopBits(a, b, bits - 1);
  }

  function AsCell(x: int, bits: nat): (c: nat)
    ensures c < Word(bits)
  {
    DivModOf(x, Word(bits));
    x % Word(bits)
  }

  function Add(a: nat, b: nat, bits: nat): (c: nat)
    ensures c < Word(bits)
  {
    AsCell(a + b, bits)
  }

  function Minus(a: nat, b: nat, bits: nat): (c: nat)
    ensures c < Word(bits)
  {
    AsCell(a - b, bits)
  }

  /** The test of +LOOP: the index has crossed the boundary before the limit. */
  predicate Exits(index: nat, limit: nat, step: nat, bits: nat)
    requires bits >= 1
  {
    var gap := Minus(index, limit, bits);
    Negative(And(Xor(gap, Add(gap, step, bits), bits), Xor(gap, step, bits), bits), bits)
  }

  lemma ExitsBySigns(index: nat, limit: nat, step: nat, bits: nat)
    requires bits >= 1 && step < Word(bits)
    ensures var gap := Minus(index, limit, bits);
            var crossed := Negative(gap, bits) != Negative(Add(gap, step, bits), bits);
            Exits(index, limit, step, bits) <==> crossed && Negative(gap, bits) != Negative(step, bits)
  {
    var gap := Minus(index, limit, bits);
    hide Xor, And, Negative, Add, Minus;
    Signs(gap, Add(gap, step, bits), bits);
    Signs(gap, step, bits);
    Signs(Xor(gap, Add(gap, step, bits), bits), Xor(gap, step, bits), bits);
  }

  lemma AddIs(a: nat, b: nat, bits: nat)
    requires a < Word(bits) && b < Word(bits)
    ensures Add(a, b, bits) == if a + b >= Word(bits) then a + b - Word(bits) else a + b
  {
    hide Word;
    if a + b >= Word(bits) {
      DivModUnique(a + b, Word(bits), 1, a + b - Word(bits));
    } else {
      ModSmall(a + b, Word(bits));
    }
  }

  lemma MinusIs(a: nat, b: nat, bits: nat)
    requires a < Word(bits) && b < Word(bits)
    ensures Minus(a, b, bits) == if a < b then a - b + Word(bits) else a - b
  {
    hide Word;
    if a < b {
      DivModUnique(a - b, Word(bits), -1, a - b + Word(bits));
    } else {
      ModSmall(a - b, Word(bits));
    }
  }

  /** A loop counting up ends when the distance from the limit, an unsigned cell, would overflow. */
  lemma ExitsUp(index: nat, limit: nat, step: nat, bits: nat)
    requires bits >= 1 && 0 < step < Half(bits)
    ensures Exits(index, limit, step, bits) <==> Minus(index, limit, bits) + step >= Word(bits)
  {
    hide Exits, Minus, Add, Word, Half;
    WordIs(bits);
    ExitsBySigns(index, limit, step, bits);
    AddIs(Minus(index, limit, bits), step, bits);
  }

  /** A loop counting down ends when that distance would fall below zero. */
  lemma ExitsDown(index: nat, limit: nat, down: nat, bits: nat)
    requires bits >= 1 && 0 < down <= Half(bits)
    ensures Word(bits) - down >= 0
    ensures Exits(index, limit, Word(bits) - down, bits) <==> Minus(index, limit, bits) < down
  {
    hide Exits, Minus, Add, Word, Half;
    WordIs(bits);
    ExitsBySigns(index, limit, Word(bits) - down, bits);
    AddIs(Minus(index, limit, bits), Word(bits) - down, bits);
  }

  /** The step 0 never ends a loop. */
  lemma ExitsNever(index: nat, limit: nat, bits: nat)
    requires bits >= 1
    ensures !Exits(index, limit, 0, bits)
  {
    hide Exits, Minus, Add, Word, Half;
    ExitsBySigns(index, limit, 0, bits);
    AddIs(Minus(index, limit, bits), 0, bits);
  }

  /** The index after so many rounds. */
  function IndexAfter(start: nat, step: int, rounds: nat, bits: nat): nat {
    AsCell(start + rounds * step, bits)
  }

  /** The loop is left at the end of round n, and not before. */
  ghost predicate RunsFor(start: nat, limit: nat, step: int, n: nat, bits: nat)
    requires bits >= 1
  {
    n > 0 && forall i: nat :: i < n ==>
      (Exits(IndexAfter(start, step, i, bits), limit, AsCell(step, bits), bits) <==> i == n - 1)
  }

  lemma DistanceAfter(start: nat, limit: nat, step: int, i: nat, bits: nat)
    ensures Minus(IndexAfter(start, step, i, bits), limit, bits)
         == (Minus(start, limit, bits) + i * step) % Word(bits)
    ensures IndexAfter(start, step, i + 1, bits) == Add(IndexAfter(start, step, i, bits), AsCell(step, bits), bits)
  {
    hide Word;
    var x, y, w := start + i * step, start - limit, Word(bits);
    AddMod(x, -(limit as int), w);
    AddMod(y, i * step, w);
    AddMod(x, AsCell(step, bits), w);
    AddMod(step, x, w);
    SwapDist(i, 1, step);
    assert x - limit == y + i * step;
  }

  /** How far a loop has to go. */
  function Distance(start: nat, limit: nat, bits: nat): (d: nat)
    ensures 0 < d <= Word(bits)
  {
    Word(bits) - Minus(start, limit, bits)
  }

  lemma CeilDiv(d: nat, k: nat, i: nat)
    requires d > 0 && k > 0
    ensures i + 1 >= (d + k - 1) / k <==> (i + 1) * k >= d
    ensures (d + k - 1) / k > 0
  {
    var n := (d + k - 1) / k;
    DivModOf(d + k - 1, k);
    assert n * k <= d + k - 1 < n * k + k;
    if i + 1 >= n {
      MulMono(n, i + 1, k);
    } else {
      MulMono(i + 1, n - 1, k);
      SwapDist(n, -1, k);
    }
    if n <= 0 {
      MulMono(n, 0, k);
    }
  }

  /** Within the rounds of a loop counting up the distance does not overflow before the last. */
  lemma RoundsUp(x: nat, k: int, i: nat, w: nat)
    requires 0 < k && x < w && i < (w - x + k - 1) / k
    ensures x + i * k < w && 0 <= i * k && (i + 1) * k == i * k + k
    ensures (i + 1) * k >= w - x <==> i == (w - x + k - 1) / k - 1
  {
    CeilDiv(w - x, k, i);
    if i > 0 {
      CeilDiv(w - x, k, i - 1);
    }
    SwapDist(i, 1, k);
    MulMono(0, i, k);
  }

  lemma RoundUp(start: nat, limit: nat, k: int, i: nat, bits: nat)
    requires bits >= 1 && 0 < k < Half(bits) && i < (Distance(start, limit, bits) + k - 1) / k
    ensures Exits(IndexAfter(start, k, i, bits), limit, AsCell(k, bits), bits)
       <==> i == (Distance(start, limit, bits) + k - 1) / k - 1
  {
    hide Minus, IndexAfter, Exits, Word, Half;
    WordIs(bits);
    ModSmall(k, Word(bits));
    DistanceAfter(start, limit, k, i, bits);
    RoundsUp(Minus(start, limit, bits), k, i, Word(bits));
    ExitsUp(IndexAfter(start, k, i, bits), limit, k, bits);
    ModSmall(Minus(start, limit, bits) + i * k, Word(bits));
  }

  /** Counting up by k a loop runs for the distance divided by k, rounded up. */
  lemma RunsUp(start: nat, limit: nat, k: int, bits: nat)
    requires bits >= 1 && 0 < k < Half(bits)
    ensures RunsFor(start, limit, k, (Distance(start, limit, bits) + k - 1) / k, bits)
  {
    hide Exits, IndexAfter, Distance, AsCell, Half;
    var n := (Distance(start, limit, bits) + k - 1) / k;
    CeilDiv(Distance(start, limit, bits), k, 0);
    forall i: nat | i < n
      ensures Exits(IndexAfter(start, k, i, bits), limit, AsCell(k, bits), bits) <==> i == n - 1
    {
      RoundUp(start, limit, k, i, bits);
    }
  }

  lemma RoundsDown(x: nat, m: int, i: nat)
    requires 0 < m && i <= x / m
    ensures 0 <= x - i * m <= x && i * -m == -(i * m)
    ensures x - i * m < m <==> i == x / m
  {
    var q := x / m;
    DivModOf(x, m);
    SwapMul(i, -m);
    NegMul(m, i);
    SwapMul(i, m);
    MulMono(i, q, m);
    MulMono(0, i, m);
    SwapDist(i, 1, m);
    if i < q {
      MulMono(i + 1, q, m);
    }
  }

  lemma NegativeCell(m: int, bits: nat)
    requires bits >= 1 && 0 < m <= Half(bits)
    ensures AsCell(-m, bits) == Word(bits) - m
  {
    WordIs(bits);
    hide Word, Half;
    DivModUnique(-m, Word(bits), -1, Word(bits) - m);
  }

  lemma RoundDown(start: nat, limit: nat, m: int, i: nat, bits: nat)
    requires bits >= 1 && 0 < m <= Half(bits) && i <= Minus(start, limit, bits) / m
    ensures Exits(IndexAfter(start, -m, i, bits), limit, AsCell(-m, bits), bits) <==> i == Minus(start, limit, bits) / m
  {
    hide Minus, IndexAfter, Exits, Word, Half;
    DistanceAfter(start, limit, -m, i, bits);
    RoundsDown(Minus(start, limit, bits), m, i);
    NegativeCell(m, bits);
    hide AsCell;
    ExitsDown(IndexAfter(start, -m, i, bits), limit, m, bits);
    ModSmall(Minus(start, limit, bits) - i * m, Word(bits));
  }

  /** Counting down by m it runs for the distance the other way divided by m, and once more. */
  lemma RunsDown(start: nat, limit: nat, m: int, bits: nat)
    requires bits >= 1 && 0 < m <= Half(bits)
    ensures Minus(start, limit, bits) / m >= 0
    ensures RunsFor(start, limit, -m, Minus(start, limit, bits) / m + 1, bits)
  {
    hide Exits, IndexAfter, Minus, AsCell, Half;
    DivNat(Minus(start, limit, bits), m);
    var n, step := Minus(start, limit, bits) / m + 1, -m;
    forall i: nat | i < n
      ensures Exits(IndexAfter(start, step, i, bits), limit, AsCell(step, bits), bits) <==> i == n - 1
    {
      RoundDown(start, limit, m, i, bits);
    }
  }

  /** LOOP ends where +LOOP ends with a step of 1. */
  lemma LoopIsPlusOne(index: nat, limit: nat, bits: nat)
    requires bits >= 2 && index < Word(bits) && limit < Word(bits)
    ensures Add(index, 1, bits) == limit <==> Exits(index, limit, 1, bits)
  {
    Pow2Step(bits - 2);
    assert Half(bits) > 1;
    hide Exits, Half;
    WordIs(bits);
    ExitsUp(index, limit, 1, bits);
    AddIs(index, 1, bits);
    MinusIs(index, limit, bits);
    hide Add, Minus, Word;
  }
}
