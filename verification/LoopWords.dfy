/** SYS:LOOP and SYS:+LOOP as words of Forth, against what the C versions do to the same two stacks. */
module LoopWords {
  import opened Arith
  import opened CountedLoop

  datatype Stack = Empty | Push(below: Stack, top: nat)

  /** At least n cells on a stack. */
  predicate Deep(s: Stack, n: nat)
    decreases n
  {
    n == 0 || (s.Push? && Deep(s.below, n - 1))
  }

  class Stacks {
    const bits: Width  // the width of a cell
    var st: Stack
    var rst: Stack

    constructor (bits: Width, st: Stack, rst: Stack)
      ensures this.bits == bits && this.st == st && this.rst == rst
    {
      this.bits, this.st, this.rst := bits, st, rst;
    }

    /** The cell with all bits set. */
    function True(): nat {
      Word(bits) - 1
    }

    method PushCell(x: nat)
      modifies `st
      ensures st == Push(old(st), x)
    {
      st := Push(st, x);
    }

    method Pop() returns (x: nat)
      requires st.Push?
      modifies `st
      ensures old(st) == Push(st, x)
    {
      x := st.top;
      st := st.below;
    }

    method ToR()
      requires st.Push?
      modifies this
      ensures st == old(st).below && rst == Push(old(rst), old(st).top)
    {
      rst := Push(rst, st.top);
      st := st.below;
    }

    method RFrom()
      requires rst.Push?
      modifies this
      ensures rst == old(rst).below && st == Push(old(st), old(rst).top)
    {
      st := Push(st, rst.top);
      rst := rst.below;
    }

    method RFetch()
      requires rst.Push?
      modifies `st
      ensures st == Push(old(st), rst.top)
    {
      st := Push(st, rst.top);
    }

    method Dup()
      requires st.Push?
      modifies `st
      ensures st == Push(old(st), old(st).top)
    {
      st := Push(st, st.top);
    }

    method Drop()
      requires st.Push?
      modifies `st
      ensures st == old(st).below
    {
      st := st.below;
    }

    method TwoDrop()
      requires Deep(st, 2)
      modifies `st
      ensures st == old(st).below.below
    {
      st := st.below.below;
    }

    method Swap()
      requires Deep(st, 2)
      modifies `st
      ensures var a, b, s := old(st).below.top, old(st).top, old(st).below.below; st == Push(Push(s, b), a)
    {
      st := Push(Push(st.below.below, st.top), st.below.top);
    }

    method Over()
      requires Deep(st, 2)
      modifies `st
      ensures st == Push(old(st), old(st).below.top)
    {
      st := Push(st, st.below.top);
    }

    method Rot()
      requires Deep(st, 3)
      modifies `st
      ensures var a, b, c, s := old(st).below.below.top, old(st).below.top, old(st).top, old(st).below.below.below;
              st == Push(Push(Push(s, b), c), a)
    {
      st := Push(Push(Push(st.below.below.below, st.below.top), st.top), st.below.below.top);
    }

    method Plus()
      requires Deep(st, 2)
      modifies `st
      ensures st == Push(old(st).below.below, Add(old(st).below.top, old(st).top, bits))
    {
      st := Push(st.below.below, Add(st.below.top, st.top, bits));
    }

    method Subtract()
      requires Deep(st, 2)
      modifies `st
      ensures st == Push(old(st).below.below, Minus(old(st).below.top, old(st).top, bits))
    {
      st := Push(st.below.below, Minus(st.below.top, st.top, bits));
    }

    method XorTop()
      requires Deep(st, 2)
      modifies `st
      ensures st == Push(old(st).below.below, Xor(old(st).below.top, old(st).top, bits))
    {
      st := Push(st.below.below, Xor(st.below.top, st.top, bits));
    }

    method AndTop()
      requires Deep(st, 2)
      modifies `st
      ensures st == Push(old(st).below.below, And(old(st).below.top, old(st).top, bits))
    {
      st := Push(st.below.below, And(st.below.top, st.top, bits));
    }

    /** What +LOOP leaves: the flag, -1 or 0, and either no loop frame or one with the new index. */
    ghost predicate Looped(st0: Stack, rst0: Stack, index: nat, exits: bool)
      requires Deep(rst0, 3)
      reads this
    {
      var ra, limit, frame := rst0.top, rst0.below.top, rst0.below.below.below;
      && st == Push(st0, AsCell(if exits then -1 else 0, bits)) && (st.top != 0 <==> exits)
      && rst == Push(if exits then frame else Push(Push(frame, index), limit), ra)
    }

    /** SYS_LOOP_impl_c */
    method CLoop()
      requires Deep(rst, 3)
      modifies this
      ensures var index, limit := old(rst).below.below.top, old(rst).below.top;
              Looped(old(st), old(rst), Add(index, 1, bits), Add(index, 1, bits) == limit)
    {
      FlagCells(bits);
      var ra, limit, index := rst.top, rst.below.top, rst.below.below.top;
      rst := rst.below.below.below;
      index := Add(index, 1, bits);
      if index == limit {
        PushCell(True());
      } else {
        PushCell(0);
        rst := Push(Push(rst, index), limit);
      }
      rst := Push(rst, ra);
    }

    /** SYS_plus_LOOP_impl_c */
    method CPlusLoop()
      requires Deep(rst, 3) && st.Push?
      modifies this
      ensures var index, limit, step := old(rst).below.below.top, old(rst).below.top, old(st).top;
              Looped(old(st).below, old(rst), Add(index, step, bits), Exits(index, limit, step, bits))
    {
      FlagCells(bits);
      var ra, limit, index := rst.top, rst.below.top, rst.below.below.top;
      rst := rst.below.below.below;
      var step := Pop();
      var gap := index;
      index := Add(index, step, bits);
      gap := Minus(gap, limit, bits);
      if Negative(And(Xor(gap, Add(gap, step, bits), bits), Xor(gap, step, bits), bits), bits) {
        PushCell(True());
      } else {
        PushCell(0);
        rst := Push(Push(rst, index), limit);
      }
      rst := Push(rst, ra);
    }

    /** SYS:LOOP */
    method ForthLoop()
      requires Deep(rst, 3)
      modifies this
      ensures var index, limit := old(rst).below.below.top, old(rst).below.top;
              Looped(old(st), old(rst), Add(index, 1, bits), Add(index, 1, bits) == limit)
    {
      FlagCells(bits);
      hide Add, AsCell;
      RFrom();
      RFrom();
      RFrom();
      PushCell(1);
      Plus();
      Over();
      Over();
      var b := Pop();
      var a := Pop();
      if a == b {
        TwoDrop();
        PushCell(True());
      } else {
        ToR();
        ToR();
        PushCell(0);
      }
      Swap();
      ToR();
    }

    /** The first half of SYS:+LOOP: the two loop cells and the step, taken apart for the test. */
    method Distances()
      requires Deep(rst, 3) && st.Push?
      modifies this
      ensures var index, limit, step, ra := old(rst).below.below.top, old(rst).below.top, old(st).top, old(rst).top;
              && st == Push(Push(Push(Push(old(st).below, ra), limit), Minus(index, limit, bits)),
                         Add(step, index, bits))
              && rst == Push(old(rst).below.below.below, step)
    {
      hide Add, Minus;
      RFrom();
      Swap();
      RFrom();
      RFrom();
      Rot();
      ToR();
      RFetch();
      Over();
      Plus();
      ToR();
      Over();
      Subtract();
      RFrom();
    }

    /** The test: the step stays on the return stack. */
    method Test() returns (flag: bool)
      requires Deep(st, 2) && rst.Push?
      modifies this
      ensures st == old(st) && rst == old(rst)
      ensures var gap, step := old(st).below.top, old(rst).top;
              flag == Negative(And(Xor(gap, step, bits), Xor(gap, Add(gap, step, bits), bits), bits), bits)
    {
      hide Add, And, Xor;
      Over();
      Dup();
      RFetch();
      Plus();
      XorTop();
      ToR();
      Over();
      RFrom();
      RFetch();
      Swap();
      ToR();
      XorTop();
      RFrom();
      AndTop();
      var x := Pop();
      flag := Negative(x, bits);
    }

    /** SYS:+LOOP */
    method ForthPlusLoop()
      requires Deep(rst, 3) && st.Push?
      modifies this
      ensures var index, limit, step := old(rst).below.below.top, old(rst).below.top, old(st).top;
              Looped(old(st).below, old(rst), Add(index, step, bits), Exits(index, limit, step, bits))
    {
      FlagCells(bits);
      ghost var index, limit, step := rst.below.below.top, rst.below.top, st.top;
      Distances();
      var flag := Test();
      EitherOrder(Minus(index, limit, bits), index, step, bits);
      hide Add, Minus, And, Xor, AsCell;
      if flag {
        RFrom();
        TwoDrop();
        TwoDrop();
        PushCell(True());
      } else {
        RFrom();
        Drop();
        ToR();
        Drop();
        ToR();
        PushCell(0);
      }
      Swap();
      ToR();
    }
  }

  /** -1 is the cell with all bits set, which is not 0. */
  lemma FlagCells(bits: Width)
    ensures AsCell(-1, bits) == Word(bits) - 1 > 0 && AsCell(0, bits) == 0
  {
    WordIs(bits);
    DivModUnique(-1, Word(bits), -1, Word(bits) - 1);
    ModSmall(0, Word(bits));
  }

  lemma EitherOrder(gap: nat, index: nat, step: nat, bits: Width)
    ensures Add(step, index, bits) == Add(index, step, bits)
    ensures Negative(And(Xor(gap, step, bits), Xor(gap, Add(gap, step, bits), bits), bits), bits)
       <==> Negative(And(Xor(gap, Add(gap, step, bits), bits), Xor(gap, step, bits), bits), bits)
  {
    hide And, Xor;
    Signs(Xor(gap, step, bits), Xor(gap, Add(gap, step, bits), bits), bits);
    Signs(Xor(gap, Add(gap, step, bits), bits), Xor(gap, step, bits), bits);
  }
}
