/** OPTIMIZE: a sequence of stack words run symbolically and turned into loads, one adjustment of the stack
    pointer, and stores (asm/rv-optim.fth). */
module Optimizer {
  import opened Wrappers
  import opened Machine
  import opened StackCode

  const USABLE: nat := 15

  /** The mark for a register that holds no cell yet. */
  const UNUSED: nat := 99

  /** The compile-time stack before the words: position i (0 is the top) holds the number of its cell. */
  function Start(): (p: seq<nat>)
    ensures |p| == USABLE && forall i :: 0 <= i < USABLE ==> p[i] == i
  {
    seq(USABLE, i => i)
  }

  /** One word on the compile-time stack; None if it would reach below the tracked cells. */
  function Apply(w: Word, p: seq<nat>): Option<seq<nat>> {
    match w
    case Drop => if |p| < 1 then None else Some(p[1..])
    case Dup => if |p| < 1 then None else Some([p[0]] + p)
    case Swap => if |p| < 2 then None else Some([p[1], p[0]] + p[2..])
    case Rot => if |p| < 3 then None else Some([p[2], p[0], p[1]] + p[3..])
  }

  function Picture(ws: seq<Word>): Option<seq<nat>> {
    if ws == [] then Some(Start())
    else match Picture(ws[..|ws| - 1])
         case None => None
         case Some(p) => Apply(ws[|ws| - 1], p)
  }

  /** How many cells the words move the stack pointer by. */
  function Offset(ws: seq<Word>): int {
    if ws == [] then 0
    else Offset(ws[..|ws| - 1]) + Delta(ws[|ws| - 1])
  }

  /** Whether the cell at position i ends up holding something else. */
  predicate Changed(p: seq<nat>, off: int, i: nat)
    requires i < |p|
  {
    p[i] != i - off
  }

  /** The register for position i: a0-a7, t0-t2, t3-t6. */
  function GetRegister(i: nat): nat
    requires i < USABLE
  {
    if i < 8 then 10 + i else if i - 8 < 3 then 5 + (i - 8) else 28 + (i - 8 - 3)
  }

  lemma RegistersDistinct(i: nat, j: nat)
    requires i < USABLE && j < USABLE && GetRegister(i) == GetRegister(j)
    ensures i == j && !Kept(GetRegister(i)) && GetRegister(i) != X0 && GetRegister(i) != S0
  {
  }

  /** What the symbolic run promises about the real one. */
  ghost predicate Depicts(p: seq<nat>, off: int, a: State, b: State) {
    && |p| == USABLE + off
    && b.s0 == a.s0 + CELL * off && b.rest == a.rest && SameKept(a, b)
    && (forall i :: 0 <= i < |p| ==> p[i] < USABLE && At(b, i) == At(a, p[i]))
    && (forall i :: i >= |p| ==> At(b, i) == At(a, i - off))
  }

  /** The symbolic step moves the tracked cells as the word does. */
  lemma ApplyFrom(w: Word, p: seq<nat>)
    requires Apply(w, p).Some?
    ensures var q := Apply(w, p).value;
            && |q| == |p| + Delta(w)
            && (forall i :: 0 <= i < |q| ==> From(w, i) < |p| && q[i] == p[From(w, i)])
            && (forall i :: i >= |q| ==> From(w, i) == i - Delta(w))
  {
  }

  /** DROP and DUP need one tracked cell, SWAP two and ROT three. */
  lemma ApplyDefined(w: Word, p: seq<nat>)
    ensures Apply(w, p).Some? <==> |p| >= match w case Drop => 1 case Dup => 1 case Swap => 2 case Rot => 3
  {
  }

  lemma ApplyDepicts(w: Word, p: seq<nat>, off: int, a: State, b: State, c: State)
    requires Depicts(p, off, a, b) && Effect(w, b, c) && Apply(w, p).Some?
    ensures Depicts(Apply(w, p).value, off + Delta(w), a, c)
  {
    ApplyFrom(w, p);
    hide Apply, From, At;
  }

  /** The sequence without its last word, and what the last word adds. */
  lemma LastWord(ws: seq<Word>)
    requires ws != [] && Picture(ws).Some?
    ensures var n := |ws| - 1;
            && Picture(ws[..n]).Some? && Apply(ws[n], Picture(ws[..n]).value) == Picture(ws)
            && Offset(ws) == Offset(ws[..n]) + Delta(ws[n])
            && PlainAll(ws) == PlainAll(ws[..n]) + Plain(ws[n])
  {
  }

  lemma NothingMoved(st: State, sem: Sem)
    ensures Picture([]) == Some(Start()) && Offset([]) == 0
    ensures Depicts(Start(), 0, st, Exec(PlainAll([]), st, sem))
  {
  }

  /** Running the words one by one does what the compile-time stack says. */
  lemma {:induction false} PictureRight(ws: seq<Word>, st: State, sem: Sem)
    requires Picture(ws).Some?
    ensures Depicts(Picture(ws).value, Offset(ws), st, Exec(PlainAll(ws), st, sem))
  {
    hide *;
    if ws == [] {
      NothingMoved(st, sem);
    } else {
      var n := |ws| - 1;
      LastWord(ws);
      PictureRight(ws[..n], st, sem);
      var mid := Exec(PlainAll(ws[..n]), st, sem);
      ExecConcat(PlainAll(ws[..n]), Plain(ws[n]), st, sem);
      PlainEffect(ws[n], mid, sem);
      ApplyDepicts(ws[n], Picture(ws[..n]).value, Offset(ws[..n]), st, mid, Exec(Plain(ws[n]), mid, sem));
    }
  }

  /** The table USED and the loads emitted so far: reg[i] is the position whose register holds the cell for
      position i, off[i] the cell loaded into the register of position i. */
  datatype Loads = Loads(reg: seq<nat>, off: seq<nat>, code: seq<Instr>)

  function NoLoads(): Loads {
    Loads(seq(USABLE, i => i), seq(USABLE, _ => UNUSED), [])
  }

  /** The first register from k on that holds cell off, or USABLE. */
  function Holder(offs: seq<nat>, off: nat, k: nat): (r: nat)
    requires k <= |offs|
    ensures k <= r <= |offs| && (r < |offs| ==> offs[r] == off)
    ensures forall j :: k <= j < r ==> offs[j] != off
    decreases |offs| - k
  {
    if k == |offs| || offs[k] == off then k else Holder(offs, off, k + 1)
  }

  /** FETCH-REGISTER-OF: reuses a register that holds the cell already, or loads it. */
  function Fetch(l: Loads, i: nat, off: nat): Loads
    requires |l.reg| == |l.off| == USABLE && i < USABLE
  {
    var k := Holder(l.off, off, 0);
    if k < USABLE then l.(reg := l.reg[i := k])
    else Loads(l.reg[i := i], l.off[i := off], l.code + [FetchCell(GetRegister(i), off)])
  }

  /** Whether a changed cell is too deep to have a register. */
  predicate Aborts(p: seq<nat>, off: int) {
    exists i :: USABLE <= i < |p| && Changed(p, off, i)
  }

  /** The loads for the positions from i down to the deepest one, deepest first. */
  function LoadsFrom(p: seq<nat>, off: int, i: nat): (l: Loads)
    requires i <= |p| && !Aborts(p, off)
    ensures |l.reg| == |l.off| == USABLE
    decreases |p| - i
  {
    if i == |p| then NoLoads()
    else
      var l := LoadsFrom(p, off, i + 1);
      if Changed(p, off, i) then Fetch(l, i, p[i] + 1) else l
  }

  /** The table after the loads for the positions from i on: every loaded register holds its cell, every
      changed position knows a register with its cell, and the positions below i have not been loaded. */
  ghost predicate Table(l: Loads, p: seq<nat>, off: int, i: nat) {
    && |l.reg| == |l.off| == USABLE && !Aborts(p, off)
    && (forall k :: 0 <= k < USABLE ==> l.reg[k] < USABLE && l.off[k] >= 1)
    && (forall j :: i <= j < |p| && Changed(p, off, j) ==> l.off[l.reg[j]] == p[j] + 1)
    && (forall k :: 0 <= k < i && k < USABLE ==> l.off[k] == UNUSED)
  }

  ghost predicate Holds(l: Loads, st: State, b: State)
    requires |l.off| == USABLE && forall k :: 0 <= k < USABLE ==> l.off[k] >= 1
  {
    && b.s0 == st.s0 && b.mem == st.mem && b.rest == st.rest && SameKept(st, b)
    && forall k :: 0 <= k < USABLE && l.off[k] != UNUSED ==> Reg(b, GetRegister(k)) == At(st, l.off[k] - 1)
  }

  lemma NotTooDeep(p: seq<nat>, off: int, i: nat)
    requires i < |p| && !Aborts(p, off) && Changed(p, off, i)
    ensures i < USABLE
  {
  }

  lemma FetchTable(l: Loads, p: seq<nat>, off: int, i: nat)
    requires i < |p| && Table(l, p, off, i + 1) && Changed(p, off, i)
    requires forall k :: 0 <= k < |p| ==> p[k] < USABLE
    ensures i < USABLE && Table(Fetch(l, i, p[i] + 1), p, off, i)
  {
    NotTooDeep(p, off, i);
    hide Aborts, GetRegister;
  }

  lemma FetchHolds(l: Loads, i: nat, off: nat, st: State, sem: Sem)
    requires i < USABLE && |l.reg| == |l.off| == USABLE && 1 <= off
    requires forall k :: 0 <= k < USABLE ==> l.off[k] >= 1
    requires l.off[i] == UNUSED && Holds(l, st, Exec(l.code, st, sem))
    ensures var l' := Fetch(l, i, off);
            (forall k :: 0 <= k < USABLE ==> l'.off[k] >= 1) && Holds(l', st, Exec(l'.code, st, sem))
  {
    hide Exec, Step, GetRegister, Reg, At, Holder;
    var b := Exec(l.code, st, sem);
    var load := FetchCell(GetRegister(i), off);
    ExecConcat(l.code, [load], st, sem);
    ExecOne(load, b, sem);
    RegistersDistinct(i, i);
    LoadReg(b, GetRegister(i), off, sem);
    SameMemory(b, st, off - 1);
    forall k | 0 <= k < USABLE && k != i ensures GetRegister(k) != GetRegister(i) {
      if GetRegister(k) == GetRegister(i) {
        RegistersDistinct(k, i);
      }
    }
    if Holder(l.off, off, 0) == USABLE {
      assert Fetch(l, i, off).code == l.code + [load];
    }
  }

  lemma LoadReg(b: State, r: nat, off: nat, sem: Sem)
    requires 1 <= off && r != X0 && r != S0 && !Kept(r)
    ensures var c := Step(FetchCell(r, off), b, sem);
            && c.s0 == b.s0 && c.mem == b.mem && c.rest == b.rest && SameKept(b, c)
            && forall k: nat :: Reg(c, k) == if k == r then At(b, off - 1) else Reg(b, k)
  {
  }

  lemma LoadsStep(p: seq<nat>, off: int, i: nat)
    requires i < |p| && !Aborts(p, off)
    ensures var l := LoadsFrom(p, off, i + 1);
            if Changed(p, off, i) then i < USABLE && LoadsFrom(p, off, i) == Fetch(l, i, p[i] + 1)
            else LoadsFrom(p, off, i) == l
  {
  }

  lemma TableParts(l: Loads, p: seq<nat>, off: int, i: nat)
    requires i < |p| && Table(l, p, off, i + 1)
    ensures |l.reg| == |l.off| == USABLE && forall k :: 0 <= k < USABLE ==> l.off[k] >= 1
    ensures Changed(p, off, i) && i < USABLE ==> l.off[i] == UNUSED
    ensures !Changed(p, off, i) ==> Table(l, p, off, i)
  {
  }

  lemma NoLoadsRight(p: seq<nat>, off: int, st: State, sem: Sem)
    requires !Aborts(p, off)
    ensures var l := LoadsFrom(p, off, |p|);
            Table(l, p, off, |p|) && Holds(l, st, Exec(l.code, st, sem))
  {
  }

  /** After the loads each register in use holds the cell the table says. */
  lemma {:induction false} LoadsRight(p: seq<nat>, off: int, i: nat, st: State, sem: Sem)
    requires i <= |p| && !Aborts(p, off) && forall k :: 0 <= k < |p| ==> p[k] < USABLE
    ensures var l := LoadsFrom(p, off, i);
            Table(l, p, off, i) && Holds(l, st, Exec(l.code, st, sem))
    decreases |p| - i
  {
    hide *;
    if i < |p| {
      LoadsRight(p, off, i + 1, st, sem);
      var l := LoadsFrom(p, off, i + 1);
      LoadsStep(p, off, i);
      TableParts(l, p, off, i);
      if Changed(p, off, i) {
        FetchTable(l, p, off, i);
        FetchHolds(l, i, p[i] + 1, st, sem);
      }
    } else {
      NoLoadsRight(p, off, st, sem);
    }
  }

  /** No cell is loaded twice and no register is loaded twice. */
  ghost predicate LoadsDistinct(code: seq<Instr>) {
    && (forall a :: 0 <= a < |code| ==> code[a].Lx?)
    && forall a, b :: 0 <= a < b < |code| ==> code[a].rd != code[b].rd && code[a].imm != code[b].imm
  }

  ghost predicate IsRecorded(load: Instr, offs: seq<nat>)
    requires |offs| == USABLE
  {
    load.Lx?
    && exists k :: 0 <= k < USABLE && load.rd == GetRegister(k) && load.imm == -CELL * offs[k] && offs[k] != UNUSED
  }

  /** The loads are exactly those the table records. */
  ghost predicate Recorded(l: Loads) {
    && |l.off| == USABLE
    && forall a :: 0 <= a < |l.code| ==> IsRecorded(l.code[a], l.off)
  }

  lemma FetchDistinct(l: Loads, i: nat, off: nat)
    requires |l.reg| == |l.off| == USABLE && i < USABLE && off <= USABLE
    requires l.off[i] == UNUSED && Recorded(l) && LoadsDistinct(l.code)
    ensures Recorded(Fetch(l, i, off)) && LoadsDistinct(Fetch(l, i, off).code)
  {
    var l' := Fetch(l, i, off);
    if Holder(l.off, off, 0) == USABLE {
      forall a | 0 <= a < |l.code|
        ensures l'.code[a].imm != -CELL * off && l'.code[a].rd != GetRegister(i)
        ensures IsRecorded(l'.code[a], l'.off)
      {
        assert IsRecorded(l.code[a], l.off);
        var k :| 0 <= k < USABLE && l.code[a].rd == GetRegister(k)
                && l.code[a].imm == -CELL * l.off[k] && l.off[k] != UNUSED;
        assert l'.off[k] == l.off[k];
      }
      assert l'.off[i] == off;
    }
  }

  lemma {:induction false} LoadsOnce(p: seq<nat>, off: int, i: nat)
    requires i <= |p| && !Aborts(p, off) && forall k :: 0 <= k < |p| ==> p[k] < USABLE
    ensures Table(LoadsFrom(p, off, i), p, off, i)
    ensures Recorded(LoadsFrom(p, off, i)) && LoadsDistinct(LoadsFrom(p, off, i).code)
    decreases |p| - i
  {
    hide *;
    if i < |p| {
      LoadsOnce(p, off, i + 1);
      LoadsStep(p, off, i);
      TableParts(LoadsFrom(p, off, i + 1), p, off, i);
      if Changed(p, off, i) {
        FetchTable(LoadsFrom(p, off, i + 1), p, off, i);
        FetchDistinct(LoadsFrom(p, off, i + 1), i, p[i] + 1);
      }
    } else {
      NoneLoaded(p, off);
    }
  }

  lemma NoneLoaded(p: seq<nat>, off: int)
    requires !Aborts(p, off)
    ensures var l := LoadsFrom(p, off, |p|); Table(l, p, off, |p|) && Recorded(l) && LoadsDistinct(l.code)
  {
  }

  /** The stores for the positions from i down to the deepest one, deepest first. */
  function StoresFrom(p: seq<nat>, off: int, i: nat, reg: seq<nat>): seq<Instr>
    requires i <= |p| && !Aborts(p, off) && |reg| == USABLE && forall k :: 0 <= k < USABLE ==> reg[k] < USABLE
    decreases |p| - i
  {
    if i == |p| then []
    else
      var s := StoresFrom(p, off, i + 1, reg);
      if Changed(p, off, i) then s + [StoreCell(GetRegister(reg[i]), i + 1)] else s
  }

  lemma StoreAt(b: State, r: nat, i: nat, sem: Sem)
    ensures var c := Step(StoreCell(r, i + 1), b, sem);
            && c.s0 == b.s0 && c.regs == b.regs && c.rest == b.rest
            && forall j: nat :: At(c, j) == if j == i then Reg(b, r) else At(b, j)
  {
  }

  /** After the stores each changed position holds the value of its register, the others what they held. */
  lemma {:induction false} StoresRight(p: seq<nat>, off: int, i: nat, reg: seq<nat>, b: State, sem: Sem)
    requires i <= |p| && !Aborts(p, off) && |reg| == USABLE && forall k :: 0 <= k < USABLE ==> reg[k] < USABLE
    ensures var c := Exec(StoresFrom(p, off, i, reg), b, sem);
            && c.s0 == b.s0 && c.regs == b.regs && c.rest == b.rest
            && forall j: nat :: At(c, j) ==
                 if i <= j < |p| && Changed(p, off, j) then Reg(b, GetRegister(reg[j])) else At(b, j)
    decreases |p| - i
  {
    if i < |p| {
      StoresRight(p, off, i + 1, reg, b, sem);
      if Changed(p, off, i) {
        NotTooDeep(p, off, i);
        var s := StoresFrom(p, off, i + 1, reg);
        var store := StoreCell(GetRegister(reg[i]), i + 1);
        assert StoresFrom(p, off, i, reg) == s + [store];
        ExecConcat(s, [store], b, sem);
        ExecOne(store, Exec(s, b, sem), sem);
        hide Exec, Aborts, StoresFrom, GetRegister, Changed;
        StoreAt(Exec(s, b, sem), GetRegister(reg[i]), i, sem);
      }
    }
  }

  lemma {:induction false} PictureRange(ws: seq<Word>)
    requires Picture(ws).Some?
    ensures var p := Picture(ws).value;
            |p| == USABLE + Offset(ws) && forall k :: 0 <= k < |p| ==> p[k] < USABLE
  {
    if ws != [] {
      var n := |ws| - 1;
      PictureRange(ws[..n]);
      ApplyFrom(ws[n], Picture(ws[..n]).value);
    }
  }

  /** The code OPTIMIZE emits for a compile-time stack and the offset that goes with it. */
  function CodeFor(p: seq<nat>, off: int): seq<Instr>
    requires InRange(p, off)
  {
    LoadsOnce(p, off, 0);
    var l := LoadsFrom(p, off, 0);
    l.code + (if off == 0 then [] else [Grow(off)]) + StoresFrom(p, off, 0, l.reg)
  }

  predicate InRange(p: seq<nat>, off: int) {
    |p| == USABLE + off && !Aborts(p, off) && forall k :: 0 <= k < |p| ==> p[k] < USABLE
  }

  function Optimized(ws: seq<Word>): seq<Instr>
    requires Optimizable(ws)
  {
    PictureRange(ws);
    CodeFor(Picture(ws).value, Offset(ws))
  }

  /** The words stay within the tracked cells, leave at least one, and need no more than the registers. */
  predicate Optimizable(ws: seq<Word>) {
    Picture(ws).Some? && Picture(ws).value != [] && !Aborts(Picture(ws).value, Offset(ws))
  }

  lemma DepictsOnce(p: seq<nat>, off: int, a: State, b: State, c: State)
    requires Depicts(p, off, a, b) && Depicts(p, off, a, c)
    ensures Same(b, c)
  {
    forall i: nat
      ensures At(b, i) == At(c, i)
    {
      if i < |p| {
        assert At(b, i) == At(a, p[i]);
      } else {
        assert At(b, i) == At(a, i - off);
      }
    }
  }

  /** The state with the stack pointer moved. */
  function Moved(b: State, off: int): State {
    b.(s0 := b.s0 + CELL * off)
  }

  lemma GrowRight(off: int, b: State, sem: Sem)
    ensures Exec(if off == 0 then [] else [Grow(off)], b, sem) == Moved(b, off)
  {
    if off != 0 {
      ExecOne(Grow(off), b, sem);
    }
  }

  /** Positions keep their cells when the stack pointer moves. */
  lemma MovedAt(b: State, off: int, i: nat)
    requires i - off >= 0
    ensures At(Moved(b, off), i) == At(b, i - off)
  {
  }

  /** Loads, adjustment and stores together do what the compile-time stack says. */
  lemma PartsRight(l: Loads, p: seq<nat>, off: int, st: State, b: State, c: State)
    requires |p| == USABLE + off && Table(l, p, off, 0) && Holds(l, st, b) && b.s0 == st.s0 && b.mem == st.mem
    requires b.rest == st.rest && forall k :: 0 <= k < |p| ==> p[k] < USABLE
    requires c.s0 == b.s0 + CELL * off && c.rest == b.rest && SameKept(st, c)
    requires forall j: nat :: At(c, j) ==
               if j < |p| && Changed(p, off, j) then Reg(Moved(b, off), GetRegister(l.reg[j])) else At(Moved(b, off), j)
    ensures Depicts(p, off, st, c)
  {
    forall i: nat
      ensures At(c, i) == At(st, if i < |p| then p[i] else i - off)
    {
      hide Table, Holds, Aborts, At, GetRegister;
      if i < |p| && Changed(p, off, i) {
        HeldValue(l, p, off, st, b, i);
      } else {
        MovedAt(b, off, i);
        SameMemory(b, st, i - off);
      }
    }
  }

  lemma HeldValue(l: Loads, p: seq<nat>, off: int, st: State, b: State, i: nat)
    requires Table(l, p, off, 0) && Holds(l, st, b) && i < |p| && Changed(p, off, i) && p[i] < USABLE
    ensures i < USABLE && l.reg[i] < USABLE && Reg(b, GetRegister(l.reg[i])) == At(st, p[i])
  {
    NotTooDeep(p, off, i);
  }

  lemma SameMemory(b: State, st: State, i: nat)
    requires b.s0 == st.s0 && b.mem == st.mem
    ensures At(b, i) == At(st, i)
  {
  }

  lemma ExecParts(a: seq<Instr>, off: int, s: seq<Instr>, st: State, sem: Sem)
    ensures Exec(a + (if off == 0 then [] else [Grow(off)]) + s, st, sem) == Exec(s, Moved(Exec(a, st, sem), off), sem)
  {
    var grow := if off == 0 then [] else [Grow(off)];
    ExecConcat(a + grow, s, st, sem);
    ExecConcat(a, grow, st, sem);
    GrowRight(off, Exec(a, st, sem), sem);
  }

  lemma HoldsState(l: Loads, st: State, b: State)
    requires |l.off| == USABLE && (forall k :: 0 <= k < USABLE ==> l.off[k] >= 1) && Holds(l, st, b)
    ensures b.s0 == st.s0 && b.mem == st.mem && b.rest == st.rest && SameKept(st, b)
  {
  }

  lemma KeptOn(st: State, b: State, off: int, c: State)
    requires SameKept(st, b) && c.regs == Moved(b, off).regs
    ensures SameKept(st, c)
  {
  }

  lemma CodeDepicts(p: seq<nat>, off: int, st: State, sem: Sem)
    requires InRange(p, off)
    ensures Depicts(p, off, st, Exec(CodeFor(p, off), st, sem))
  {
    hide LoadsFrom, StoresFrom, Table, Holds, Depicts, At, Exec, Aborts, Moved, SameKept;
    LoadsRight(p, off, 0, st, sem);
    var l := LoadsFrom(p, off, 0);
    var b := Exec(l.code, st, sem);
    TableRegisters(l, p, off);
    HoldsState(l, st, b);
    ExecParts(l.code, off, StoresFrom(p, off, 0, l.reg), st, sem);
    StoresRight(p, off, 0, l.reg, Moved(b, off), sem);
    MovedState(b, off);
    KeptOn(st, b, off, Exec(CodeFor(p, off), st, sem));
    PartsRight(l, p, off, st, b, Exec(CodeFor(p, off), st, sem));
  }

  lemma MovedState(b: State, off: int)
    ensures Moved(b, off).s0 == b.s0 + CELL * off && Moved(b, off).rest == b.rest
  {
  }

  lemma TableRegisters(l: Loads, p: seq<nat>, off: int)
    requires Table(l, p, off, 0)
    ensures |l.reg| == |l.off| == USABLE && forall k :: 0 <= k < USABLE ==> l.reg[k] < USABLE && l.off[k] >= 1
  {
  }

  /** OPTIMIZE preserves meaning: from any state its code leaves the same stack pointer, live cells and other
      state as running the words one by one, and loads no cell and no register twice. */
  lemma OptimizePreserves(ws: seq<Word>, st: State, sem: Sem)
    requires Optimizable(ws)
    ensures Same(Exec(Optimized(ws), st, sem), Exec(PlainAll(ws), st, sem))
    ensures LoadsDistinct(LoadsFrom(Picture(ws).value, Offset(ws), 0).code)
  {
    PictureRange(ws);
    PictureRight(ws, st, sem);
    hide *;
    CodeDepicts(Picture(ws).value, Offset(ws), st, sem);
    DepictsOnce(Picture(ws).value, Offset(ws), st, Exec(Optimized(ws), st, sem), Exec(PlainAll(ws), st, sem));
    LoadsOnce(Picture(ws).value, Offset(ws), 0);
  }

  /** The code of the optimizer and that of each single word write t0-t2, a0-a7 and t3-t6 only, and move s0. */
  lemma OnlyScratch(ws: seq<Word>, w: Word, st: State, sem: Sem, k: nat)
    requires k !in {5, 6, 7, 8} && !(10 <= k <= 17) && !(28 <= k <= 31)
    ensures Optimizable(ws) ==> Reg(Exec(Optimized(ws), st, sem), k) == Reg(st, k)
    ensures Reg(Exec(Plain(w), st, sem), k) == Reg(st, k)
  {
    PlainEffect(w, st, sem);
    hide Exec, Plain, Optimized, Optimizable, Reg;
    if Optimizable(ws) {
      KeptByOptimized(ws, st, sem);
    }
    assert Kept(k);
  }

  lemma KeptByOptimized(ws: seq<Word>, st: State, sem: Sem)
    requires Optimizable(ws)
    ensures SameKept(st, Exec(Optimized(ws), st, sem))
  {
    PictureRange(ws);
    hide Exec, CodeFor, SameKept, Picture;
    CodeDepicts(Picture(ws).value, Offset(ws), st, sem);
  }

  /** Words that stay within the tracked cells, leave one of them and leave the stack no deeper are always optimized. */
  lemma ShallowNeverAborts(ws: seq<Word>)
    requires Picture(ws).Some? && Picture(ws).value != [] && Offset(ws) <= 0
    ensures Optimizable(ws)
  {
    PictureRange(ws);
  }

  /** The code of the optimizer writes no memory but the fifteen cells below the stack pointer and those up to the new
      one. */
  lemma WithinStack(ws: seq<Word>, st: State, sem: Sem, a: int)
    requires Optimizable(ws)
    requires a < st.s0 - 8 * 15 || a >= st.s0 + 8 * Offset(ws) || (st.s0 - a) % 8 != 0
    ensures Cell(Exec(Optimized(ws), st, sem), a) == Cell(st, a)
  {
    PictureRange(ws);
    hide Picture, Offset, CodeFor, Exec, Cell, Aborts;
    CodeWithin(Picture(ws).value, Offset(ws), st, sem, a);
  }

  lemma CodeWithin(p: seq<nat>, off: int, st: State, sem: Sem, a: int)
    requires InRange(p, off) && (a < st.s0 - 8 * 15 || a >= st.s0 + 8 * off || (st.s0 - a) % 8 != 0)
    ensures Cell(Exec(CodeFor(p, off), st, sem), a) == Cell(st, a)
  {
    hide LoadsFrom, StoresFrom, Table, Holds, Exec, Aborts, Moved, Cell;
    LoadsRight(p, off, 0, st, sem);
    var l := LoadsFrom(p, off, 0);
    var b := Exec(l.code, st, sem);
    TableRegisters(l, p, off);
    HoldsState(l, st, b);
    ExecParts(l.code, off, StoresFrom(p, off, 0, l.reg), st, sem);
    MovedMemory(b, off, a);
    StoresElsewhere(p, off, 0, l.reg, Moved(b, off), sem, a);
    SameCell(st, b, a);
  }

  lemma MovedMemory(b: State, off: int, a: int)
    ensures Moved(b, off).s0 == b.s0 + CELL * off && Cell(Moved(b, off), a) == Cell(b, a)
  {
  }

  lemma SameCell(st: State, b: State, a: int)
    requires b.mem == st.mem
    ensures Cell(b, a) == Cell(st, a)
  {
  }

  lemma {:induction false} StoresElsewhere(p: seq<nat>, off: int, i: nat, reg: seq<nat>, b: State, sem: Sem, a: int)
    requires i <= |p| && !Aborts(p, off) && |reg| == USABLE && forall k :: 0 <= k < USABLE ==> reg[k] < USABLE
    requires a < b.s0 - 8 * |p| || a >= b.s0 || (b.s0 - a) % 8 != 0
    ensures Cell(Exec(StoresFrom(p, off, i, reg), b, sem), a) == Cell(b, a)
    decreases |p| - i
  {
    if i < |p| {
      StoresElsewhere(p, off, i + 1, reg, b, sem, a);
      if Changed(p, off, i) {
        NotTooDeep(p, off, i);
        StoresRight(p, off, i + 1, reg, b, sem);
        var s := StoresFrom(p, off, i + 1, reg);
        var store := StoreCell(GetRegister(reg[i]), i + 1);
        assert StoresFrom(p, off, i, reg) == s + [store];
        ExecConcat(s, [store], b, sem);
        ExecOne(store, Exec(s, b, sem), sem);
        hide Exec, Aborts, StoresFrom, GetRegister, Changed, Reg;
        StoreElsewhere(Exec(s, b, sem), GetRegister(reg[i]), i, sem, a);
      }
    }
  }

  lemma StoreElsewhere(b: State, r: nat, i: nat, sem: Sem, a: int)
    requires a != b.s0 - 8 * (1 + i)
    ensures Cell(Step(StoreCell(r, i + 1), b, sem), a) == Cell(b, a)
  {
  }
}
