/** The compiler's control-flow words for RISC-V: they append instructions at HERE, keep four-cell items with the
    places of unfinished branches on the control-flow stack, and fill in the branches later. Between them the
    optimizer works on the same code. */
module ControlWords {
  import opened RiscvAsm
  import opened Machine
  import opened StackCode
  import opened CodeQueue
  import opened Structured
  import opened Programs

  /** Stands for the address of asmgen_BEQ_OR_JAL, the only function ever stored in an item. */
  const BEQ_OR_JAL: int := 1

  /** The code with the instructions g written over it at index at, possibly beyond its end. */
  function Patched(code: seq<Instr>, at: nat, g: seq<Instr>): seq<Instr>
    requires at <= |code|
  {
    code[..at] + g + (if at + |g| <= |code| then code[at + |g|..] else [])
  }

  /** A stack with the four cells from position lo on moved to the top. */
  function Rolled(st: seq<int>, lo: nat): (r: seq<int>)
    requires lo + 4 <= |st|
    ensures |r| == |st|
  {
    st[..lo] + st[lo + 4..] + st[lo..lo + 4]
  }

  /** The same, done k times. */
  function RolledTimes(st: seq<int>, lo: nat, k: nat): (r: seq<int>)
    requires lo + 4 <= |st|
    ensures |r| == |st|
  {
    if k == 0 then st else Rolled(RolledTimes(st, lo, k - 1), lo)
  }

  lemma RolledOnce(a: seq<int>, x: seq<int>, b: seq<int>, c: seq<int>)
    requires |x| == 4
    ensures Rolled(a + (x + b) + c, |a|) == a + b + (c + x)
  {
  }

  /** What k rolls leave: the cells from lo on turned round by k items. */
  lemma {:induction false} RolledBy(st: seq<int>, lo: nat, k: nat)
    requires lo + 4 <= |st| && lo + 4 * k <= |st|
    ensures RolledTimes(st, lo, k) == st[..lo] + st[lo + 4 * k..] + st[lo..lo + 4 * k]
  {
    if k > 0 {
      RolledBy(st, lo, k - 1);
      hide Rolled;
      var n := lo + 4 * k;
      assert st[n - 4..] == st[n - 4..n] + st[n..];
      assert st[lo..n] == st[lo..n - 4] + st[n - 4..n];
      RolledOnce(st[..lo], st[n - 4..n], st[n..], st[lo..n - 4]);
    }
  }

  /** Rolling an item up as often as there are items restores the stack. */
  lemma RolledRound(st: seq<int>, d: nat)
    requires 4 * (d + 1) <= |st|
    ensures RolledTimes(st, |st| - 4 * (d + 1), d + 1) == st
  {
    var lo := |st| - 4 * (d + 1);
    RolledBy(st, lo, d + 1);
    hide *;
    assert st == st[..lo] + [] + st[lo..];
  }

  /** Writing over the first instructions of a stretch of code. */
  lemma PatchedMiddle(a: seq<Instr>, b: seq<Instr>, c: seq<Instr>, g: seq<Instr>)
    requires |g| <= |b|
    ensures Patched(a + b + c, |a|, g) == a + (g + b[|g|..]) + c
  {
  }

  /** The two slots IF reserves, filled in by THEN. */
  lemma FilledForward(a: seq<Instr>, c: seq<Instr>, imm: int)
    ensures |BeqOrJal(X0, A2, imm)| <= 2
    ensures Patched(a + [BranchTo(A2, X0, 0), NOP] + c, |a|, BeqOrJal(X0, A2, imm)) == a + Forward(imm) + c
  {
    hide BranchTo, SkipTo, JumpTo, Fits;
    var b := [BranchTo(A2, X0, 0), NOP];
    PatchedMiddle(a, b, c, BeqOrJal(X0, A2, imm));
    assert BeqOrJal(X0, A2, imm) + b[|BeqOrJal(X0, A2, imm)|..] == Forward(imm);
  }

  /** The same with an instruction more at the end. */
  lemma FilledForwardAnd(a: seq<Instr>, c: seq<Instr>, j: Instr, imm: int)
    ensures Patched(a + [BranchTo(A2, X0, 0), NOP] + c + [j], |a|, BeqOrJal(X0, A2, imm)) == a + Forward(imm) + c + [j]
  {
    hide *;
    FilledForward(a, c + [j], imm);
    assert a + [BranchTo(A2, X0, 0), NOP] + c + [j] == a + [BranchTo(A2, X0, 0), NOP] + (c + [j]);
    assert a + Forward(imm) + c + [j] == a + Forward(imm) + (c + [j]);
  }

  /** The slot AHEAD reserves, filled in by THEN. */
  lemma FilledJump(a: seq<Instr>, c: seq<Instr>, imm: int)
    ensures Patched(a + [JumpTo(0)] + c, |a|, [JumpTo(imm)]) == a + [JumpTo(imm)] + c
  {
    hide JumpTo;
    PatchedMiddle(a, [JumpTo(0)], c, [JumpTo(imm)]);
  }

  /** Two instructions written one after the other, and the first one written again. */
  lemma PatchedTwice(code: seq<Instr>, at: nat, a: Instr, b: Instr, c: Instr)
    requires at <= |code|
    ensures Patched(Patched(Patched(code, at, [a]), at + 1, [b]), at, [c]) == Patched(code, at, [c, b])
  {
  }

  lemma PatchedGrows(code: seq<Instr>, at: nat, a: Instr, b: Instr)
    requires at <= |code|
    ensures at + 1 <= |Patched(code, at, [a])| && at <= |Patched(Patched(code, at, [a]), at + 1, [b])|
  {
  }

  /** The forward branch or jump of an item, whose place is at index i. */
  ghost predicate Item(item: seq<int>, base: int, i: nat, size: nat) {
    && |item| == 4 && item[0] == base + 4 * i && item[1] >= 0 && item[2] >= 0
    && (item[3] == 0 || item[3] == BEQ_OR_JAL)
    && i + (if item[3] == 0 then 1 else 2) <= size
  }

  lemma ItemOnTop(st: seq<int>, base: int, i: nat, size: nat, branch: bool)
    requires i + (if branch then 2 else 1) <= size
    ensures var item := if branch then [base + 4 * i, A2, X0, BEQ_OR_JAL] else [base + 4 * i, 0, 0, 0];
            var s := st + item;
            && Item(item, base, i, size) && s[|s| - 4..] == item && s[..|s| - 4] == st
            && (item[3] != 0 <==> branch)
  {
  }

  lemma LaidOut(o: seq<Instr>, a: seq<Instr>, b: seq<Instr>)
    ensures var imm, jump := 4 * (2 + |a| + 1), 4 * (1 + |b|);
            o + PopCode() + Forward(imm) + a + [JumpTo(jump)] + b == o + IfElseCode(a, b)
    ensures o + PopCode() + Forward(4 * (2 + |a|)) + a == o + IfCode(a)
  {
    hide PopCode, Forward, JumpTo;
    SixParts(o, PopCode(), Forward(4 * (2 + |a| + 1)), a, [JumpTo(4 * (1 + |b|))], b);
  }

  lemma LoopsLaidOut(o: seq<Instr>, test: seq<Instr>, b: seq<Instr>)
    ensures o + b + PopCode() + BeqOrJal(A2, X0, -4 * (|b| + 2)) == o + UntilCode(b)
    ensures var out, back := 4 * (2 + |b| + 1), -4 * (|test| + 4 + |b|);
            o + test + PopCode() + Forward(out) + b + [JumpTo(back)] == o + WhileCode(test, b)
    ensures o + b + [JumpTo(-4 * |b|)] == o + ForeverCode(b)
  {
    hide PopCode, Forward, JumpTo, BeqOrJal;
    SixParts(o, test, PopCode(), Forward(4 * (2 + |b| + 1)), b, [JumpTo(-4 * (|test| + 4 + |b|))]);
  }

  lemma SixParts(o: seq<Instr>, a: seq<Instr>, b: seq<Instr>, c: seq<Instr>, d: seq<Instr>, e: seq<Instr>)
    ensures o + a + b + c + d + e == o + (a + b + c + d + e)
  {
  }

  lemma DistanceIsEven(k: int)
    ensures 4 * k % 2 == 0 && -4 * k % 2 == 0
  {
    TwiceIsEven(2 * k);
    TwiceIsEven(-2 * k);
  }

  lemma TwiceIsEven(j: int)
    ensures 2 * j % 2 == 0
  {
  }

  class ControlFlowCompiler {
    const queue: Compiler         // the code up to HERE, with CSRI and the optimizer's variables
    var st: seq<int>              // the control-flow stack, deepest cell first

    constructor (queue: Compiler)
      ensures this.queue == queue && st == []
    {
      this.queue := queue;
      st := [];
    }

    /** Emits one instruction at an index and moves the index on. */
    method Emit(i: Instr, at: nat) returns (next: nat)
      requires at <= |queue.code|
      modifies queue`code
      ensures queue.code == Patched(old(queue.code), at, [i]) && next == at + 1
    {
      queue.code := if at == |queue.code| then queue.code + [i] else queue.code[at := i];
      next := at + 1;
    }

    method Push(x: int)
      modifies `st
      ensures st == old(st) + [x]
    {
      st := st + [x];
    }

    method Pop() returns (x: int)
      requires st != []
      modifies `st
      ensures old(st) == st + [x]
    {
      x := st[|st| - 1];
      st := st[..|st| - 1];
    }

    /** asmgen_BEQ_OR_JAL: the long form writes its first instruction again once it knows its own length. */
    method EmitBeqOrJal(rs1: nat, rs2: nat, imm: int, at: nat) returns (next: nat)
      requires at <= |queue.code| && imm % 2 == 0
      modifies queue`code
      ensures queue.code == Patched(old(queue.code), at, BeqOrJal(rs1, rs2, imm))
           && next == at + |BeqOrJal(rs1, rs2, imm)|
    {
      if Fits(imm) {
        next := Emit(BranchTo(rs1, rs2, imm), at);
      } else {
        hide Patched, SkipTo, JumpTo, BranchTo;
        PatchedTwice(queue.code, at, SkipTo(rs1, rs2, 0), JumpTo(imm - 4), SkipTo(rs1, rs2, 8));
        PatchedGrows(queue.code, at, SkipTo(rs1, rs2, 0), JumpTo(imm - 4));
        next := Emit(SkipTo(rs1, rs2, 0), at);
        next := Emit(JumpTo(imm - 4 * (next - at)), next);
        var _ := Emit(SkipTo(rs1, rs2, 4 * (next - at)), at);
      }
    }

    method EmitBeqOrJalNop(rs1: nat, rs2: nat, imm: int, at: nat) returns (next: nat)
      requires at <= |queue.code| && imm % 2 == 0
      modifies queue`code
      ensures queue.code == Patched(old(queue.code), at,
                                    BeqOrJal(rs1, rs2, imm) + if Fits(imm) then [Addi(0, 0, 0)] else [])
      ensures next == at + 2
    {
      if Fits(imm) {
        next := Emit(BranchTo(rs1, rs2, imm), at);
        next := Emit(NOP, next);
      } else {
        next := EmitBeqOrJal(rs1, rs2, imm, at);
      }
    }

    /** Appends the instructions that take the flag. */
    method EmitPop()
      modifies queue`code
      ensures queue.code == old(queue.code) + PopCode() == old(queue.code) + [Addi(8, 8, -8), Lx(12, 8, 0)]
    {
      var here := Emit(Addi(S0, S0, -CELL), |queue.code|);
      here := Emit(Lx(A2, S0, 0), here);
    }

    method If()
      modifies `st, queue`code, queue`csri
      ensures queue.code == old(queue.code) + PopCode() + [BranchTo(A2, X0, 0), NOP]
      ensures st == old(st) + [queue.base + 4 * (|old(queue.code)| + 2), A2, X0, BEQ_OR_JAL]
      ensures queue.csri == old(queue.csri) + 1 && (old(queue.Ready()) ==> queue.Bumped())
    {
      queue.csri := queue.csri + 1;
      EmitPop();
      Push(queue.Here());
      Push(A2);
      Push(X0);
      Push(BEQ_OR_JAL);
      var _ := EmitBeqOrJalNop(A2, X0, 0, |queue.code|);
    }

    method Ahead()
      modifies `st, queue`code, queue`csri
      ensures queue.code == old(queue.code) + [JumpTo(0)]
      ensures st == old(st) + [queue.base + 4 * |old(queue.code)|, 0, 0, 0]
      ensures queue.csri == old(queue.csri) + 1 && (old(queue.Ready()) ==> queue.Bumped())
    {
      queue.csri := queue.csri + 1;
      Push(queue.Here());
      Push(0);
      Push(0);
      Push(0);
      var _ := Emit(JumpTo(0), |queue.code|);
    }

    method Begin()
      modifies `st, queue`code, queue`csri
      ensures queue.code == old(queue.code)
      ensures st == old(st) + [queue.base + 4 * |old(queue.code)|, 0, 0, 0]
      ensures queue.csri == old(queue.csri) + 1 && (old(queue.Ready()) ==> queue.Bumped())
    {
      queue.csri := queue.csri + 1;
      Push(queue.Here());
      Push(0);
      Push(0);
      Push(0);
    }

    /** Resolves the item on top to HERE, writing over the instructions that keep its place. */
    method Then(ghost i: nat)
      requires |st| >= 4 && Item(st[|st| - 4..], queue.base, i, |queue.code|)
      modifies `st, queue`code, queue`csri
      ensures st == old(st)[..|old(st)| - 4]
      ensures queue.csri == old(queue.csri) + 1 && (old(queue.Ready()) ==> queue.Bumped())
      ensures var item, imm := old(st)[|old(st)| - 4..], 4 * (|old(queue.code)| - i);
              queue.code == Patched(old(queue.code), i,
                                    if item[3] == 0 then [JumpTo(imm)] else BeqOrJal(item[2], item[1], imm))
    {
      queue.csri := queue.csri + 1;
      var cond := Pop();
      var reg0 := Pop();
      var reg1 := Pop();
      var addr := Pop();
      var at := (addr - queue.base) / 4;
      assert at == i;
      if cond != 0 {
        DistanceIsEven(|queue.code| - i);
        var _ := EmitBeqOrJal(reg0, reg1, queue.Here() - addr, at);
      } else {
        var _ := Emit(JumpTo(queue.Here() - addr), at);
      }
    }

    /** Takes d off the stack and moves the item d items below the top to the top. */
    method CsRoll()
      requires st != [] && st[|st| - 1] >= 0 && 4 * (st[|st| - 1] + 1) < |st|
      modifies `st, queue`code, queue`csri
      ensures var d, n := old(st)[|old(st)| - 1], |old(st)| - 1; st == Rolled(old(st)[..n], n - 4 * (d + 1))
      ensures queue.code == old(queue.code)
      ensures queue.csri == old(queue.csri) + 1 && (old(queue.Ready()) ==> queue.Bumped())
    {
      queue.csri := queue.csri + 1;
      var d := Pop();
      var lo := |st| - (d + 1) * 4;
      var top := st[lo..lo + 4];
      st := st[..lo] + st[lo + 4..] + st[|st| - 4..];
      st := st[..|st| - 4] + top;
    }

    method Else(ghost i: nat)
      requires |st| >= 4 && Item(st[|st| - 4..], queue.base, i, |queue.code|)
      modifies `st, queue`code, queue`csri
      ensures st == old(st)[..|old(st)| - 4] + [queue.base + 4 * |old(queue.code)|, 0, 0, 0]
      ensures queue.csri == old(queue.csri) + 3 && (old(queue.Ready()) ==> queue.Bumped())
      ensures var item, imm := old(st)[|old(st)| - 4..], 4 * (|old(queue.code)| + 1 - i);
              queue.code == Patched(old(queue.code) + [JumpTo(0)], i,
                              if item[3] == 0 then [JumpTo(imm)] else BeqOrJal(item[2], item[1], imm))
    {
      Ahead();
      Push(1);
      CsRoll();
      Then(i);
    }

    method While()
      requires |st| >= 4
      modifies `st, queue`code, queue`csri
      ensures queue.code == old(queue.code) + PopCode() + [BranchTo(A2, X0, 0), NOP]
      ensures st == old(st)[..|old(st)| - 4] + [queue.base + 4 * (|old(queue.code)| + 2), A2, X0, BEQ_OR_JAL]
                 + old(st)[|old(st)| - 4..]
      ensures queue.csri == old(queue.csri) + 2 && (old(queue.Ready()) ==> queue.Bumped())
    {
      If();
      Push(1);
      CsRoll();
    }

    /** Appends the test and the branch back to the destination on top. */
    method Until(ghost i: nat)
      requires |st| >= 4 && st[|st| - 4] == queue.base + 4 * i && i <= |queue.code|
      modifies `st, queue`code, queue`csri
      ensures st == old(st)[..|old(st)| - 4]
      ensures queue.csri == old(queue.csri) + 1 && (old(queue.Ready()) ==> queue.Bumped())
      ensures queue.code == old(queue.code) + PopCode() + BeqOrJal(A2, X0, -4 * (|old(queue.code)| - i + 2))
    {
      hide BeqOrJal, PopCode;
      queue.csri := queue.csri + 1;
      st := st[..|st| - 3];
      var addr := Pop();
      EmitPop();
      assert addr - queue.Here() == -4 * (|old(queue.code)| - i + 2);
      DistanceIsEven(|old(queue.code)| - i + 2);
      var _ := EmitBeqOrJal(A2, X0, addr - queue.Here(), |queue.code|);
    }

    /** Appends the jump back to the destination on top. */
    method Again(ghost i: nat)
      requires |st| >= 4 && st[|st| - 4] == queue.base + 4 * i && i <= |queue.code|
      modifies `st, queue`code, queue`csri
      ensures st == old(st)[..|old(st)| - 4]
      ensures queue.csri == old(queue.csri) + 1 && (old(queue.Ready()) ==> queue.Bumped())
      ensures queue.code == old(queue.code) + [JumpTo(-4 * (|old(queue.code)| - i))]
    {
      queue.csri := queue.csri + 1;
      st := st[..|st| - 3];
      var addr := Pop();
      var _ := Emit(JumpTo(addr - queue.Here()), |queue.code|);
    }

    method Repeat(ghost i: nat, ghost j: nat)
      requires |st| >= 8 && st[|st| - 4] == queue.base + 4 * i && i <= |queue.code|
      requires Item(st[|st| - 8..|st| - 4], queue.base, j, |queue.code|)
      modifies `st, queue`code, queue`csri
      ensures st == old(st)[..|old(st)| - 8]
      ensures queue.csri == old(queue.csri) + 2 && (old(queue.Ready()) ==> queue.Bumped())
      ensures var item, imm := old(st)[|old(st)| - 8..|old(st)| - 4], 4 * (|old(queue.code)| + 1 - j);
              queue.code == Patched(old(queue.code) + [JumpTo(-4 * (|old(queue.code)| - i))], j,
                              if item[3] == 0 then [JumpTo(imm)] else BeqOrJal(item[2], item[1], imm))
    {
      Again(i);
      Then(j);
    }

    /** Plain words, with the optimizer at work. */
    method Stretch(es: seq<Event>) returns (aborted: bool)
      requires queue.Valid() && queue.segs == [] && WithinCells(es)
      modifies queue, queue.usedReg, queue.usedOff
      ensures aborted <==> !Compilable(es)
      ensures !aborted ==> queue.Valid() && queue.code == old(queue.code) + StretchCode(es, true)
    {
      var n;
      n, aborted := queue.CompileAll(es);
    }

    method CompileIf(p: Program) returns (aborted: bool)
      requires queue.Valid() && p.If? && AllWithin(p.t)
      modifies `st, queue, queue.usedReg, queue.usedOff
      ensures aborted <==> !AllCompilable(p.t)
      ensures !aborted ==> queue.Valid() && queue.segs == [] && st == old(st)
      ensures !aborted ==> queue.code == old(queue.code) + IfCode(Code(p.t))
      decreases p, 1
    {
      hide *;
      queue.ValidReady();
      ghost var a := queue.code + PopCode();
      If();
      queue.StartOver();
      aborted := Compile(p.t);
      if aborted {
        return;
      }
      queue.ValidReady();
      FilledForward(a, Code(p.t), 4 * (2 + |Code(p.t)|));
      ItemOnTop(old(st), queue.base, |a|, |queue.code|, true);
      Then(|a|);
      queue.StartOver();
      LaidOut(old(queue.code), Code(p.t), []);
    }

    /** IF t ELSE: the jump over the second branch is left open. */
    method CompileToElse(p: Program) returns (aborted: bool)
      requires queue.Valid() && p.IfElse? && AllWithin(p.t) && AllWithin(p.e)
      modifies `st, queue, queue.usedReg, queue.usedOff
      ensures aborted <==> !AllCompilable(p.t)
      ensures !aborted ==> queue.Valid() && queue.segs == []
      ensures !aborted ==>
                && queue.code == old(queue.code) + PopCode() + Forward(4 * (2 + |Code(p.t)| + 1))
                   + Code(p.t) + [JumpTo(0)]
                && st == old(st) + [queue.base + 4 * (|queue.code| - 1), 0, 0, 0]
      decreases p, 0
    {
      hide *;
      queue.ValidReady();
      ghost var a := queue.code + PopCode();
      If();
      queue.StartOver();
      aborted := Compile(p.t);
      if aborted {
        return;
      }
      queue.ValidReady();
      FilledForwardAnd(a, Code(p.t), JumpTo(0), 4 * (2 + |Code(p.t)| + 1));
      ItemOnTop(old(st), queue.base, |a|, |queue.code|, true);
      Else(|a|);
      queue.StartOver();
    }

    method CompileIfElse(p: Program) returns (aborted: bool)
      requires queue.Valid() && p.IfElse? && AllWithin(p.t) && AllWithin(p.e)
      modifies `st, queue, queue.usedReg, queue.usedOff
      ensures aborted <==> !AllCompilable(p.t) || !AllCompilable(p.e)
      ensures !aborted ==> queue.Valid() && queue.segs == [] && st == old(st)
      ensures !aborted ==> queue.code == old(queue.code) + IfElseCode(Code(p.t), Code(p.e))
      decreases p, 1
    {
      hide *;
      queue.ValidReady();
      aborted := CompileToElse(p);
      if aborted {
        return;
      }
      queue.ValidReady();
      ghost var b := old(queue.code) + PopCode() + Forward(4 * (2 + |Code(p.t)| + 1)) + Code(p.t);
      aborted := Compile(p.e);
      if aborted {
        return;
      }
      queue.ValidReady();
      FilledJump(b, Code(p.e), 4 * (1 + |Code(p.e)|));
      ItemOnTop(old(st), queue.base, |b|, |queue.code|, false);
      Then(|b|);
      queue.StartOver();
      LaidOut(old(queue.code), Code(p.t), Code(p.e));
    }

    method CompileUntil(p: Program) returns (aborted: bool)
      requires queue.Valid() && p.Until? && AllWithin(p.body)
      modifies `st, queue, queue.usedReg, queue.usedOff
      ensures aborted <==> !AllCompilable(p.body)
      ensures !aborted ==> queue.Valid() && queue.segs == [] && st == old(st)
      ensures !aborted ==> queue.code == old(queue.code) + UntilCode(Code(p.body))
      decreases p, 1
    {
      hide *;
      queue.ValidReady();
      Begin();
      queue.StartOver();
      aborted := Compile(p.body);
      if aborted {
        return;
      }
      queue.ValidReady();
      Until(|old(queue.code)|);
      queue.StartOver();
      LoopsLaidOut(old(queue.code), [], Code(p.body));
    }

    method CompileWhile(p: Program) returns (aborted: bool)
      requires queue.Valid() && p.While? && AllWithin(p.test) && AllWithin(p.body)
      modifies `st, queue, queue.usedReg, queue.usedOff
      ensures aborted <==> !AllCompilable(p.test) || !AllCompilable(p.body)
      ensures !aborted ==> queue.Valid() && queue.segs == [] && st == old(st)
      ensures !aborted ==> queue.code == old(queue.code) + WhileCode(Code(p.test), Code(p.body))
      decreases p, 1
    {
      hide *;
      queue.ValidReady();
      Begin();
      queue.StartOver();
      aborted := Compile(p.test);
      if aborted {
        return;
      }
      queue.ValidReady();
      ghost var a := queue.code + PopCode();
      While();
      queue.StartOver();
      aborted := Compile(p.body);
      if aborted {
        return;
      }
      queue.ValidReady();
      ghost var back, out := JumpTo(-4 * (|Code(p.test)| + 4 + |Code(p.body)|)), 4 * (2 + |Code(p.body)| + 1);
      FilledForwardAnd(a, Code(p.body), back, out);
      ItemOnTop(old(st), queue.base, |a|, |queue.code|, true);
      Repeat(|old(queue.code)|, |a|);
      queue.StartOver();
      LoopsLaidOut(old(queue.code), Code(p.test), Code(p.body));
    }

    method CompileForever(p: Program) returns (aborted: bool)
      requires queue.Valid() && p.Forever? && AllWithin(p.body)
      modifies `st, queue, queue.usedReg, queue.usedOff
      ensures aborted <==> !AllCompilable(p.body)
      ensures !aborted ==> queue.Valid() && queue.segs == [] && st == old(st)
      ensures !aborted ==> queue.code == old(queue.code) + ForeverCode(Code(p.body))
      decreases p, 1
    {
      hide *;
      queue.ValidReady();
      Begin();
      queue.StartOver();
      aborted := Compile(p.body);
      if aborted {
        return;
      }
      queue.ValidReady();
      Again(|old(queue.code)|);
      queue.StartOver();
      LoopsLaidOut(old(queue.code), [], Code(p.body));
    }

    /** The control structure a program comes to after its first stretch. */
    method CompileControl(p: Program) returns (aborted: bool)
      requires queue.Valid() && AllWithin(p) && !p.Last?
      modifies `st, queue, queue.usedReg, queue.usedOff
      ensures aborted <==> !ControlCompilable(p)
      ensures !aborted ==> queue.Valid() && queue.segs == [] && st == old(st)
      ensures !aborted ==> queue.code == old(queue.code) + ControlCode(p)
      decreases p, 2
    {
      match p
      case If(_, _, _) => aborted := CompileIf(p);
      case IfElse(_, _, _, _) => aborted := CompileIfElse(p);
      case Until(_, _, _) => aborted := CompileUntil(p);
      case While(_, _, _, _) => aborted := CompileWhile(p);
      case Forever(_, _, _) => aborted := CompileForever(p);
    }

    /** Compiling a program word by word leaves its code at HERE and the stack as it was, or the optimizer aborts. */
    method Compile(p: Program) returns (aborted: bool)
      requires queue.Valid() && queue.segs == [] && AllWithin(p)
      modifies `st, queue, queue.usedReg, queue.usedOff
      ensures aborted <==> !AllCompilable(p)
      ensures !aborted ==> queue.Valid() && queue.code == old(queue.code) + Code(p) && st == old(st)
      decreases p, 3
    {
      hide *;
      CodeParts(p);
      aborted := Stretch(p.es);
      if aborted || p.Last? {
        return;
      }
      aborted := CompileControl(p);
      if !aborted {
        aborted := Compile(p.rest);
      }
    }

    /** The code of a program whose jumps can reach, with the plain words between its control structures optimized,
        comes to the same ends as the program with each word's own code, whatever the instructions of other words do. */
    method CompileProgram(p: Program) returns (aborted: bool)
      requires queue.Valid() && queue.segs == [] && AllWithin(p)
      requires AllCompilable(p) ==> Reachable(Filled(p, true))
      modifies `st, queue, queue.usedReg, queue.usedOff
      ensures aborted <==> !AllCompilable(p)
      ensures !aborted ==> st == old(st)
      ensures !aborted ==> forall sem :: Respects(sem) ==>
                SameEnds(queue.code, old(|queue.code|), |queue.code|, Filled(p, false), sem)
    {
      hide *;
      aborted := Compile(p);
      if !aborted {
        ItsOwnPlace(old(queue.code), p);
        forall sem | Respects(sem)
          ensures SameEnds(queue.code, old(|queue.code|), |queue.code|, Filled(p, false), sem)
        {
          QueuedCodeMeansProgram(p, queue.code, old(|queue.code|), sem);
        }
      }
    }
  }

  /** The code of a program with its stretches optimized. */
  ghost function Code(p: Program): seq<Instr>
    requires AllCompilable(p)
  {
    Gen(Filled(p, true))
  }

  ghost predicate ControlCompilable(p: Program)
    requires !p.Last?
  {
    match p
    case If(_, t, _) => AllCompilable(t)
    case IfElse(_, t, e, _) => AllCompilable(t) && AllCompilable(e)
    case Until(_, b, _) => AllCompilable(b)
    case While(_, test, b, _) => AllCompilable(test) && AllCompilable(b)
    case Forever(_, b, _) => AllCompilable(b)
  }

  ghost function ControlCode(p: Program): seq<Instr>
    requires !p.Last? && ControlCompilable(p)
  {
    match p
    case If(_, t, _) => IfCode(Code(t))
    case IfElse(_, t, e, _) => IfElseCode(Code(t), Code(e))
    case Until(_, b, _) => UntilCode(Code(b))
    case While(_, test, b, _) => WhileCode(Code(test), Code(b))
    case Forever(_, b, _) => ForeverCode(Code(b))
  }

  lemma CodeParts(p: Program)
    ensures AllCompilable(p) <==> Compilable(p.es) && (p.Last? || (ControlCompilable(p) && AllCompilable(p.rest)))
    ensures AllWithin(p) ==> WithinCells(p.es) && (p.Last? || AllWithin(p.rest))
    ensures AllCompilable(p) ==>
              Code(p) == StretchCode(p.es, true) + if p.Last? then [] else ControlCode(p) + Code(p.rest)
  {
    hide Compilable, WithinCells, StretchCode, Line, IfCode, IfElseCode, UntilCode, WhileCode, ForeverCode;
    if AllCompilable(p) {
      LineCode(StretchCode(p.es, true));
      if !p.Last? {
        ControlIs(p);
        BothCode(Line(StretchCode(p.es, true)), Control(p, true), Filled(p.rest, true));
      }
    }
  }

  lemma BothCode(a: Stmt, b: Stmt, c: Stmt)
    ensures Gen(Both(a, Both(b, c))) == Gen(a) + (Gen(b) + Gen(c))
  {
  }

  lemma ControlIs(p: Program)
    requires !p.Last? && AllCompilable(p)
    ensures ControlCompilable(p) && Gen(Control(p, true)) == ControlCode(p)
  {
    hide Compilable, IfCode, IfElseCode, UntilCode, WhileCode, ForeverCode, Filled;
  }

  lemma ItsOwnPlace(front: seq<Instr>, p: Program)
    requires AllCompilable(p)
    ensures Placed(front + Code(p), |front|, Gen(Filled(p, true))) && |Code(p)| == |Gen(Filled(p, true))|
  {
  }
}
