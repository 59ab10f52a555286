/** Structured programs, what they mean, the branch code they compile to, and what the machine does with it.
    The code of a program is described by Gen; ControlWords shows that the compiler's words produce it. */
module Structured {
  import opened Wrappers
  import opened RiscvAsm
  import opened Machine

  /** What the machine is about to do: the index of the next instruction and the data. */
  datatype Conf = Conf(pc: int, data: State)

  /** One instruction; sem gives the meaning of those of other words. */
  function Next(code: seq<Instr>, c: Conf, sem: Sem): Conf {
    if !(0 <= c.pc < |code|) then c
    else match code[c.pc]
         case Beq(a, b, imm) => Branch(c, Reg(c.data, a) == Reg(c.data, b), BOffset(imm))
         case Bne(a, b, imm) => Branch(c, Reg(c.data, a) != Reg(c.data, b), BOffset(imm))
         case Jal(imm) => Branch(c, true, JOffset(imm))
         case i => Conf(c.pc + 1, Step(i, c.data, sem))
  }

  function Branch(c: Conf, taken: bool, offset: int): Conf {
    Conf(if taken then c.pc + offset / 4 else c.pc + 1, c.data)
  }

  function Run(code: seq<Instr>, c: Conf, n: nat, sem: Sem): Conf
    decreases n
  {
    if n == 0 then c else Run(code, Next(code, c, sem), n - 1, sem)
  }

  /** For the next n steps the machine is at the instructions from lo up to hi. */
  predicate Inside(code: seq<Instr>, c: Conf, n: nat, lo: int, hi: int, sem: Sem)
    decreases n
  {
    n == 0 || (lo <= c.pc < hi && Inside(code, Next(code, c, sem), n - 1, lo, hi, sem))
  }

  lemma {:induction false} RunOn(code: seq<Instr>, c: Conf, m: nat, n: nat, lo: int, hi: int, sem: Sem)
    ensures Run(code, c, m + n, sem) == Run(code, Run(code, c, m, sem), n, sem)
    ensures Inside(code, c, m + n, lo, hi, sem)
       <==> Inside(code, c, m, lo, hi, sem) && Inside(code, Run(code, c, m, sem), n, lo, hi, sem)
    decreases m
  {
    if m > 0 {
      RunOn(code, Next(code, c, sem), m - 1, n, lo, hi, sem);
    }
  }

  lemma {:induction false} Widen(code: seq<Instr>, c: Conf, n: nat, lo: int, hi: int, lo': int, hi': int, sem: Sem)
    requires Inside(code, c, n, lo, hi, sem) && lo' <= lo && hi <= hi'
    ensures Inside(code, c, n, lo', hi', sem)
    decreases n
  {
    if n > 0 {
      Widen(code, Next(code, c, sem), n - 1, lo, hi, lo', hi', sem);
    }
  }

  datatype Stmt =
    | Skip
    | Do(i: Instr)                             // an instruction that is not a branch
    | Both(first: Stmt, second: Stmt)
    | If(t: Stmt)                              // IF t THEN
    | IfElse(t: Stmt, e: Stmt)                 // IF t ELSE e THEN
    | Until(body: Stmt)                        // BEGIN body UNTIL
    | While(test: Stmt, body: Stmt)            // BEGIN test WHILE body REPEAT
    | Forever(body: Stmt)                      // BEGIN body AGAIN

  /** Takes the flag off the data stack; it ends up in a2. */
  function Pop(d: State): State {
    d.(s0 := d.s0 - CELL, regs := d.regs[A2 := Cell(d, d.s0 - CELL)])
  }

  /** The cell on top of the stack goes to a2 and nothing else changes. */
  lemma PopTakesFlag(d: State, r: nat)
    ensures Pop(d).s0 == d.s0 - 8 && Reg(Pop(d), 12) == Cell(d, d.s0 - 8)
    ensures Pop(d).mem == d.mem && Pop(d).rest == d.rest && (r != 8 && r != 12 ==> Reg(Pop(d), r) == Reg(d, r))
  {
  }

  /** What a program does to the data, with at most fuel rounds of any loop; None if it takes more. */
  function Eval(s: Stmt, d: State, fuel: nat, sem: Sem): Option<State>
    decreases fuel, s
  {
    match s
    case Skip => Some(d)
    case Do(i) => Some(Step(i, d, sem))
    case Both(a, b) =>
      (match Eval(a, d, fuel, sem)
       case None => None
       case Some(d1) => Eval(b, d1, fuel, sem))
    case If(t) =>
      var d1 := Pop(d);
      if Reg(d1, A2) != 0 then Eval(t, d1, fuel, sem) else Some(d1)
    case IfElse(t, e) =>
      var d1 := Pop(d);
      if Reg(d1, A2) != 0 then Eval(t, d1, fuel, sem) else Eval(e, d1, fuel, sem)
    case Until(b) =>
      if fuel == 0 then None
      else (match Eval(b, d, fuel, sem)
            case None => None
            case Some(d1) =>
              var d2 := Pop(d1);
              if Reg(d2, A2) != 0 then Some(d2) else Eval(s, d2, fuel - 1, sem))
    case While(test, b) =>
      if fuel == 0 then None
      else (match Eval(test, d, fuel, sem)
            case None => None
            case Some(d1) =>
              var d2 := Pop(d1);
              if Reg(d2, A2) == 0 then Some(d2)
              else match Eval(b, d2, fuel, sem)
                   case None => None
                   case Some(d3) => Eval(s, d3, fuel - 1, sem))
    case Forever(b) =>
      if fuel == 0 then None
      else match Eval(b, d, fuel, sem)
           case None => None
           case Some(d1) => Eval(s, d1, fuel - 1, sem)
  }

  /** The two instructions that take the flag. */
  function PopCode(): (r: seq<Instr>)
    ensures |r| == 2
  {
    [Addi(S0, S0, -CELL), Lx(A2, S0, 0)]
  }

  function BranchTo(rs1: nat, rs2: nat, imm: int): Instr {
    Beq(rs1, rs2, BImm(U32(imm)))
  }

  function SkipTo(rs1: nat, rs2: nat, imm: int): Instr {
    Bne(rs1, rs2, BImm(U32(imm)))
  }

  function JumpTo(imm: int): Instr {
    Jal(JImm(U32(imm)))
  }

  /** A branch taken if the registers are equal: the short form, or a branch around a jump. */
  function BeqOrJal(rs1: nat, rs2: nat, imm: int): seq<Instr> {
    if Fits(imm) then [BranchTo(rs1, rs2, imm)] else [SkipTo(rs1, rs2, 8), JumpTo(imm - 4)]
  }

  /** The instruction that keeps the place of the jump. */
  const NOP := Addi(X0, X0, 0)

  /** The same in two slots, as IF reserves them and THEN fills them in. */
  function Forward(imm: int): (r: seq<Instr>)
    ensures |r| == 2
  {
    if Fits(imm) then [BranchTo(X0, A2, imm), NOP] else BeqOrJal(X0, A2, imm)
  }

  function IfCode(t: seq<Instr>): seq<Instr> {
    PopCode() + Forward(4 * (2 + |t|)) + t
  }

  function IfElseCode(t: seq<Instr>, e: seq<Instr>): seq<Instr> {
    PopCode() + Forward(4 * (2 + |t| + 1)) + t + [JumpTo(4 * (1 + |e|))] + e
  }

  function UntilCode(b: seq<Instr>): seq<Instr> {
    b + PopCode() + BeqOrJal(A2, X0, -4 * (|b| + 2))
  }

  function WhileCode(test: seq<Instr>, b: seq<Instr>): seq<Instr> {
    test + PopCode() + Forward(4 * (2 + |b| + 1)) + b + [JumpTo(-4 * (|test| + 4 + |b|))]
  }

  function ForeverCode(b: seq<Instr>): seq<Instr> {
    b + [JumpTo(-4 * |b|)]
  }

  function Gen(s: Stmt): seq<Instr> {
    match s
    case Skip => []
    case Do(i) => [i]
    case Both(a, b) => Gen(a) + Gen(b)
    case If(t) => IfCode(Gen(t))
    case IfElse(t, e) => IfElseCode(Gen(t), Gen(e))
    case Until(b) => UntilCode(Gen(b))
    case While(test, b) => WhileCode(Gen(test), Gen(b))
    case Forever(b) => ForeverCode(Gen(b))
  }

  /** The code g stands in the buffer at index p. */
  predicate Placed(code: seq<Instr>, p: nat, g: seq<Instr>) {
    p + |g| <= |code| && code[p..p + |g|] == g
  }

  /** What a branch reaches, in its short form or with the jump behind its first instruction. */
  predicate BranchReach(imm: int) {
    Fits(imm) || JumpReach(imm - 4)
  }

  /** All branches and jumps of the program reach their targets, and there are no others. */
  predicate Reachable(s: Stmt) {
    match s
    case Skip => true
    case Do(i) => !Jumps(i)
    case Both(a, b) => Reachable(a) && Reachable(b)
    case If(t) => Reachable(t) && IfReach(Gen(t))
    case IfElse(t, e) => Reachable(t) && Reachable(e) && IfElseReach(Gen(t), Gen(e))
    case Until(b) => Reachable(b) && UntilReach(Gen(b))
    case While(test, b) => Reachable(test) && Reachable(b) && WhileReach(Gen(test), Gen(b))
    case Forever(b) => Reachable(b) && ForeverReach(Gen(b))
  }

  /** How many instructions the parts may have: a jump reaches a megabyte. */
  lemma ReachInInstructions(a: seq<Instr>, b: seq<Instr>)
    ensures IfReach(a) <==> |a| <= 262142
    ensures IfElseReach(a, b) <==> |a| <= 262141 && |b| <= 262142
    ensures UntilReach(a) <==> |a| <= 262141
    ensures WhileReach(a, b) <==> |a| + |b| <= 262140
    ensures ForeverReach(a) <==> |a| <= 262144
  {
  }

  predicate IfReach(t: seq<Instr>) {
    BranchReach(4 * (2 + |t|))
  }

  predicate IfElseReach(t: seq<Instr>, e: seq<Instr>) {
    BranchReach(4 * (2 + |t| + 1)) && JumpReach(4 * (1 + |e|))
  }

  predicate UntilReach(b: seq<Instr>) {
    BranchReach(-4 * (|b| + 2))
  }

  predicate WhileReach(test: seq<Instr>, b: seq<Instr>) {
    BranchReach(4 * (2 + |b| + 1)) && JumpReach(-4 * (|test| + 4 + |b|))
  }

  predicate ForeverReach(b: seq<Instr>) {
    JumpReach(-4 * |b|)
  }

  lemma PlacedAt(code: seq<Instr>, p: nat, g: seq<Instr>, k: nat)
    requires Placed(code, p, g) && k < |g|
    ensures p + k < |code| && code[p + k] == g[k]
  {
    assert code[p + k] == code[p..p + |g|][k];
  }

  lemma PlacedParts(code: seq<Instr>, p: nat, a: seq<Instr>, b: seq<Instr>)
    requires Placed(code, p, a + b)
    ensures Placed(code, p, a) && Placed(code, p + |a|, b)
  {
    assert a == (a + b)[..|a|] && b == (a + b)[|a|..];
  }

  lemma PlacedFour(code: seq<Instr>, p: nat, a: seq<Instr>, b: seq<Instr>, c: seq<Instr>, d: seq<Instr>)
    requires Placed(code, p, a + b + c + d)
    ensures Placed(code, p, a) && Placed(code, p + |a|, b)
    ensures Placed(code, p + |a| + |b|, c) && Placed(code, p + |a| + |b| + |c|, d)
  {
    PlacedParts(code, p, a + b + c, d);
    PlacedParts(code, p, a + b, c);
    PlacedParts(code, p, a, b);
  }

  /** The machine gets from c to c' in n steps without leaving the instructions from lo up to hi. */
  ghost predicate Leads(code: seq<Instr>, c: Conf, c': Conf, n: nat, lo: int, hi: int, sem: Sem) {
    Inside(code, c, n, lo, hi, sem) && Run(code, c, n, sem) == c'
  }

  /** The machine ends with the result of a terminating program at its end, and stays within the code of a
      program that does not terminate for at least as many steps as it had fuel. */
  ghost predicate Outcome(code: seq<Instr>, c: Conf, r: Option<State>, n: nat, lo: int, hi: int, fuel: nat,
                          sem: Sem)
  {
    && Inside(code, c, n, lo, hi, sem)
    && match r case Some(d) => Run(code, c, n, sem) == Conf(hi, d) case None => n >= fuel
  }

  lemma One(code: seq<Instr>, c: Conf, sem: Sem)
    ensures Leads(code, c, Next(code, c, sem), 1, c.pc, c.pc + 1, sem)
  {
  }

  lemma Chain(code: seq<Instr>, c: Conf, c1: Conf, c2: Conf, m: nat, n: nat, lo1: int, hi1: int, lo2: int, hi2: int,
              lo: int, hi: int, sem: Sem)
    requires Leads(code, c, c1, m, lo1, hi1, sem) && Leads(code, c1, c2, n, lo2, hi2, sem)
    requires lo <= lo1 && hi1 <= hi && lo <= lo2 && hi2 <= hi
    ensures Leads(code, c, c2, m + n, lo, hi, sem)
  {
    Widen(code, c, m, lo1, hi1, lo, hi, sem);
    Widen(code, c1, n, lo2, hi2, lo, hi, sem);
    RunOn(code, c, m, n, lo, hi, sem);
  }

  lemma Within(code: seq<Instr>, c: Conf, c': Conf, n: nat, lo1: int, hi1: int, lo: int, hi: int, sem: Sem)
    requires Leads(code, c, c', n, lo1, hi1, sem) && lo <= lo1 && hi1 <= hi
    ensures Leads(code, c, c', n, lo, hi, sem)
  {
    Widen(code, c, n, lo1, hi1, lo, hi, sem);
  }

  /** The outcome of what follows is the outcome of the whole; in front of a loop's next round a step counts
      as a unit of fuel. */
  lemma Follow(code: seq<Instr>, c: Conf, c1: Conf, r: Option<State>, m: nat, n: nat, lo1: int, hi1: int,
               lo: int, hi: int, fuel: nat, sem: Sem)
    requires Leads(code, c, c1, m, lo1, hi1, sem) && lo <= lo1 && hi1 <= hi
    requires Outcome(code, c1, r, n, lo, hi, fuel, sem)
          || (m >= 1 && fuel >= 1 && Outcome(code, c1, r, n, lo, hi, fuel - 1, sem))
    ensures Outcome(code, c, r, m + n, lo, hi, fuel, sem)
  {
    Widen(code, c, m, lo1, hi1, lo, hi, sem);
    RunOn(code, c, m, n, lo, hi, sem);
  }

  lemma Arrives(code: seq<Instr>, c: Conf, d: State, n: nat, lo: int, hi: int, fuel: nat, sem: Sem)
    requires Outcome(code, c, Some(d), n, lo, hi, fuel, sem)
    ensures Leads(code, c, Conf(hi, d), n, lo, hi, sem)
  {
  }

  lemma Completes(code: seq<Instr>, c: Conf, d: State, n: nat, lo: int, hi: int, fuel: nat, sem: Sem)
    requires Leads(code, c, Conf(hi, d), n, lo, hi, sem)
    ensures Outcome(code, c, Some(d), n, lo, hi, fuel, sem)
  {
  }

  lemma Behind(code: seq<Instr>, c: Conf, c1: Conf, r: Option<State>, m: nat, n: nat, lo1: int, hi1: int, lo2: int,
               lo: int, hi: int, fuel: nat, sem: Sem)
    requires Leads(code, c, c1, m, lo1, hi1, sem) && Outcome(code, c1, r, n, lo2, hi, fuel, sem)
    requires lo <= lo1 && hi1 <= hi && lo <= lo2
    ensures Outcome(code, c, r, m + n, lo, hi, fuel, sem)
  {
    Widen(code, c1, n, lo2, hi, lo, hi, sem);
    hide Leads, Inside, Run;
    Follow(code, c, c1, r, m, n, lo1, hi1, lo, hi, fuel, sem);
  }

  /** A part of the program that does not terminate decides the outcome of the whole. */
  lemma Stuck(code: seq<Instr>, c: Conf, n: nat, lo1: int, hi1: int, lo: int, hi: int, fuel: nat, sem: Sem)
    requires Outcome(code, c, None, n, lo1, hi1, fuel, sem) && lo <= lo1 && hi1 <= hi
    ensures Outcome(code, c, None, n, lo, hi, fuel, sem)
  {
    Widen(code, c, n, lo1, hi1, lo, hi, sem);
  }

  lemma PopRuns(code: seq<Instr>, p: nat, d: State, sem: Sem)
    requires Placed(code, p, PopCode())
    ensures Leads(code, Conf(p, d), Conf(p + 2, Pop(d)), 2, p, p + 2, sem)
  {
    assert code[p] == PopCode()[0] && code[p + 1] == PopCode()[1];
    var c1 := Next(code, Conf(p, d), sem);
    One(code, Conf(p, d), sem);
    One(code, c1, sem);
    Chain(code, Conf(p, d), c1, Conf(p + 2, Pop(d)), 1, 1, p, p + 1, p + 1, p + 2, p, p + 2, sem);
  }

  lemma JumpStep(code: seq<Instr>, p: nat, d: State, imm: int, sem: Sem)
    requires p < |code| && code[p] == JumpTo(imm) && JOffset(JImm(U32(imm))) == imm
    ensures Next(code, Conf(p, d), sem) == Conf(p + imm / 4, d)
  {
    hide JOffset, JImm, U32;
  }

  lemma BranchStep(code: seq<Instr>, p: nat, d: State, rs1: nat, rs2: nat, imm: int, sem: Sem)
    requires p < |code| && BOffset(BImm(U32(imm))) == imm
    ensures code[p] == BranchTo(rs1, rs2, imm) ==>
              Next(code, Conf(p, d), sem) == Conf(if Reg(d, rs1) == Reg(d, rs2) then p + imm / 4 else p + 1, d)
    ensures code[p] == SkipTo(rs1, rs2, imm) ==>
              Next(code, Conf(p, d), sem) == Conf(if Reg(d, rs1) == Reg(d, rs2) then p + 1 else p + imm / 4, d)
  {
    hide BOffset, BImm, U32, Reg;
  }

  lemma JumpRuns(code: seq<Instr>, p: nat, d: State, imm: int, sem: Sem)
    requires Placed(code, p, [JumpTo(imm)]) && JumpReach(imm) && imm % 4 == 0
    ensures Leads(code, Conf(p, d), Conf(p + imm / 4, d), 1, p, p + 1, sem)
  {
    hide *;
    JumpLands(imm);
    PlacedAt(code, p, [JumpTo(imm)], 0);
    JumpStep(code, p, d, imm, sem);
    One(code, Conf(p, d), sem);
  }

  lemma DistanceInFours(k: int)
    ensures 4 * k % 4 == 0 && -4 * k % 4 == 0
  {
  }

  /** Either form of the branch goes to its target if the registers are equal, else to the instruction behind. */
  lemma BranchRuns(code: seq<Instr>, p: nat, d: State, rs1: nat, rs2: nat, imm: int, sem: Sem) returns (n: nat)
    requires Placed(code, p, BeqOrJal(rs1, rs2, imm)) && BranchReach(imm) && imm % 4 == 0
    ensures var size := |BeqOrJal(rs1, rs2, imm)|;
            && 1 <= n <= 2
            && Leads(code, Conf(p, d), Conf(if Reg(d, rs1) == Reg(d, rs2) then p + imm / 4 else p + size, d),
                     n, p, p + size, sem)
  {
    hide Placed, Leads, Inside, Run, Next, Reg, BranchTo, SkipTo, JumpTo, BOffset, BImm, JOffset, JImm, U32;
    PlacedAt(code, p, BeqOrJal(rs1, rs2, imm), 0);
    One(code, Conf(p, d), sem);
    n := 1;
    if Fits(imm) {
      BranchLands(imm);
      BranchStep(code, p, d, rs1, rs2, imm, sem);
    } else {
      assert BeqOrJal(rs1, rs2, imm) == [SkipTo(rs1, rs2, 8)] + [JumpTo(imm - 4)];
      PlacedParts(code, p, [SkipTo(rs1, rs2, 8)], [JumpTo(imm - 4)]);
      BranchLands(8);
      BranchStep(code, p, d, rs1, rs2, 8, sem);
      if Reg(d, rs1) == Reg(d, rs2) {
        JumpRuns(code, p + 1, d, imm - 4, sem);
        Chain(code, Conf(p, d), Conf(p + 1, d), Conf(p + imm / 4, d), 1, 1, p, p + 1, p + 1, p + 2, p, p + 2, sem);
        n := 2;
      } else {
        Within(code, Conf(p, d), Conf(p + 2, d), 1, p, p + 1, p, p + 2, sem);
      }
    }
  }

  /** The same for the two slots of a forward branch on a zero flag. */
  lemma ForwardRuns(code: seq<Instr>, p: nat, d: State, imm: int, sem: Sem) returns (n: nat)
    requires Placed(code, p, Forward(imm)) && imm >= 0 && BranchReach(imm) && imm % 4 == 0
    ensures 1 <= n <= 2
    ensures Leads(code, Conf(p, d), Conf(if Reg(d, A2) == 0 then p + imm / 4 else p + 2, d), n, p, p + 2, sem)
  {
    if Fits(imm) {
      PlacedParts(code, p, BeqOrJal(X0, A2, imm), [NOP]);
      n := BranchRuns(code, p, d, X0, A2, imm, sem);
      if Reg(d, A2) == 0 {
        Widen(code, Conf(p, d), n, p, p + 1, p, p + 2, sem);
      } else {
        assert code[p + 1] == NOP;
        One(code, Conf(p + 1, d), sem);
        Chain(code, Conf(p, d), Conf(p + 1, d), Conf(p + 2, d), n, 1, p, p + 1, p + 1, p + 2, p, p + 2, sem);
        n := n + 1;
      }
    } else {
      n := BranchRuns(code, p, d, X0, A2, imm, sem);
    }
  }

  /** The flag is taken and the forward branch decides: to its target, or to the instruction behind. */
  lemma TestRuns(code: seq<Instr>, p: nat, d: State, imm: int, sem: Sem) returns (n: nat)
    requires Placed(code, p, PopCode() + Forward(imm)) && imm >= 0 && BranchReach(imm) && imm % 4 == 0
    ensures n >= 1
    ensures var d1 := Pop(d);
            Leads(code, Conf(p, d), Conf(if Reg(d1, A2) == 0 then p + 2 + imm / 4 else p + 4, d1), n, p, p + 4, sem)
  {
    PlacedParts(code, p, PopCode(), Forward(imm));
    PopRuns(code, p, d, sem);
    n := ForwardRuns(code, p + 2, Pop(d), imm, sem);
    hide Pop;
    Chain(code, Conf(p, d), Conf(p + 2, Pop(d)), Conf(if Reg(Pop(d), A2) == 0 then p + 2 + imm / 4 else p + 4, Pop(d)),
          2, n, p, p + 2, p + 2, p + 4, p, p + 4, sem);
    n := n + 2;
  }

  /** The machine runs the code of a program exactly as the program says: it reaches the end with the
      program's result, or, when the program does not come to an end, never leaves the code. */
  lemma {:induction false} Simulates(s: Stmt, code: seq<Instr>, p: nat, d: State, fuel: nat, sem: Sem)
    returns (n: nat)
    requires Placed(code, p, Gen(s)) && Reachable(s)
    ensures Outcome(code, Conf(p, d), Eval(s, d, fuel, sem), n, p, p + |Gen(s)|, fuel, sem)
    decreases fuel, s
  {
    hide *;
    match s
    case Skip => n := SimPlain(s, code, p, d, fuel, sem);
    case Do(_) => n := SimPlain(s, code, p, d, fuel, sem);
    case Both(a, b) => n := SimBoth(a, b, code, p, d, fuel, sem);
    case If(t) => n := SimIf(t, code, p, d, fuel, sem);
    case IfElse(t, e) => n := SimIfElse(t, e, code, p, d, fuel, sem);
    case Until(b) => n := SimUntil(b, code, p, d, fuel, sem);
    case While(test, b) => n := SimWhile(test, b, code, p, d, fuel, sem);
    case Forever(b) => n := SimForever(b, code, p, d, fuel, sem);
  }

  lemma SimPlain(s: Stmt, code: seq<Instr>, p: nat, d: State, fuel: nat, sem: Sem) returns (n: nat)
    requires Placed(code, p, Gen(s)) && Reachable(s) && (s.Skip? || s.Do?)
    ensures Outcome(code, Conf(p, d), Eval(s, d, fuel, sem), n, p, p + |Gen(s)|, fuel, sem)
  {
    n := |Gen(s)|;
    if s.Do? {
      assert code[p] == s.i;
      One(code, Conf(p, d), sem);
    }
  }

  lemma BothParts(a: Stmt, b: Stmt, code: seq<Instr>, p: nat, d: State, fuel: nat, sem: Sem)
    requires Placed(code, p, Gen(Both(a, b))) && Reachable(Both(a, b))
    ensures |Gen(Both(a, b))| == |Gen(a)| + |Gen(b)| && Reachable(a) && Reachable(b)
    ensures Placed(code, p, Gen(a)) && Placed(code, p + |Gen(a)|, Gen(b))
    ensures Eval(Both(a, b), d, fuel, sem)
         == match Eval(a, d, fuel, sem) case None => None case Some(d1) => Eval(b, d1, fuel, sem)
  {
    PlacedParts(code, p, Gen(a), Gen(b));
  }

  lemma {:induction false} SimBoth(a: Stmt, b: Stmt, code: seq<Instr>, p: nat, d: State, fuel: nat, sem: Sem)
    returns (n: nat)
    requires Placed(code, p, Gen(Both(a, b))) && Reachable(Both(a, b))
    ensures Outcome(code, Conf(p, d), Eval(Both(a, b), d, fuel, sem), n, p, p + |Gen(Both(a, b))|, fuel, sem)
    decreases fuel, Both(a, b), 0
  {
    hide *;
    BothParts(a, b, code, p, d, fuel, sem);
    var q, end := p + |Gen(a)|, p + |Gen(Both(a, b))|;
    n := Simulates(a, code, p, d, fuel, sem);
    match Eval(a, d, fuel, sem)
    case None =>
      Stuck(code, Conf(p, d), n, p, q, p, end, fuel, sem);
    case Some(d1) =>
      var m := Simulates(b, code, q, d1, fuel, sem);
      Arrives(code, Conf(p, d), d1, n, p, q, fuel, sem);
      Behind(code, Conf(p, d), Conf(q, d1), Eval(b, d1, fuel, sem), n, m, p, q, q, p, end, fuel, sem);
      n := n + m;
  }

  lemma IfParts(t: Stmt, code: seq<Instr>, p: nat, d: State, fuel: nat, sem: Sem)
    requires Placed(code, p, Gen(If(t))) && Reachable(If(t))
    ensures |Gen(If(t))| == 4 + |Gen(t)| && Reachable(t) && BranchReach(4 * (2 + |Gen(t)|))
    ensures Placed(code, p, PopCode() + Forward(4 * (2 + |Gen(t)|))) && Placed(code, p + 4, Gen(t))
    ensures Eval(If(t), d, fuel, sem) == if Reg(Pop(d), A2) != 0 then Eval(t, Pop(d), fuel, sem) else Some(Pop(d))
  {
    PlacedParts(code, p, PopCode() + Forward(4 * (2 + |Gen(t)|)), Gen(t));
  }

  lemma {:induction false} SimIf(t: Stmt, code: seq<Instr>, p: nat, d: State, fuel: nat, sem: Sem)
    returns (n: nat)
    requires Placed(code, p, Gen(If(t))) && Reachable(If(t))
    ensures Outcome(code, Conf(p, d), Eval(If(t), d, fuel, sem), n, p, p + |Gen(If(t))|, fuel, sem)
    decreases fuel, If(t), 0
  {
    hide *;
    IfParts(t, code, p, d, fuel, sem);
    DistanceInFours(2 + |Gen(t)|);
    var d1, end := Pop(d), p + |Gen(If(t))|;
    n := TestRuns(code, p, d, 4 * (2 + |Gen(t)|), sem);
    if Reg(d1, A2) == 0 {
      Within(code, Conf(p, d), Conf(end, d1), n, p, p + 4, p, end, sem);
      Completes(code, Conf(p, d), d1, n, p, end, fuel, sem);
    } else {
      var m := Simulates(t, code, p + 4, d1, fuel, sem);
      Behind(code, Conf(p, d), Conf(p + 4, d1), Eval(t, d1, fuel, sem), n, m, p, p + 4, p + 4, p, end, fuel, sem);
      n := n + m;
    }
  }

  lemma IfElseCodeParts(t: seq<Instr>, e: seq<Instr>, code: seq<Instr>, p: nat)
    requires Placed(code, p, IfElseCode(t, e))
    ensures |IfElseCode(t, e)| == 5 + |t| + |e|
    ensures var imm, jump, q := 4 * (2 + |t| + 1), 4 * (1 + |e|), p + 4 + |t|;
            && Placed(code, p, PopCode() + Forward(imm)) && Placed(code, p + 4, t)
            && Placed(code, q, [JumpTo(jump)]) && Placed(code, q + 1, e)
  {
    hide Placed, BranchTo, SkipTo, JumpTo, Forward, PopCode;
    PlacedFour(code, p, PopCode() + Forward(4 * (2 + |t| + 1)), t, [JumpTo(4 * (1 + |e|))], e);
  }

  lemma IfElseParts(t: Stmt, e: Stmt, code: seq<Instr>, p: nat, d: State, fuel: nat, sem: Sem)
    requires Placed(code, p, Gen(IfElse(t, e))) && Reachable(IfElse(t, e))
    ensures |Gen(IfElse(t, e))| == 5 + |Gen(t)| + |Gen(e)|
    ensures BranchReach(4 * (2 + |Gen(t)| + 1)) && JumpReach(4 * (1 + |Gen(e)|))
    ensures Reachable(t) && Reachable(e)
    ensures var imm, jump, q := 4 * (2 + |Gen(t)| + 1), 4 * (1 + |Gen(e)|), p + 4 + |Gen(t)|;
            && Placed(code, p, PopCode() + Forward(imm)) && Placed(code, p + 4, Gen(t))
            && Placed(code, q, [JumpTo(jump)]) && Placed(code, q + 1, Gen(e))
    ensures Eval(IfElse(t, e), d, fuel, sem)
         == if Reg(Pop(d), A2) != 0 then Eval(t, Pop(d), fuel, sem) else Eval(e, Pop(d), fuel, sem)
  {
    hide Placed, IfElseCode, PopCode, Forward, JumpTo;
    IfElseCodeParts(Gen(t), Gen(e), code, p);
  }

  lemma {:induction false} SimIfElse(t: Stmt, e: Stmt, code: seq<Instr>, p: nat, d: State, fuel: nat, sem: Sem)
    returns (n: nat)
    requires Placed(code, p, Gen(IfElse(t, e))) && Reachable(IfElse(t, e))
    ensures Outcome(code, Conf(p, d), Eval(IfElse(t, e), d, fuel, sem), n, p, p + |Gen(IfElse(t, e))|, fuel, sem)
    decreases fuel, IfElse(t, e), 0
  {
    hide *;
    IfElseParts(t, e, code, p, d, fuel, sem);
    DistanceInFours(2 + |Gen(t)| + 1);
    DistanceInFours(1 + |Gen(e)|);
    var d1, q, end := Pop(d), p + 4 + |Gen(t)|, p + |Gen(IfElse(t, e))|;
    n := TestRuns(code, p, d, 4 * (2 + |Gen(t)| + 1), sem);
    if Reg(d1, A2) == 0 {
      var m := Simulates(e, code, q + 1, d1, fuel, sem);
      Behind(code, Conf(p, d), Conf(q + 1, d1), Eval(e, d1, fuel, sem), n, m, p, p + 4, q + 1, p, end, fuel, sem);
      n := n + m;
    } else {
      var m := Simulates(t, code, p + 4, d1, fuel, sem);
      var r := Eval(t, d1, fuel, sem);
      if r.Some? {
        JumpRuns(code, q, r.value, 4 * (1 + |Gen(e)|), sem);
        Arrives(code, Conf(p + 4, d1), r.value, m, p + 4, q, fuel, sem);
        Chain(code, Conf(p + 4, d1), Conf(q, r.value), Conf(end, r.value), m, 1, p + 4, q, q, q + 1, p, end, sem);
        m := m + 1;
        Completes(code, Conf(p + 4, d1), r.value, m, p, end, fuel, sem);
      } else {
        Stuck(code, Conf(p + 4, d1), m, p + 4, q, p, end, fuel, sem);
      }
      Behind(code, Conf(p, d), Conf(p + 4, d1), r, n, m, p, p + 4, p, p, end, fuel, sem);
      n := n + m;
    }
  }

  /** The flag is taken and a backward branch decides: back to its target, or to the instruction behind. */
  lemma BackRuns(code: seq<Instr>, p: nat, d: State, imm: int, sem: Sem) returns (n: nat)
    requires Placed(code, p, PopCode() + BeqOrJal(A2, X0, imm)) && imm < 0 && BranchReach(imm) && imm % 4 == 0
    ensures n >= 1
    ensures var d1, end := Pop(d), p + 2 + |BeqOrJal(A2, X0, imm)|;
            Leads(code, Conf(p, d), Conf(if Reg(d1, A2) == 0 then p + 2 + imm / 4 else end, d1), n, p, end, sem)
  {
    var d1, end := Pop(d), p + 2 + |BeqOrJal(A2, X0, imm)|;
    PlacedParts(code, p, PopCode(), BeqOrJal(A2, X0, imm));
    PopRuns(code, p, d, sem);
    n := BranchRuns(code, p + 2, d1, A2, X0, imm, sem);
    hide Pop, BeqOrJal;
    Chain(code, Conf(p, d), Conf(p + 2, d1), Conf(if Reg(d1, A2) == 0 then p + 2 + imm / 4 else end, d1),
          2, n, p, p + 2, p + 2, end, p, end, sem);
    n := n + 2;
  }

  /** No fuel, no round. */
  lemma NoFuel(s: Stmt, code: seq<Instr>, c: Conf, d: State, lo: int, hi: int, sem: Sem)
    requires s.Until? || s.While? || s.Forever?
    ensures Outcome(code, c, Eval(s, d, 0, sem), 0, lo, hi, 0, sem)
  {
  }

  lemma UntilCodeParts(b: seq<Instr>, code: seq<Instr>, p: nat)
    requires Placed(code, p, UntilCode(b))
    ensures var imm, q := -4 * (|b| + 2), p + |b|;
            && |UntilCode(b)| == |b| + 2 + |BeqOrJal(A2, X0, imm)|
            && (-0x1000 <= imm || |BeqOrJal(A2, X0, imm)| == 2)
            && Placed(code, p, b) && Placed(code, q, PopCode() + BeqOrJal(A2, X0, imm))
  {
    hide Placed, BranchTo, SkipTo, JumpTo, PopCode;
    var imm := -4 * (|b| + 2);
    assert b + PopCode() + BeqOrJal(A2, X0, imm) == b + (PopCode() + BeqOrJal(A2, X0, imm));
    PlacedParts(code, p, b, PopCode() + BeqOrJal(A2, X0, imm));
  }

  lemma UntilParts(b: Stmt, code: seq<Instr>, p: nat)
    requires Placed(code, p, Gen(Until(b))) && Reachable(Until(b))
    ensures Reachable(b)
    ensures var imm, q := -4 * (|Gen(b)| + 2), p + |Gen(b)|;
            && BranchReach(imm)
            && |Gen(Until(b))| == |Gen(b)| + 2 + |BeqOrJal(A2, X0, imm)|
            && Placed(code, p, Gen(b)) && Placed(code, q, PopCode() + BeqOrJal(A2, X0, imm))
  {
    hide Placed, UntilCode, PopCode, BeqOrJal;
    UntilCodeParts(Gen(b), code, p);
  }

  lemma UntilMeans(b: Stmt, d: State, fuel: nat, sem: Sem)
    requires fuel > 0
    ensures Eval(Until(b), d, fuel, sem)
         == match Eval(b, d, fuel, sem)
            case None => None
            case Some(d1) => if Reg(Pop(d1), A2) != 0 then Some(Pop(d1)) else Eval(Until(b), Pop(d1), fuel - 1, sem)
  {
  }

  lemma {:induction false} SimUntil(b: Stmt, code: seq<Instr>, p: nat, d: State, fuel: nat, sem: Sem)
    returns (n: nat)
    requires Placed(code, p, Gen(Until(b))) && Reachable(Until(b))
    ensures Outcome(code, Conf(p, d), Eval(Until(b), d, fuel, sem), n, p, p + |Gen(Until(b))|, fuel, sem)
    decreases fuel, Until(b), 0
  {
    hide *;
    var end := p + |Gen(Until(b))|;
    if fuel == 0 {
      NoFuel(Until(b), code, Conf(p, d), d, p, end, sem);
      return 0;
    }
    UntilParts(b, code, p);
    DistanceInFours(|Gen(b)| + 2);
    UntilMeans(b, d, fuel, sem);
    var imm, q := -4 * (|Gen(b)| + 2), p + |Gen(b)|;
    n := Simulates(b, code, p, d, fuel, sem);
    match Eval(b, d, fuel, sem)
    case None =>
      Stuck(code, Conf(p, d), n, p, q, p, end, fuel, sem);
    case Some(d1) =>
      var d2 := Pop(d1);
      var m := BackRuns(code, q, d1, imm, sem);
      Arrives(code, Conf(p, d), d1, n, p, q, fuel, sem);
      Chain(code, Conf(p, d), Conf(q, d1), Conf(if Reg(d2, A2) == 0 then p else end, d2),
            n, m, p, q, q, end, p, end, sem);
      n := n + m;
      if Reg(d2, A2) == 0 {
        m := SimUntil(b, code, p, d2, fuel - 1, sem);
        Follow(code, Conf(p, d), Conf(p, d2), Eval(Until(b), d2, fuel - 1, sem), n, m, p, end, p, end, fuel, sem);
        n := n + m;
      } else {
        Completes(code, Conf(p, d), d2, n, p, end, fuel, sem);
      }
  }

  lemma ForeverParts(b: Stmt, code: seq<Instr>, p: nat, d: State, fuel: nat, sem: Sem)
    requires Placed(code, p, Gen(Forever(b))) && Reachable(Forever(b)) && fuel > 0
    ensures |Gen(Forever(b))| == |Gen(b)| + 1 && Reachable(b)
    ensures Placed(code, p, Gen(b)) && Placed(code, p + |Gen(b)|, [JumpTo(-4 * |Gen(b)|)])
    ensures JumpReach(-4 * |Gen(b)|)
    ensures Eval(Forever(b), d, fuel, sem)
         == match Eval(b, d, fuel, sem) case None => None case Some(d1) => Eval(Forever(b), d1, fuel - 1, sem)
  {
    PlacedParts(code, p, Gen(b), [JumpTo(-4 * |Gen(b)|)]);
  }

  lemma {:induction false} SimForever(b: Stmt, code: seq<Instr>, p: nat, d: State, fuel: nat, sem: Sem)
    returns (n: nat)
    requires Placed(code, p, Gen(Forever(b))) && Reachable(Forever(b))
    ensures Outcome(code, Conf(p, d), Eval(Forever(b), d, fuel, sem), n, p, p + |Gen(Forever(b))|, fuel, sem)
    decreases fuel, Forever(b), 0
  {
    hide *;
    var end := p + |Gen(Forever(b))|;
    if fuel == 0 {
      NoFuel(Forever(b), code, Conf(p, d), d, p, end, sem);
      return 0;
    }
    ForeverParts(b, code, p, d, fuel, sem);
    DistanceInFours(|Gen(b)|);
    var imm, q := -4 * |Gen(b)|, p + |Gen(b)|;
    n := Simulates(b, code, p, d, fuel, sem);
    match Eval(b, d, fuel, sem)
    case None =>
      Stuck(code, Conf(p, d), n, p, q, p, end, fuel, sem);
    case Some(d1) =>
      JumpRuns(code, q, d1, imm, sem);
      Arrives(code, Conf(p, d), d1, n, p, q, fuel, sem);
      Chain(code, Conf(p, d), Conf(q, d1), Conf(p, d1), n, 1, p, q, q, end, p, end, sem);
      var m := SimForever(b, code, p, d1, fuel - 1, sem);
      Follow(code, Conf(p, d), Conf(p, d1), Eval(Forever(b), d1, fuel - 1, sem), n + 1, m, p, end, p, end, fuel, sem);
      n := n + 1 + m;
  }

  lemma WhileCodeParts(test: seq<Instr>, b: seq<Instr>, code: seq<Instr>, p: nat)
    requires Placed(code, p, WhileCode(test, b))
    ensures |WhileCode(test, b)| == |test| + 5 + |b|
    ensures var out, back, q := 4 * (2 + |b| + 1), -4 * (|test| + 4 + |b|), p + |test|;
            && Placed(code, p, test) && Placed(code, q, PopCode() + Forward(out))
            && Placed(code, q + 4, b) && Placed(code, q + 4 + |b|, [JumpTo(back)])
  {
    hide Placed, BranchTo, SkipTo, JumpTo, Forward, PopCode;
    var out, back := 4 * (2 + |b| + 1), -4 * (|test| + 4 + |b|);
    assert test + PopCode() + Forward(out) == test + (PopCode() + Forward(out));
    PlacedFour(code, p, test, PopCode() + Forward(out), b, [JumpTo(back)]);
  }

  lemma WhileParts(test: Stmt, b: Stmt, code: seq<Instr>, p: nat)
    requires Placed(code, p, Gen(While(test, b))) && Reachable(While(test, b))
    ensures |Gen(While(test, b))| == |Gen(test)| + 5 + |Gen(b)|
    ensures BranchReach(4 * (2 + |Gen(b)| + 1)) && JumpReach(-4 * (|Gen(test)| + 4 + |Gen(b)|))
    ensures Reachable(test) && Reachable(b)
    ensures var out, back, q := 4 * (2 + |Gen(b)| + 1), -4 * (|Gen(test)| + 4 + |Gen(b)|), p + |Gen(test)|;
            && Placed(code, p, Gen(test)) && Placed(code, q, PopCode() + Forward(out))
            && Placed(code, q + 4, Gen(b)) && Placed(code, q + 4 + |Gen(b)|, [JumpTo(back)])
  {
    hide Placed, WhileCode, PopCode, Forward, JumpTo;
    WhileCodeParts(Gen(test), Gen(b), code, p);
  }

  /** From behind the test: the body, and the loop again. */
  function Round(test: Stmt, b: Stmt, d: State, fuel: nat, sem: Sem): Option<State>
    requires fuel > 0
  {
    match Eval(b, d, fuel, sem) case None => None case Some(d1) => Eval(While(test, b), d1, fuel - 1, sem)
  }

  lemma WhileMeans(test: Stmt, b: Stmt, d: State, fuel: nat, sem: Sem)
    requires fuel > 0
    ensures Eval(While(test, b), d, fuel, sem)
         == match Eval(test, d, fuel, sem)
            case None => None
            case Some(d1) => if Reg(Pop(d1), A2) == 0 then Some(Pop(d1)) else Round(test, b, Pop(d1), fuel, sem)
    ensures Round(test, b, d, fuel, sem)
         == match Eval(b, d, fuel, sem) case None => None case Some(d1) => Eval(While(test, b), d1, fuel - 1, sem)
  {
  }

  lemma {:induction false} SimRound(test: Stmt, b: Stmt, code: seq<Instr>, p: nat, d: State, fuel: nat, sem: Sem)
    returns (n: nat)
    requires Placed(code, p, Gen(While(test, b))) && Reachable(While(test, b)) && fuel > 0
    ensures Outcome(code, Conf(p + |Gen(test)| + 4, d), Round(test, b, d, fuel, sem),
                    n, p, p + |Gen(While(test, b))|, fuel, sem)
    decreases fuel, While(test, b), 0
  {
    hide *;
    WhileParts(test, b, code, p);
    DistanceInFours(|Gen(test)| + 4 + |Gen(b)|);
    WhileMeans(test, b, d, fuel, sem);
    var start, q, end := p + |Gen(test)| + 4, p + |Gen(test)| + 4 + |Gen(b)|, p + |Gen(While(test, b))|;
    n := Simulates(b, code, start, d, fuel, sem);
    match Eval(b, d, fuel, sem)
    case None =>
      Stuck(code, Conf(start, d), n, start, q, p, end, fuel, sem);
    case Some(d1) =>
      JumpRuns(code, q, d1, -4 * (|Gen(test)| + 4 + |Gen(b)|), sem);
      Arrives(code, Conf(start, d), d1, n, start, q, fuel, sem);
      Chain(code, Conf(start, d), Conf(q, d1), Conf(p, d1), n, 1, start, q, q, end, p, end, sem);
      var m := SimWhile(test, b, code, p, d1, fuel - 1, sem);
      Follow(code, Conf(start, d), Conf(p, d1), Eval(While(test, b), d1, fuel - 1, sem),
             n + 1, m, p, end, p, end, fuel, sem);
      n := n + 1 + m;
  }

  lemma {:induction false} SimWhile(test: Stmt, b: Stmt, code: seq<Instr>, p: nat, d: State, fuel: nat, sem: Sem)
    returns (n: nat)
    requires Placed(code, p, Gen(While(test, b))) && Reachable(While(test, b))
    ensures Outcome(code, Conf(p, d), Eval(While(test, b), d, fuel, sem), n, p, p + |Gen(While(test, b))|, fuel, sem)
    decreases fuel, While(test, b), 1
  {
    hide *;
    var end := p + |Gen(While(test, b))|;
    if fuel == 0 {
      NoFuel(While(test, b), code, Conf(p, d), d, p, end, sem);
      return 0;
    }
    WhileParts(test, b, code, p);
    DistanceInFours(2 + |Gen(b)| + 1);
    WhileMeans(test, b, d, fuel, sem);
    var q := p + |Gen(test)|;
    n := Simulates(test, code, p, d, fuel, sem);
    match Eval(test, d, fuel, sem)
    case None =>
      Stuck(code, Conf(p, d), n, p, q, p, end, fuel, sem);
    case Some(d1) =>
      var d2 := Pop(d1);
      var m := TestRuns(code, q, d1, 4 * (2 + |Gen(b)| + 1), sem);
      Arrives(code, Conf(p, d), d1, n, p, q, fuel, sem);
      Chain(code, Conf(p, d), Conf(q, d1), Conf(if Reg(d2, A2) == 0 then end else q + 4, d2),
            n, m, p, q, q, q + 4, p, end, sem);
      n := n + m;
      if Reg(d2, A2) == 0 {
        Completes(code, Conf(p, d), d2, n, p, end, fuel, sem);
      } else {
        m := SimRound(test, b, code, p, d2, fuel, sem);
        Follow(code, Conf(p, d), Conf(q + 4, d2), Round(test, b, d2, fuel, sem), n, m, p, end, p, end, fuel, sem);
        n := n + m;
      }
  }

  lemma InsideAt(code: seq<Instr>, c: Conf, n: nat, k: nat, lo: int, hi: int, sem: Sem)
    requires Inside(code, c, n, lo, hi, sem) && k < n
    ensures lo <= Run(code, c, k, sem).pc < hi
  {
    RunOn(code, c, k, n - k, lo, hi, sem);
  }

  /** The code comes to its end with some data, never having left itself. */
  ghost predicate Ends(code: seq<Instr>, p: nat, end: nat, d: State, d': State, sem: Sem) {
    exists n: nat :: Leads(code, Conf(p, d), Conf(end, d'), n, p, end, sem)
  }

  /** The program comes to its end with some data. */
  ghost predicate Means(s: Stmt, d: State, d': State, sem: Sem) {
    exists fuel: nat :: Eval(s, d, fuel, sem) == Some(d')
  }

  /** A run of the machine to the end of the code is a run of the program. */
  lemma EndsAsMeant(s: Stmt, code: seq<Instr>, p: nat, d: State, d': State, n: nat, sem: Sem)
    requires Placed(code, p, Gen(s)) && Reachable(s)
    requires Leads(code, Conf(p, d), Conf(p + |Gen(s)|, d'), n, p, p + |Gen(s)|, sem)
    ensures Eval(s, d, n + 1, sem) == Some(d')
  {
    var c, end := Conf(p, d), p + |Gen(s)|;
    var m := Simulates(s, code, p, d, n + 1, sem);
    hide Gen, Eval, Placed, Next;
    if n < m {
      InsideAt(code, c, m, n, p, end, sem);
    } else if m < n {
      InsideAt(code, c, n, m, p, end, sem);
    }
  }

  /** The compiled code and the program come to the same ends, whichever form each branch takes. */
  lemma CompiledMeansProgram(s: Stmt, code: seq<Instr>, p: nat, d: State, d': State, sem: Sem)
    requires Placed(code, p, Gen(s)) && Reachable(s)
    ensures Ends(code, p, p + |Gen(s)|, d, d', sem) <==> Means(s, d, d', sem)
  {
    hide Gen, Eval, Placed, Leads;
    if Ends(code, p, p + |Gen(s)|, d, d', sem) {
      var n: nat :| Leads(code, Conf(p, d), Conf(p + |Gen(s)|, d'), n, p, p + |Gen(s)|, sem);
      EndsAsMeant(s, code, p, d, d', n, sem);
    }
    if Means(s, d, d', sem) {
      var fuel: nat :| Eval(s, d, fuel, sem) == Some(d');
      var n := Simulates(s, code, p, d, fuel, sem);
      Arrives(code, Conf(p, d), d', n, p, p + |Gen(s)|, fuel, sem);
    }
  }

  /** A program that does not come to an end keeps the machine within its code for ever. */
  lemma NeverLeaves(s: Stmt, code: seq<Instr>, p: nat, d: State, n: nat, sem: Sem)
    requires Placed(code, p, Gen(s)) && Reachable(s)
    requires forall fuel: nat :: Eval(s, d, fuel, sem) == None
    ensures Inside(code, Conf(p, d), n, p, p + |Gen(s)|, sem)
  {
    var m := Simulates(s, code, p, d, n, sem);
    RunOn(code, Conf(p, d), n, m - n, p, p + |Gen(s)|, sem);
  }
}
