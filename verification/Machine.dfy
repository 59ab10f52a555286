/** The machine that compiled code runs on: instructions, registers and memory (arch/riscv/asmgen_riscv.h). */
module Machine {
  import opened RiscvAsm

  const X0: nat := 0
  const S0: nat := 8
  const A0: nat := 10
  const A2: nat := 12

  /** The size of a cell in bytes (RV64). */
  const CELL: int := 8

  /** Registers but for S0, the data stack pointer S0, memory, and whatever else other words work on. */
  datatype State = State(regs: map<nat, int>, s0: int, mem: map<int, int>, rest: int)

  datatype Instr =
    | Beq(rs1: nat, rs2: nat, bimm: Imm)
    | Bne(rs1: nat, rs2: nat, bimm: Imm)
    | Jal(jimm: Imm)
    | Addi(rd: nat, rs1: nat, imm: int)
    | Lx(rd: nat, rs1: nat, imm: int)
    | Sx(rs2: nat, rs1: nat, imm: int)
    | Opaque(id: nat)            // an instruction of any other word

  /** What the instructions of other words do. */
  type Sem = (nat, State) -> State

  function Reg(st: State, r: nat): int {
    if r == X0 then 0 else if r == S0 then st.s0 else if r in st.regs then st.regs[r] else 0
  }

  function SetReg(st: State, r: nat, v: int): State {
    if r == X0 then st else if r == S0 then st.(s0 := v) else st.(regs := st.regs[r := v])
  }

  /** x0 is always 0, and x8 is the data stack pointer. */
  lemma SpecialRegisters(st: State, v: int)
    ensures Reg(st, 0) == 0 && SetReg(st, 0, v) == st && Reg(st, 8) == st.s0 && SetReg(st, 8, v) == st.(s0 := v)
    ensures forall r: nat, k: nat :: r != 0 && r != 8 ==> Reg(SetReg(st, r, v), k) == if k == r then v else Reg(st, k)
  {
  }

  function Cell(st: State, a: int): int {
    if a in st.mem then st.mem[a] else 0
  }

  /** Branches and jumps, which go elsewhere and leave the state alone. */
  predicate Jumps(i: Instr) {
    i.Beq? || i.Bne? || i.Jal?
  }

  /** What one instruction does to the state. */
  function Step(i: Instr, st: State, sem: Sem): State {
    match i
    case Addi(rd, rs1, imm) => SetReg(st, rd, Reg(st, rs1) + imm)
    case Lx(rd, rs1, imm) => SetReg(st, rd, Cell(st, Reg(st, rs1) + imm))
    case Sx(rs2, rs1, imm) => st.(mem := st.mem[Reg(st, rs1) + imm := Reg(st, rs2)])
    case Opaque(id) => sem(id, st)
    case _ => st
  }

  predicate Straight(code: seq<Instr>) {
    forall k :: 0 <= k < |code| ==> !Jumps(code[k])
  }

  /** What a stretch of code without branches does. */
  function Exec(code: seq<Instr>, st: State, sem: Sem): State {
    if code == [] then st else Step(code[|code| - 1], Exec(code[..|code| - 1], st, sem), sem)
  }

  lemma {:induction false} ExecConcat(a: seq<Instr>, b: seq<Instr>, st: State, sem: Sem)
    ensures Exec(a + b, st, sem) == Exec(b, Exec(a, st, sem), sem)
  {
    if b == [] {
      assert a + b == a;
    } else {
      var n := |b| - 1;
      assert (a + b)[..|a + b| - 1] == a + b[..n];
      ExecConcat(a, b[..n], st, sem);
    }
  }

  lemma ExecOne(i: Instr, st: State, sem: Sem)
    ensures Exec([i], st, sem) == Step(i, st, sem)
  {
    assert [i][..0] == [];
  }
}
