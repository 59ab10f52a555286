/** The code of the stack words, what they do, and when two machine states are the same to every word
    (asm/rv.fth, asm/rv-core.fth). */
module StackCode {
  import opened Machine

  /** *FETCH: a register from the cell off cells below S0. */
  function FetchCell(rd: nat, off: int): Instr {
    Lx(rd, S0, -CELL * off)
  }

  /** *STORE: a register to the cell off cells below S0. */
  function StoreCell(rs: nat, off: int): Instr {
    Sx(rs, S0, -CELL * off)
  }

  /** *GROW: moves S0 by n cells. */
  function Grow(n: int): Instr {
    Addi(S0, S0, CELL * n)
  }

  /** The cell at a position of the data stack, 0 being the top. */
  function At(st: State, i: nat): int {
    Cell(st, st.s0 - CELL * (1 + i))
  }

  /** The registers that stack words and the optimizer leave alone: all but t0-t2, s0, a0-a7 and t3-t6. */
  predicate Kept(r: nat) {
    !(5 <= r <= 8 || 10 <= r <= 17 || 28 <= r <= 31)
  }

  ghost predicate SameKept(a: State, b: State) {
    forall r: nat :: Kept(r) ==> Reg(a, r) == Reg(b, r)
  }

  /** The same stack pointer, live cells, kept registers and other state; scratch registers and dead cells may
      differ. */
  ghost predicate Same(a: State, b: State) {
    a.s0 == b.s0 && a.rest == b.rest && SameKept(a, b) && forall i: nat :: At(a, i) == At(b, i)
  }

  /** Words pass values on the stack, so no instruction sequence between them tells such states apart. */
  ghost predicate Respects(sem: Sem) {
    forall id, a, b :: Same(a, b) ==> Same(sem(id, a), sem(id, b))
  }

  datatype Word = Drop | Dup | Swap | Rot

  /** The code of the single word. */
  function Plain(w: Word): seq<Instr> {
    match w
    case Drop => [Grow(-1)]
    case Dup => [FetchCell(A0, 1), StoreCell(A0, 0), Grow(1)]
    case Swap => [FetchCell(A0, 1), FetchCell(A0 + 1, 2), StoreCell(A0, 2), StoreCell(A0 + 1, 1)]
    case Rot => [FetchCell(A0 + 2, 1), FetchCell(A0 + 1, 2), FetchCell(A0, 3),
                 StoreCell(A0, 1), StoreCell(A0 + 2, 2), StoreCell(A0 + 1, 3)]
  }

  /** The code of the words as assembled: x8 is s0, and x10 to x12 are a0 to a2. */
  lemma PlainCode()
    ensures Plain(Drop) == [Addi(8, 8, -8)]
    ensures Plain(Dup) == [Lx(10, 8, -8), Sx(10, 8, 0), Addi(8, 8, 8)]
    ensures Plain(Swap) == [Lx(10, 8, -8), Lx(11, 8, -16), Sx(10, 8, -16), Sx(11, 8, -8)]
    ensures Plain(Rot) == [Lx(12, 8, -8), Lx(11, 8, -16), Lx(10, 8, -24), Sx(10, 8, -8), Sx(12, 8, -16), Sx(11, 8, -24)]
  {
  }

  function PlainAll(ws: seq<Word>): seq<Instr> {
    if ws == [] then [] else PlainAll(ws[..|ws| - 1]) + Plain(ws[|ws| - 1])
  }

  /** How many cells a word moves the stack pointer by. */
  function Delta(w: Word): int {
    match w
    case Drop => -1
    case Dup => 1
    case Swap => 0
    case Rot => 0
  }

  /** The position that the cell at position i after the word had before it. */
  function From(w: Word, i: nat): nat {
    match w
    case Drop => i + 1
    case Dup => if i == 0 then 0 else i - 1
    case Swap => if i == 0 then 1 else if i == 1 then 0 else i
    case Rot => if i == 0 then 2 else if i <= 2 then i - 1 else i
  }

  /** What a word does to the stack. */
  ghost predicate Effect(w: Word, a: State, b: State) {
    && b.s0 == a.s0 + CELL * Delta(w) && b.rest == a.rest && SameKept(a, b)
    && forall i: nat :: At(b, i) == At(a, From(w, i))
  }

  lemma PlainEffect(w: Word, st: State, sem: Sem)
    ensures Effect(w, st, Exec(Plain(w), st, sem))
  {
    match w
    case Drop => ExecOne(Grow(-1), st, sem);
    case Dup => Exec3(Plain(Dup), st, sem);
    case Swap => SwapEffect(st, sem);
    case Rot => RotEffect(st, sem);
  }

  lemma SwapEffect(st: State, sem: Sem)
    ensures Effect(Swap, st, Exec(Plain(Swap), st, sem))
  {
    var p := Plain(Swap);
    assert p[..3] == p[..|p| - 1];
    Exec3(p[..3], st, sem);
  }

  lemma RotEffect(st: State, sem: Sem)
    ensures Effect(Rot, st, Exec(Plain(Rot), st, sem))
  {
    var p := Plain(Rot);
    assert |p| == 6;
    hide Plain, Exec, Step, Reg, Kept;
    RotLoads(st, sem);
    RotStores(Exec(p[..3], st, sem), sem);
    ExecConcat(p[..3], p[3..], st, sem);
    assert p[..3] + p[3..] == p;
  }

  lemma RotLoads(st: State, sem: Sem)
    ensures var b := Exec(Plain(Rot)[..3], st, sem);
            && b.s0 == st.s0 && b.mem == st.mem && b.rest == st.rest && SameKept(st, b)
            && Reg(b, A0 + 2) == At(st, 0) && Reg(b, A0 + 1) == At(st, 1) && Reg(b, A0) == At(st, 2)
  {
    Exec3(Plain(Rot)[..3], st, sem);
  }

  lemma RotStores(st: State, sem: Sem)
    ensures var b := Exec(Plain(Rot)[3..], st, sem);
            && b.s0 == st.s0 && b.rest == st.rest && SameKept(st, b)
            && At(b, 0) == Reg(st, A0) && At(b, 1) == Reg(st, A0 + 2) && At(b, 2) == Reg(st, A0 + 1)
            && forall i: nat :: i > 2 ==> At(b, i) == At(st, i)
  {
    Exec3(Plain(Rot)[3..], st, sem);
  }

  lemma Exec3(p: seq<Instr>, st: State, sem: Sem)
    requires |p| == 3
    ensures Exec(p, st, sem) == Step(p[2], Step(p[1], Step(p[0], st, sem), sem), sem)
  {
    assert p[..2][..1] == p[..1] == [p[0]];
    ExecOne(p[0], st, sem);
  }

  /** A word does the same to states that are the same. */
  lemma PlainRespects(w: Word, a: State, b: State, sem: Sem)
    requires Same(a, b)
    ensures Same(Exec(Plain(w), a, sem), Exec(Plain(w), b, sem))
  {
    PlainEffect(w, a, sem);
    PlainEffect(w, b, sem);
  }
}
