/** Loading a constant into a register: the instructions selected, and what they leave in it
    (arch/riscv/compile.c). */
module ConstantLoader {
  import opened Arith

  const TWO32: nat := 0x1_0000_0000
  const TWO64: nat := 0x1_0000_0000_0000_0000

  const X0: nat := 0
  const T0: nat := 5

  datatype Instr =
    | Lui(rd: nat, imm: nat)
    | Addi(rd: nat, rs: nat, imm: nat)
    | Addiw(rd: nat, rs: nat, imm: nat)
    | Sll(rd: nat, rs1: nat, rs2: nat)
    | Srl(rd: nat, rs1: nat, rs2: nat)
    | Or(rd: nat, rs1: nat, rs2: nat)

  type Regs = map<nat, nat>

  function Reg(s: Regs, r: nat): nat {
    if r != X0 && r in s then s[r] else 0
  }

  /** The low 32 bits, with their sign, as a 64-bit cell. */
  function Sext32(x: int): nat {
    var w := x % TWO32;
    if w < TWO32 / 2 then w else w + (TWO64 - TWO32)
  }

  /** The 12-bit field of an instruction, with its sign. */
  function Sext12(imm: nat): int {
    var f := imm % 0x1000;
    if f < 0x800 then f else f - 0x1000
  }

  /** The value an instruction leaves in its register, on a machine with 64-bit or 32-bit cells. */
  function Result(i: Instr, s: Regs, wide: bool): nat {
    match i
    case Lui(_, imm) => if wide then Sext32(imm % 0x10_0000 * 0x1000) else imm % 0x10_0000 * 0x1000
    case Addi(_, rs, imm) => (Reg(s, rs) + Sext12(imm)) % (if wide then TWO64 else TWO32)
    case Addiw(_, rs, imm) => Sext32(Reg(s, rs) + Sext12(imm))
    case Sll(_, a, b) => Reg(s, a) * Pow2(Reg(s, b) % 64) % TWO64
    case Srl(_, a, b) => Reg(s, a) / Pow2(Reg(s, b) % 64)
    case Or(_, a, b) => BitOr(Reg(s, a), Reg(s, b))
  }

  function Exec(i: Instr, s: Regs, wide: bool): Regs {
    s[i.rd := Result(i, s, wide)]
  }

  function Run(code: seq<Instr>, s: Regs, wide: bool): Regs
    decreases |code|
  {
    if code == [] then s else Run(code[1..], Exec(code[0], s, wide), wide)
  }

  lemma {:induction false} RunConcat(a: seq<Instr>, b: seq<Instr>, s: Regs, wide: bool)
    ensures Run(a + b, s, wide) == Run(b, Run(a, s, wide), wide)
    decreases |a|
  {
    if a == [] {
      assert a + b == b;
    } else {
      assert (a + b)[0] == a[0] && (a + b)[1..] == a[1..] + b;
      RunConcat(a[1..], b, Exec(a[0], s, wide), wide);
    }
  }

  /** The low 12 bits with their sign, as an unsigned word, and what is left for the upper 20. */
  function Lower(v: nat): nat {
    (v % 0x1000 + (if v % 0x1000 < 0x800 then 0 else TWO32 - 0x1000))
  }

  function Upper(v: nat): nat {
    (v - Lower(v)) % TWO32 / 0x1000
  }

  /** The two instructions for the low 32 bits. */
  function Word(reg: nat, v: nat, wide: bool): seq<Instr> {
    if Upper(v) != 0 then
      [Lui(reg, Upper(v))]
      + if Lower(v) == 0 then [] else if wide then [Addiw(reg, reg, Lower(v))] else [Addi(reg, reg, Lower(v))]
    else
      if wide then [Addiw(reg, X0, Lower(v))] else [Addi(reg, X0, Lower(v))]
  }

  const SHIFT := Addi(T0, X0, 32)

  /** The whole code for a 64-bit constant. */
  function Wide(reg: nat, v: nat): seq<Instr>
    decreases v
  {
    var high, low := v / TWO32, v % TWO32;
    if high != 0 && high != TWO32 - 1 then
      if low != 0 then
        Wide(reg + 1, high) + [SHIFT, Sll(reg + 1, reg + 1, T0)]
        + Wide(reg, low) + [Sll(reg, reg, T0), Srl(reg, reg, T0), Or(reg, reg, reg + 1)]
      else
        Wide(reg, high) + [SHIFT, Sll(reg, reg, T0)]
    else
      Word(reg, v, true) + if high == 0 then [SHIFT, Sll(reg, reg, T0), Srl(reg, reg, T0)] else []
  }

  lemma Grouped(o: seq<Instr>, a: seq<Instr>, b: seq<Instr>, c: Instr, d: seq<Instr>, e: Instr, f: Instr, g: Instr)
    ensures o + a + b + [c] + d + [e] + [f] + [g] == o + (a + (b + [c]) + d + [e, f, g])
  {
  }

  lemma PartsAreSmaller(v: nat)
    requires v / TWO32 != 0
    ensures v / TWO32 < v && v % TWO32 < v
  {
  }

  /** c_store for 64-bit and for 32-bit cells. */
  class CodeSection {
    var code: seq<Instr>

    constructor ()
      ensures code == []
    {
      code := [];
    }

    method Emit(i: Instr)
      modifies this
      ensures code == old(code) + [i]
    {
      code := code + [i];
    }

    method Store64(reg: nat, v: nat)
      requires v < TWO64
      modifies this
      ensures code == old(code) + Wide(reg, v)
      decreases v
    {
      hide Word;
      var high := v / TWO32;
      if high != 0 && high != TWO32 - 1 {
        PartsAreSmaller(v);
        if 0 != v % TWO32 {
          Store64(reg + 1, high);
          Emit(SHIFT);
          Emit(Sll(reg + 1, reg + 1, T0));
          Store64(reg, v % TWO32);
          Emit(Sll(reg, reg, T0));
          Emit(Srl(reg, reg, T0));
          Emit(Or(reg, reg, reg + 1));
          Grouped(old(code), Wide(reg + 1, high), [SHIFT], Sll(reg + 1, reg + 1, T0), Wide(reg, v % TWO32),
                  Sll(reg, reg, T0), Srl(reg, reg, T0), Or(reg, reg, reg + 1));
          assert [SHIFT] + [Sll(reg + 1, reg + 1, T0)] == [SHIFT, Sll(reg + 1, reg + 1, T0)];
        } else {
          Store64(reg, high);
          Emit(SHIFT);
          Emit(Sll(reg, reg, T0));
        }
        return;
      }
      StoreWord(reg, v, true);
      if high == 0 {
        Emit(SHIFT);
        Emit(Sll(reg, reg, T0));
        Emit(Srl(reg, reg, T0));
      }
    }

    method StoreWord(reg: nat, v: nat, wide: bool)
      modifies this
      ensures code == old(code) + Word(reg, v, wide)
    {
      var lower, upper := Lower(v), Upper(v);
      if upper != 0 {
        Emit(Lui(reg, upper));
        if lower != 0 {
          Emit(if wide then Addiw(reg, reg, lower) else Addi(reg, reg, lower));
        }
      } else {
        Emit(if wide then Addiw(reg, X0, lower) else Addi(reg, X0, lower));
      }
    }
  }

  /** The carry into the upper 20 bits makes up for the sign of the lower 12. */
  lemma Halves(v: nat)
    ensures Upper(v) < 0x10_0000 && Lower(v) < TWO32 && (Lower(v) == 0 ==> Sext12(Lower(v)) == 0)
    ensures Upper(v) * 0x1000 + Sext12(Lower(v)) == v % TWO32
         || Upper(v) * 0x1000 + Sext12(Lower(v)) == v % TWO32 - TWO32
  {
    var w, l := v % TWO32, v % 0x1000;
    assert l == w % 0x1000;
    assert (v - Lower(v)) % TWO32 == (w - Lower(v)) % TWO32 by {
      assert v - Lower(v) == (w - Lower(v)) + v / TWO32 * TWO32;
      ModShift(w - Lower(v), v / TWO32, TWO32);
    }
    assert Lower(v) % 0x1000 == l;
  }

  lemma HalvesMod(v: nat)
    ensures (Upper(v) * 0x1000 + Sext12(Lower(v))) % TWO32 == v % TWO32
  {
    Halves(v);
    hide Upper, Lower, Sext12;
  }

  lemma SextOf(a: int, b: int)
    requires a % TWO32 == b % TWO32
    ensures Sext32(a) == Sext32(b) && Sext32(a) % TWO32 == a % TWO32
  {
  }

  lemma SumMod(a: int, b: int, c: int)
    requires a % TWO32 == b % TWO32
    ensures (a + c) % TWO32 == (b + c) % TWO32
  {
    AddMod(a, c, TWO32);
    AddMod(b, c, TWO32);
  }

  lemma RunOne(i: Instr, s: Regs, wide: bool)
    ensures Run([i], s, wide) == Exec(i, s, wide)
  {
    assert [i][1..] == [];
  }

  lemma RunTwo(i: Instr, j: Instr, s: Regs, wide: bool)
    ensures Run([i] + [j], s, wide) == Exec(j, Exec(i, s, wide), wide)
  {
    hide Exec;
    RunConcat([i], [j], s, wide);
    RunOne(i, s, wide);
    RunOne(j, Exec(i, s, wide), wide);
  }

  lemma WordValue(v: nat)
    ensures var u, l := Upper(v), Lower(v);
            && Sext32(Sext32(u * 0x1000) + Sext12(l)) == Sext32(v)
            && (l == 0 ==> Sext32(u * 0x1000) == Sext32(v)) && (u == 0 ==> Sext32(Sext12(l)) == Sext32(v))
  {
    hide Upper, Lower, Sext12, Sext32;
    var u, l := Upper(v), Lower(v);
    Halves(v);
    HalvesMod(v);
    SextOf(u * 0x1000, u * 0x1000);
    SumMod(Sext32(u * 0x1000), u * 0x1000, Sext12(l));
    SextOf(Sext32(u * 0x1000) + Sext12(l), v);
    SextOf(u * 0x1000 + Sext12(l), v);
  }

  /** The first part leaves the low 32 bits with their sign. */
  lemma WordLoads(reg: nat, v: nat, s: Regs)
    requires reg != X0
    ensures Run(Word(reg, v, true), s, true) == s[reg := Sext32(v)]
  {
    hide Run, Upper, Lower, Sext12, Sext32;
    var u, l := Upper(v), Lower(v);
    Halves(v);
    WordValue(v);
    RunOne(Addiw(reg, X0, l), s, true);
    RunOne(Lui(reg, u), s, true);
    RunTwo(Lui(reg, u), Addiw(reg, reg, l), s, true);
    assert [Lui(reg, u)] + [] == [Lui(reg, u)];
    var w := Sext32(u * 0x1000);
    assert s[reg := w][reg := Sext32(w + Sext12(l))] == s[reg := Sext32(v)];
  }

  /** On a machine with 32-bit cells every constant is loaded exactly. */
  lemma Loads32(reg: nat, v: nat, s: Regs)
    requires reg != X0 && v < TWO32
    ensures Run(Word(reg, v, false), s, false) == s[reg := v]
  {
    hide Run;
    var u, l := Upper(v), Lower(v);
    Halves(v);
    HalvesMod(v);
    hide Upper, Lower, Sext12;
    if u == 0 {
      RunOne(Addi(reg, X0, l), s, false);
    } else {
      RunOne(Lui(reg, u), s, false);
      RunTwo(Lui(reg, u), Addi(reg, reg, l), s, false);
      assert [Lui(reg, u)] + [] == [Lui(reg, u)];
      var w := u * 0x1000;
      assert s[reg := w][reg := (w + Sext12(l)) % TWO32] == s[reg := v];
    }
  }

  /** The registers agree but for r and the scratch registers. */
  ghost predicate OnlyChanges(s: Regs, s': Regs, r: nat, x: nat) {
    forall k: nat :: k != r && k != x && k != 5 ==> Reg(s', k) == Reg(s, k)
  }

  lemma ShiftResults(reg: nat, s: Regs)
    requires Reg(s, T0) == 32
    ensures Result(Sll(reg, reg, T0), s, true) == Reg(s, reg) * TWO32 % TWO64
    ensures Result(Srl(reg, reg, T0), s, true) == Reg(s, reg) / TWO32
  {
    Pow2Of64();
    hide Pow2;
  }

  lemma ShiftsUp(reg: nat, s: Regs)
    requires reg != X0 && reg != T0
    ensures var s' := Run([SHIFT, Sll(reg, reg, T0)], s, true);
            && Reg(s', reg) == Reg(s, reg) * TWO32 % TWO64 && Reg(s', T0) == 32 && OnlyChanges(s, s', reg, reg)
  {
    hide Run;
    assert [SHIFT, Sll(reg, reg, T0)] == [SHIFT] + [Sll(reg, reg, T0)];
    RunTwo(SHIFT, Sll(reg, reg, T0), s, true);
    var s1 := Exec(SHIFT, s, true);
    assert s1[T0] == 32;
    hide Result;
    ShiftResults(reg, s1);
  }

  lemma UpAndDown(x: nat)
    ensures x * TWO32 % TWO64 / TWO32 == x % TWO32
  {
    assert x * TWO32 == (x % TWO32) * TWO32 + (x / TWO32) * TWO64;
    ModShift((x % TWO32) * TWO32, x / TWO32, TWO64);
  }

  lemma ShiftsDown(reg: nat, s: Regs)
    requires reg != X0 && reg != T0 && Reg(s, T0) == 32
    ensures var s' := Run([Sll(reg, reg, T0), Srl(reg, reg, T0)], s, true);
            Reg(s', reg) == Reg(s, reg) % TWO32 && OnlyChanges(s, s', reg, reg) && Reg(s', T0) == 32
  {
    hide Run, Result;
    assert [Sll(reg, reg, T0), Srl(reg, reg, T0)] == [Sll(reg, reg, T0)] + [Srl(reg, reg, T0)];
    RunTwo(Sll(reg, reg, T0), Srl(reg, reg, T0), s, true);
    ShiftResults(reg, s);
    ShiftResults(reg, Exec(Sll(reg, reg, T0), s, true));
    UpAndDown(Reg(s, reg));
  }

  lemma WideIs(reg: nat, v: nat)
    requires v < TWO64
    ensures var high, low := v / TWO32, v % TWO32;
            Wide(reg, v) == if high == 0 then Word(reg, v, true) + ([SHIFT] + [Sll(reg, reg, T0), Srl(reg, reg, T0)])
                            else if high == TWO32 - 1 then Word(reg, v, true)
                            else if low == 0 then Wide(reg, high) + [SHIFT, Sll(reg, reg, T0)]
                            else Wide(reg + 1, high) + [SHIFT, Sll(reg + 1, reg + 1, T0)]
                                 + (Wide(reg, low) + [Sll(reg, reg, T0), Srl(reg, reg, T0)]) + [Or(reg, reg, reg + 1)]
  {
    assert [SHIFT] + [Sll(reg, reg, T0), Srl(reg, reg, T0)] == [SHIFT, Sll(reg, reg, T0), Srl(reg, reg, T0)];
    assert [Sll(reg, reg, T0), Srl(reg, reg, T0), Or(reg, reg, reg + 1)]
        == [Sll(reg, reg, T0), Srl(reg, reg, T0)] + [Or(reg, reg, reg + 1)];
  }

  /** A constant of 32 bits without a sign. */
  lemma ShortLoads(reg: nat, v: nat, s: Regs)
    requires reg != X0 && reg != T0 && v < TWO32
    ensures var s' := Run(Wide(reg, v), s, true);
            Reg(s', reg) == v && Reg(s', T0) == 32 && OnlyChanges(s, s', reg, reg)
  {
    hide Run, Wide, Word, Sext32;
    WideIs(reg, v);
    var down := [Sll(reg, reg, T0), Srl(reg, reg, T0)];
    RunConcat(Word(reg, v, true), [SHIFT] + down, s, true);
    WordLoads(reg, v, s);
    var s1 := s[reg := Sext32(v)];
    RunConcat([SHIFT], down, s1, true);
    RunOne(SHIFT, s1, true);
    var s2 := Exec(SHIFT, s1, true);
    ShiftsDown(reg, s2);
    SextOf(v, v);
  }

  /** Both halves, one beside the other. */
  lemma LongLoads(reg: nat, v: nat, s: Regs)
    requires reg != X0 && reg != T0 && reg + 1 != T0 && v < TWO64
    requires v / TWO32 != 0 && v / TWO32 != TWO32 - 1 && v % TWO32 != 0
    ensures var s' := Run(Wide(reg, v), s, true); Reg(s', reg) == v && OnlyChanges(s, s', reg, reg + 1)
  {
    hide Run, Wide;
    WideIs(reg, v);
    var high, low := v / TWO32, v % TWO32;
    var a, up, b, down, or := Wide(reg + 1, high), [SHIFT, Sll(reg + 1, reg + 1, T0)], Wide(reg, low),
                              [Sll(reg, reg, T0), Srl(reg, reg, T0)], Or(reg, reg, reg + 1);
    RunConcat(a + up + (b + down), [or], s, true);
    RunConcat(a + up, b + down, s, true);
    RunConcat(a, up, s, true);
    var s1 := Run(a, s, true);
    var s2 := Run(up, s1, true);
    RunConcat(b, down, s2, true);
    var s3 := Run(b, s2, true);
    var s4 := Run(down, s3, true);
    ShortLoads(reg + 1, high, s);
    ShiftsUp(reg + 1, s1);
    ShortLoads(reg, low, s2);
    ShiftsDown(reg, s3);
    RunOne(or, s4, true);
    Joined(high, low);
    assert Reg(s4, reg) == low && Reg(s4, reg + 1) == high * TWO32;
  }

  lemma Joined(high: nat, low: nat)
    requires low < TWO32 && high < TWO32
    ensures BitOr(low, high * TWO32) == high * TWO32 + low && high * TWO32 % TWO64 == high * TWO32 && low % TWO32 == low
  {
    Pow2Of64();
    OrDisjoint(high * TWO32, low, 32);
    OrComm(low, high * TWO32);
  }

  lemma HighLoads(reg: nat, v: nat, s: Regs)
    requires reg != X0 && reg != T0 && v < TWO64 && v / TWO32 != 0 && v / TWO32 != TWO32 - 1 && v % TWO32 == 0
    ensures var s' := Run(Wide(reg, v), s, true); Reg(s', reg) == v && OnlyChanges(s, s', reg, reg)
  {
    hide Run, Wide;
    WideIs(reg, v);
    var high := v / TWO32;
    RunConcat(Wide(reg, high), [SHIFT, Sll(reg, reg, T0)], s, true);
    ShortLoads(reg, high, s);
    ShiftsUp(reg, Run(Wide(reg, high), s, true));
    Joined(high, 0);
  }

  /** A constant is loaded exactly unless it lies between -2 to the 32 and -2 to the 31: of these the register
      is left with the low 32 bits. No register changes but the one loaded, the next, and the first temporary. */
  lemma LoadsExactly(reg: nat, v: nat, s: Regs)
    requires reg != X0 && reg != T0 && reg + 1 != T0 && v < TWO64
    ensures var s' := Run(Wide(reg, v), s, true);
            && (Reg(s', reg) == v <==> v < TWO64 - TWO32 || v >= TWO64 - TWO32 / 2)
            && (TWO64 - TWO32 <= v < TWO64 - TWO32 / 2 ==> Reg(s', reg) == v % TWO32)
            && OnlyChanges(s, s', reg, reg + 1)
  {
    var high := v / TWO32;
    Zones(v);
    hide Run, Wide, Reg, Sext32;
    if high == 0 {
      ShortLoads(reg, v, s);
    } else if high == TWO32 - 1 {
      NegativeWord(v);
      NegativeLoads(reg, v, s);
    } else if v % TWO32 == 0 {
      HighLoads(reg, v, s);
    } else {
      LongLoads(reg, v, s);
    }
  }

  lemma Zones(v: nat)
    requires v < TWO64
    ensures v / TWO32 == TWO32 - 1 <==> v >= TWO64 - TWO32
    ensures v >= TWO64 - TWO32 ==> v % TWO32 == v - (TWO64 - TWO32)
    ensures v / TWO32 == 0 <==> v < TWO32
  {
  }

  lemma NegativeWord(v: nat)
    requires TWO64 - TWO32 <= v < TWO64
    ensures Sext32(v) == if v >= TWO64 - TWO32 / 2 then v else v % TWO32
  {
    Zones(v);
  }

  lemma NegativeLoads(reg: nat, v: nat, s: Regs)
    requires reg != X0 && v < TWO64 && v / TWO32 == TWO32 - 1
    ensures var s' := Run(Wide(reg, v), s, true); Reg(s', reg) == Sext32(v) && OnlyChanges(s, s', reg, reg)
  {
    hide Run, Wide, Word, Sext32;
    WideIs(reg, v);
    WordLoads(reg, v, s);
  }

  /** -2 to the 32 is loaded as 0. */
  lemma SignLost(reg: nat, s: Regs)
    requires reg != X0 && reg != T0 && reg + 1 != T0
    ensures Reg(Run(Wide(reg, TWO64 - TWO32), s, true), reg) == 0
  {
    hide Run, Wide, Reg;
    LoadsExactly(reg, TWO64 - TWO32, s);
  }
}
