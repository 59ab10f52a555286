/** Branch and jump instructions: how their offsets are taken apart into the fields of the instruction word,
    and what the machine puts together again (arch/riscv/asmgen_riscv.h). */
module RiscvAsm {
  import opened Arith

  const TWO32: nat := 0x1_0000_0000

  /** The bits of v from position lo on, n = 2^width of them, as shift and mask take them. */
  function Field(v: nat, lo: nat, n: nat): (r: nat)
    requires lo > 0 && n > 0
    ensures r < n
  {
    v / lo % n
  }

  datatype Imm = Imm(imm0: nat, imm1: nat, imm2: nat, imm3: nat)

  /** b_type_imm for the unsigned word that holds the offset. */
  function BImm(imm: nat): Imm {
    Imm(Field(imm, 0x800, 2), Field(imm, 2, 0x10), Field(imm, 0x20, 0x40), Field(imm, 0x8000_0000, 2))
  }

  /** j_type_imm for the unsigned word that holds the offset. */
  function JImm(imm: nat): Imm {
    Imm(Field(imm, 0x1000, 0x100), Field(imm, 0x800, 2), Field(imm, 2, 0x400), Field(imm, 0x10_0000, 2))
  }

  /** The offset of a branch: bit 12 is the sign. */
  function BOffset(i: Imm): int {
    i.imm0 * 0x800 + i.imm1 * 2 + i.imm2 * 0x20 - i.imm3 * 0x1000
  }

  /** The offset of a jump: bit 20 is the sign. */
  function JOffset(i: Imm): int {
    i.imm0 * 0x1000 + i.imm1 * 0x800 + i.imm2 * 2 - i.imm3 * 0x10_0000
  }

  /** An int as the unsigned 32-bit argument. */
  function U32(imm: int): (r: nat)
    ensures r < TWO32
  {
    imm % TWO32
  }

  /** What the assembler asks before it emits a branch: imm >> 12 is 0 or -1. */
  predicate Fits(imm: int) {
    -0x1000 <= imm < 0x1000
  }

  /** What a jump instruction reaches. */
  predicate JumpReach(imm: int) {
    -0x10_0000 <= imm < 0x10_0000
  }

  /** One field split off the bits from position lo on. */
  lemma NextField(v: nat, lo: nat, n: nat)
    requires lo > 0 && n > 0
    ensures lo * n > 0 && v / lo == Field(v, lo, n) + n * (v / (lo * n))
  {
    DivDiv(v, lo, n);
    DivModOf(v / lo, n);
    SwapMul(n, v / lo / n);
  }

  lemma BranchFields(v: nat)
    ensures v == v % 2 + BOffset(BImm(v)) + Field(v, 0x8000_0000, 2) * 0x1000 + 0x1000 * (v / 0x1000)
  {
    NextField(v, 2, 0x10);
    NextField(v, 0x20, 0x40);
    NextField(v, 0x800, 2);
  }

  lemma JumpFields(v: nat)
    ensures v == v % 2 + JOffset(JImm(v)) + Field(v, 0x10_0000, 2) * 0x10_0000 + 0x10_0000 * (v / 0x10_0000)
  {
    NextField(v, 2, 0x400);
    NextField(v, 0x800, 2);
    NextField(v, 0x1000, 0x100);
  }

  /** The sign of an int, as bit 31 of the word that holds it. */
  function Sign(imm: int): nat {
    if imm < 0 then 1 else 0
  }

  lemma Wrapped(imm: int)
    requires -0x8000_0000 <= imm < 0x8000_0000
    ensures U32(imm) == imm + Sign(imm) * TWO32 && U32(imm) % 2 == imm % 2
    ensures U32(imm) / 0x1000 == imm / 0x1000 + Sign(imm) * 0x10_0000
    ensures U32(imm) / 0x10_0000 == imm / 0x10_0000 + Sign(imm) * 0x1000
    ensures U32(imm) / 0x8000_0000 == Sign(imm)
  {
  }

  lemma BranchOffsetIs(imm: int)
    requires -0x8000_0000 <= imm < 0x8000_0000
    ensures BOffset(BImm(U32(imm))) == imm - imm % 2 - Sign(imm) * 0x1000 - 0x1000 * (imm / 0x1000)
  {
    hide BOffset, BImm;
    Wrapped(imm);
    BranchFields(U32(imm));
    assert Field(U32(imm), 0x8000_0000, 2) == Sign(imm);
    hide *;
  }

  lemma JumpOffsetIs(imm: int)
    requires -0x8000_0000 <= imm < 0x8000_0000
    ensures JOffset(JImm(U32(imm))) == imm - imm % 2 - (imm / 0x10_0000 % 2) * 0x10_0000 - 0x10_0000 * (imm / 0x10_0000)
  {
    hide JOffset, JImm;
    Wrapped(imm);
    JumpFields(U32(imm));
    assert Field(U32(imm), 0x10_0000, 2) == imm / 0x10_0000 % 2;
    hide *;
  }

  /** A conditional branch reaches its target exactly for the even offsets the assembler lets through. */
  lemma BranchOffsetExact(imm: int)
    requires -0x8000_0000 <= imm < 0x8000_0000
    ensures BOffset(BImm(U32(imm))) == imm <==> Fits(imm) && imm % 2 == 0
  {
    BranchOffsetIs(imm);
    hide BOffset, BImm, U32;
  }

  lemma UpperBits(imm: int)
    ensures var h := imm / 0x10_0000; (h % 2 + h == 0 <==> h == 0 || h == -1) && (h == 0 || h == -1 <==> JumpReach(imm))
  {
  }

  /** A jump reaches its target exactly for even offsets of less than a megabyte; the assembler does not check. */
  lemma JumpOffsetExact(imm: int)
    requires -0x8000_0000 <= imm < 0x8000_0000
    ensures JOffset(JImm(U32(imm))) == imm <==> JumpReach(imm) && imm % 2 == 0
  {
    JumpOffsetIs(imm);
    UpperBits(imm);
    hide JOffset, JImm, U32, JumpReach;
  }

  /** A jump over a megabyte goes a megabyte back. */
  lemma JumpTooFar()
    ensures JOffset(JImm(U32(0x10_0000))) == -0x10_0000
  {
    JumpOffsetIs(0x10_0000);
    hide JOffset, JImm, U32;
  }

  lemma FourthIsEven(imm: int)
    ensures imm % 4 == 0 ==> imm % 2 == 0
  {
    assert imm % 4 == 0 ==> imm == 2 * (2 * (imm / 4));
  }

  lemma BranchLands(imm: int)
    requires Fits(imm) && imm % 4 == 0
    ensures BOffset(BImm(U32(imm))) == imm
  {
    hide BOffset, BImm, U32;
    FourthIsEven(imm);
    BranchOffsetExact(imm);
  }

  lemma JumpLands(imm: int)
    requires JumpReach(imm) && imm % 4 == 0
    ensures JOffset(JImm(U32(imm))) == imm
  {
    hide JOffset, JImm, U32;
    FourthIsEven(imm);
    JumpOffsetExact(imm);
  }
}
