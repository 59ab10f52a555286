/** QUEUE: stack words are optimized together while they are being compiled, as long as nothing else was
    compiled and no label was taken in between (asm/rv-optim.fth, core/BEGIN.c, arch/riscv/core/THEN.c). */
module CodeQueue {
  import opened Wrappers
  import opened Machine
  import opened StackCode
  import opened Optimizer

  /** What happens to the code buffer: a stack word, an instruction of anything else, or a control-flow word
      that takes the current address as a label and bumps CSRI. */
  datatype Event = Stack(w: Word) | Emit(id: nat) | Label

  /** A stretch of compiled code. */
  datatype Segment = Words(ws: seq<Word>) | Other(id: nat) | Mark

  predicate Live(segs: seq<Segment>) {
    segs != [] && segs[|segs| - 1].Words? && |segs[|segs| - 1].ws| < USABLE
  }

  /** The stack words that go on from the end of the code, and the code in front of them. */
  function OpenWords(segs: seq<Segment>): seq<Word> {
    if Live(segs) then segs[|segs| - 1].ws else []
  }

  function Closed(segs: seq<Segment>): seq<Segment> {
    if Live(segs) then segs[..|segs| - 1] else segs
  }

  /** A stack word joins the words in front of it, up to fifteen; anything else starts afresh. */
  function Append(segs: seq<Segment>, e: Event): seq<Segment> {
    match e
    case Stack(w) => Closed(segs) + [Words(OpenWords(segs) + [w])]
    case Emit(id) => segs + [Other(id)]
    case Label => segs + [Mark]
  }

  function Compiled(es: seq<Event>): seq<Segment> {
    if es == [] then [] else Append(Compiled(es[..|es| - 1]), es[|es| - 1])
  }

  /** So many stack words in a row. */
  function InARow(ws: seq<Word>): (es: seq<Event>)
    ensures |es| == |ws|
  {
    seq(|ws|, i requires 0 <= i < |ws| => Stack(ws[i]))
  }

  /** Up to fifteen words in a row, behind anything else, are one stretch; the sixteenth starts a new one. */
  lemma {:induction false} OneGroup(es: seq<Event>, ws: seq<Word>)
    requires 1 <= |ws| <= 16 && (es == [] || !es[|es| - 1].Stack?)
    ensures Compiled(es + InARow(ws))
         == Compiled(es) + if |ws| == 16 then [Words(ws[..15]), Words(ws[15..])] else [Words(ws)]
  {
    hide Compiled, Append, Live, InARow;
    var n := |ws| - 1;
    OneMoreInARow(es, ws[..n], ws[n]);
    assert ws[..n] + [ws[n]] == ws;
    if n == 0 {
      FirstWord(es, ws[0]);
      assert es + InARow(ws[..n]) == es;
    } else {
      OneGroup(es, ws[..n]);
      WordJoins(Compiled(es), ws[..n], ws[n]);
      assert ws[n..] == [ws[n]] && (n == 15 ==> ws[..n] == ws[..15]);
    }
  }

  lemma OneMoreInARow(es: seq<Event>, ws: seq<Word>, w: Word)
    ensures Compiled(es + InARow(ws + [w])) == Append(Compiled(es + InARow(ws)), Stack(w))
  {
    RowGrows(ws, w);
    hide *;
    CompiledMore(es + InARow(ws), Stack(w));
    assert es + InARow(ws + [w]) == es + InARow(ws) + [Stack(w)];
  }

  lemma RowGrows(ws: seq<Word>, w: Word)
    ensures InARow(ws + [w]) == InARow(ws) + [Stack(w)]
  {
  }

  lemma CompiledMore(es: seq<Event>, e: Event)
    ensures Compiled(es + [e]) == Append(Compiled(es), e)
  {
    assert (es + [e])[..|es|] == es;
  }

  lemma WordJoins(front: seq<Segment>, ws: seq<Word>, w: Word)
    requires 1 <= |ws| <= 15
    ensures Append(front + [Words(ws)], Stack(w))
         == front + if |ws| == 15 then [Words(ws), Words([w])] else [Words(ws + [w])]
  {
    assert (front + [Words(ws)])[..|front|] == front;
    assert [] + [w] == [w];
    assert front + [Words(ws)] + [Words([w])] == front + [Words(ws), Words([w])];
  }

  lemma FirstWord(es: seq<Event>, w: Word)
    requires es == [] || !es[|es| - 1].Stack?
    ensures Append(Compiled(es), Stack(w)) == Compiled(es) + [Words([w])]
  {
    NotLive(es);
    hide Compiled, Live;
    assert [] + [w] == [w];
  }

  lemma NotLive(es: seq<Event>)
    requires es == [] || !es[|es| - 1].Stack?
    ensures !Live(Compiled(es))
  {
    if es != [] {
      LastNotWords(Compiled(es[..|es| - 1]), es[|es| - 1]);
    }
  }

  lemma LastNotWords(segs: seq<Segment>, e: Event)
    requires !e.Stack?
    ensures !Live(Append(segs, e))
  {
  }

  predicate AllOptimizable(segs: seq<Segment>) {
    forall k :: 0 <= k < |segs| && segs[k].Words? ==> Optimizable(segs[k].ws)
  }

  function SegmentCode(s: Segment): seq<Instr>
    requires s.Words? ==> Optimizable(s.ws)
  {
    match s
    case Words(ws) => Optimized(ws)
    case Other(id) => [Opaque(id)]
    case Mark => []
  }

  /** The code buffer for a row of segments. */
  function Layout(segs: seq<Segment>): seq<Instr>
    requires AllOptimizable(segs)
  {
    if segs == [] then [] else Layout(segs[..|segs| - 1]) + SegmentCode(segs[|segs| - 1])
  }

  lemma LayoutLast(segs: seq<Segment>, last: Segment)
    requires AllOptimizable(segs) && (last.Words? ==> Optimizable(last.ws))
    ensures AllOptimizable(segs + [last]) && Layout(segs + [last]) == Layout(segs) + SegmentCode(last)
  {
    assert (segs + [last])[..|segs|] == segs;
  }

  lemma {:induction false} LayoutConcat(a: seq<Segment>, b: seq<Segment>)
    requires AllOptimizable(a) && AllOptimizable(b)
    ensures AllOptimizable(a + b) && Layout(a + b) == Layout(a) + Layout(b)
  {
    if b == [] {
      assert a + b == a;
    } else {
      var front, last := b[..|b| - 1], b[|b| - 1];
      assert b == front + [last] && a + b == (a + front) + [last];
      LayoutConcat(a, front);
      LayoutLast(front, last);
      hide Layout, SegmentCode;
      LayoutLast(a + front, last);
    }
  }

  function PlainEvent(e: Event): seq<Instr> {
    match e
    case Stack(w) => Plain(w)
    case Emit(id) => [Opaque(id)]
    case Label => []
  }

  /** The code without the optimizer. */
  function Unoptimized(es: seq<Event>): seq<Instr> {
    if es == [] then [] else Unoptimized(es[..|es| - 1]) + PlainEvent(es[|es| - 1])
  }

  function SegmentPlain(s: Segment): seq<Instr> {
    match s
    case Words(ws) => PlainAll(ws)
    case Other(id) => [Opaque(id)]
    case Mark => []
  }

  function PlainLayout(segs: seq<Segment>): seq<Instr> {
    if segs == [] then [] else PlainLayout(segs[..|segs| - 1]) + SegmentPlain(segs[|segs| - 1])
  }

  lemma PlainLast(segs: seq<Segment>, last: Segment)
    ensures PlainLayout(segs + [last]) == PlainLayout(segs) + SegmentPlain(last)
  {
    assert (segs + [last])[..|segs|] == segs;
  }

  lemma OneMoreWord(ws: seq<Word>, w: Word)
    ensures PlainAll(ws + [w]) == PlainAll(ws) + Plain(w)
  {
    assert (ws + [w])[..|ws|] == ws;
  }

  lemma OpenPlain(segs: seq<Segment>)
    ensures PlainLayout(segs) == PlainLayout(Closed(segs)) + PlainAll(OpenWords(segs))
  {
  }

  lemma AppendPlain(segs: seq<Segment>, e: Event)
    ensures PlainLayout(Append(segs, e)) == PlainLayout(segs) + PlainEvent(e)
  {
    hide PlainLayout, PlainAll, Plain;
    match e
    case Emit(id) => PlainLast(segs, Other(id));
    case Label => PlainLast(segs, Mark);
    case Stack(w) =>
      OneMoreWord(OpenWords(segs), w);
      OpenPlain(segs);
      PlainLast(Closed(segs), Words(OpenWords(segs) + [w]));
  }

  /** Grouping the words does not change their order. */
  lemma {:induction false} PlainCompiled(es: seq<Event>)
    ensures PlainLayout(Compiled(es)) == Unoptimized(es)
  {
    if es != [] {
      PlainCompiled(es[..|es| - 1]);
      AppendPlain(Compiled(es[..|es| - 1]), es[|es| - 1]);
    }
  }

  lemma SameReflexive(st: State)
    ensures Same(st, st)
  {
  }

  lemma SameTransitive(a: State, b: State, c: State)
    requires Same(a, b) && Same(b, c)
    ensures Same(a, c)
  {
  }

  lemma {:induction false} PlainAllRespects(ws: seq<Word>, a: State, b: State, sem: Sem)
    requires Same(a, b)
    ensures Same(Exec(PlainAll(ws), a, sem), Exec(PlainAll(ws), b, sem))
  {
    if ws != [] {
      var n := |ws| - 1;
      var front := PlainAll(ws[..n]);
      PlainAllRespects(ws[..n], a, b, sem);
      ExecConcat(front, Plain(ws[n]), a, sem);
      ExecConcat(front, Plain(ws[n]), b, sem);
      PlainRespects(ws[n], Exec(front, a, sem), Exec(front, b, sem), sem);
    }
  }

  /** A segment's code does the same as its unoptimized code, from states that are the same. */
  lemma SegmentPreserves(s: Segment, a: State, b: State, sem: Sem)
    requires Respects(sem) && Same(a, b) && (s.Words? ==> Optimizable(s.ws))
    ensures Same(Exec(SegmentCode(s), a, sem), Exec(SegmentPlain(s), b, sem))
  {
    match s
    case Words(ws) =>
      OptimizePreserves(ws, a, sem);
      PlainAllRespects(ws, a, b, sem);
      SameTransitive(Exec(Optimized(ws), a, sem), Exec(PlainAll(ws), a, sem), Exec(PlainAll(ws), b, sem));
    case Other(id) =>
      ExecOne(Opaque(id), a, sem);
      ExecOne(Opaque(id), b, sem);
    case Mark =>
  }

  lemma {:induction false} LayoutPreserves(segs: seq<Segment>, a: State, b: State, sem: Sem)
    requires Respects(sem) && AllOptimizable(segs) && Same(a, b)
    ensures Same(Exec(Layout(segs), a, sem), Exec(PlainLayout(segs), b, sem))
  {
    if segs != [] {
      var n := |segs| - 1;
      LayoutPreserves(segs[..n], a, b, sem);
      ExecConcat(Layout(segs[..n]), SegmentCode(segs[n]), a, sem);
      ExecConcat(PlainLayout(segs[..n]), SegmentPlain(segs[n]), b, sem);
      SegmentPreserves(segs[n], Exec(Layout(segs[..n]), a, sem), Exec(PlainLayout(segs[..n]), b, sem), sem);
    }
  }

  /** The code kept while compiling means the same as the unoptimized code, for every stream of events and from
      states that are the same. */
  lemma QueuePreserves(es: seq<Event>, a: State, b: State, sem: Sem)
    requires Respects(sem) && AllOptimizable(Compiled(es)) && Same(a, b)
    ensures Same(Exec(Layout(Compiled(es)), a, sem), Exec(Unoptimized(es), b, sem))
  {
    LayoutPreserves(Compiled(es), a, b, sem);
    PlainCompiled(es);
  }

  lemma StreamPreserves(es: seq<Event>)
    requires AllOptimizable(Compiled(es))
    ensures forall st, sem :: Respects(sem) ==>
              Same(Exec(Layout(Compiled(es)), st, sem), Exec(Unoptimized(es), st, sem))
  {
    hide *;
    forall st, sem | Respects(sem)
      ensures Same(Exec(Layout(Compiled(es)), st, sem), Exec(Unoptimized(es), st, sem))
    {
      SameReflexive(st);
      QueuePreserves(es, st, st, sem);
    }
  }

  lemma AppendBehindMark(a: seq<Segment>, b: seq<Segment>, e: Event)
    requires a != [] && a[|a| - 1].Mark?
    ensures Append(a + b, e) == a + Append(b, e)
  {
    if b != [] {
      assert (a + b)[..|a + b| - 1] == a + b[..|b| - 1];
    }
  }

  /** Nothing in front of a label is joined with anything behind it. */
  lemma {:induction false} CompiledAtLabel(es: seq<Event>, es': seq<Event>)
    ensures Compiled(es + [Label] + es') == Compiled(es) + [Mark] + Compiled(es')
  {
    if es' == [] {
      assert (es + [Label] + es')[..|es|] == es;
    } else {
      var n := |es'| - 1;
      assert (es + [Label] + es')[..|es| + 1 + n] == es + [Label] + es'[..n];
      CompiledAtLabel(es, es'[..n]);
      AppendBehindMark(Compiled(es) + [Mark], Compiled(es'[..n]), es'[n]);
    }
  }

  lemma PartsOptimizable(a: seq<Segment>, b: seq<Segment>)
    requires AllOptimizable(a + [Mark] + b)
    ensures AllOptimizable(a) && AllOptimizable(b)
  {
    hide Optimizable;
    var all := a + [Mark] + b;
    assert forall k :: 0 <= k < |a| ==> all[k] == a[k];
    assert forall k :: 0 <= k < |b| ==> all[|a| + 1 + k] == b[k];
  }

  lemma MarkedLayout(a: seq<Segment>)
    requires AllOptimizable(a)
    ensures AllOptimizable(a + [Mark]) && Layout(a + [Mark]) == Layout(a)
  {
    LayoutLast(a, Mark);
  }

  lemma Halves(a: seq<Segment>, b: seq<Segment>)
    requires AllOptimizable(a + [Mark] + b)
    ensures AllOptimizable(a) && AllOptimizable(b)
    ensures Layout(a + [Mark] + b) == Layout(a) + Layout(b)
  {
    hide *;
    PartsOptimizable(a, b);
    MarkedLayout(a);
    LayoutConcat(a + [Mark], b);
  }

  /** A label stays good: the code in front of it is never touched again, so its address keeps pointing at
      code that means exactly the events after it. */
  lemma LabelStaysGood(es: seq<Event>, es': seq<Event>, st: State, sem: Sem)
    requires Respects(sem) && AllOptimizable(Compiled(es + [Label] + es'))
    ensures AllOptimizable(Compiled(es)) && AllOptimizable(Compiled(es'))
    ensures var code, here := Layout(Compiled(es + [Label] + es')), |Layout(Compiled(es))|;
            && here <= |code|
            && code[..here] == Layout(Compiled(es))
            && Same(Exec(code[here..], st, sem), Exec(Unoptimized(es'), st, sem))
  {
    hide *;
    CompiledAtLabel(es, es');
    Halves(Compiled(es), Compiled(es'));
    SameReflexive(st);
    QueuePreserves(es', st, st, sem);
  }

  function Labels(segs: seq<Segment>): nat {
    if segs == [] then 0 else Labels(segs[..|segs| - 1]) + if segs[|segs| - 1].Mark? then 1 else 0
  }

  predicate NoWords(segs: seq<Segment>) {
    forall k :: 0 <= k < |segs| ==> !segs[k].Words?
  }

  /** Behind the words being optimized there is nothing else exactly if no label was taken and no code added. */
  lemma {:induction false} NothingBehind(segs: seq<Segment>)
    requires NoWords(segs)
    ensures segs == [] <==> Labels(segs) == 0 && Layout(segs) == []
  {
    if segs != [] {
      NothingBehind(segs[..|segs| - 1]);
    }
  }

  /** The optimizer aborts nowhere in the stream. */
  ghost predicate Compilable(es: seq<Event>) {
    forall k :: 0 <= k <= |es| ==> AllOptimizable(Compiled(es[..k]))
  }

  /** No stack word of the stream reaches below the tracked cells, nor leaves none of them. */
  predicate WithinCells(es: seq<Event>) {
    forall k :: 0 <= k < |es| && es[k].Stack? ==>
      var p := Picture(OpenWords(Compiled(es[..k])) + [es[k].w]); p.Some? && p.value != []
  }

  lemma StartsEmpty(es: seq<Event>)
    ensures Compiled(es[..0]) == [] && Layout([]) == []
  {
  }

  lemma NextEvent(es: seq<Event>, n: nat)
    requires n < |es|
    ensures Compiled(es[..n + 1]) == Append(Compiled(es[..n]), es[n])
  {
    assert es[..n + 1][..n] == es[..n];
  }

  /** If the words a stack word would be optimized with cannot be, neither can the whole. */
  lemma LastGroup(segs: seq<Segment>, w: Word)
    ensures !Optimizable(OpenWords(segs) + [w]) ==> !AllOptimizable(Append(segs, Stack(w)))
  {
    hide Optimizable;
    var all := Append(segs, Stack(w));
    assert all[|all| - 1] == Words(OpenWords(segs) + [w]);
  }

  /** The compiler's code buffer with the optimizer's variables. */
  class Compiler {
    const base: int              // address of the code buffer
    var code: seq<Instr>         // the buffer up to HERE
    var csri: nat                // counts control-flow words
    var start: int               // START, 0 if nothing is being optimized
    var exp: int                 // EXP, the size of the optimized code
    var csg: nat                 // CSG, what csri was at START
    var sequence: seq<Word>      // SEQUENCE up to SEQ-I
    const usedReg: array<nat>    // USED, first and second cells
    const usedOff: array<nat>

    ghost var floor: nat         // the index from which on the code is the optimizer's business
    ghost var segs: seq<Segment> // what has been compiled from there on
    ghost var before: seq<Segment>, behind: seq<Segment> // around the words being optimized

    /** HERE, in bytes. */
    function Here(): int
      reads this`code
    {
      base + 4 * |code|
    }

    ghost predicate Valid()
      reads this
    {
      ValidUpTo([])
    }

    /** The same with code that has been emitted but is not accounted for yet. */
    ghost predicate ValidUpTo(extra: seq<Instr>)
      reads this
    {
      && Ready() && floor <= |code| && AllOptimizable(segs) && code[floor..] == Layout(segs) + extra
      && if start == 0 || Outdated() then !Live(segs) else Optimizing()
    }

    /** What has been compiled up to now will not be touched by the optimizer any more. */
    ghost predicate Outdated()
      reads this
    {
      csg < csri && !Live(segs)
    }

    /** Whatever other words have done to the code, the variables are in order. */
    ghost predicate Ready()
      reads this
    {
      && base > 0 && usedReg != usedOff && usedReg.Length == usedOff.Length == USABLE
      && (start != 0 ==> csg <= csri)
    }

    /** CSRI has been bumped since the optimizer started. */
    ghost predicate Bumped()
      reads this
    {
      Ready() && (start != 0 ==> csg < csri)
    }

    lemma ValidReady()
      requires Valid()
      ensures Ready()
    {
    }

    /** Whatever control-flow words have done to the code, the optimizer starts over behind it. */
    ghost method StartOver()
      requires Bumped()
      modifies `floor, `segs
      ensures Valid() && segs == [] && floor == |code|
    {
      floor, segs := |code|, [];
    }

    /** The variables describe the last stretch of stack words and how far it reaches. */
    ghost predicate Optimizing()
      reads this
    {
      && segs == before + [Words(sequence)] + behind
      && 1 <= |sequence| < USABLE && Optimizable(sequence) && AllOptimizable(before)
      && start == base + 4 * (floor + |Layout(before)|)
      && exp == 4 * |Optimized(sequence)|
      && NoWords(behind)
      && csri == csg + Labels(behind)
    }

    constructor (address: int)
      requires address > 0
      ensures Valid() && segs == [] && code == [] && base == address && floor == 0
    {
      base := address;
      code, csri, start, exp, csg, sequence, floor, segs, before, behind := [], 0, 0, 0, 0, [], 0, [], [], [];
      usedReg := new nat[USABLE];
      usedOff := new nat[USABLE];
    }

    /** The code the optimizer has nothing to do with is what it was. */
    twostate predicate Below()
      reads this
    {
      floor == old(floor) <= |code| && floor <= old(|code|) && code[..floor] == old(code[..floor])
    }

    /** An instruction of anything but a stack word. */
    method EmitOther(id: nat)
      requires Valid()
      modifies this
      ensures Valid() && segs == Append(old(segs), Emit(id)) && Below()
    {
      hide Layout, Optimizable;
      LayoutLast(segs, Other(id));
      Behind(behind, Other(id));
      code := code + [Opaque(id)];
      segs, behind := segs + [Other(id)], behind + [Other(id)];
    }

    /** BEGIN and the other control-flow words: the address of the label. */
    method TakeLabel() returns (address: int)
      requires Valid()
      modifies this
      ensures Valid() && segs == Append(old(segs), Label) && Below()
      ensures address == base + 4 * (floor + |Layout(old(segs))|) && csri == old(csri) + 1
    {
      hide Layout, Optimizable;
      LayoutLast(segs, Mark);
      Behind(behind, Mark);
      csri := csri + 1;
      address := Here();
      segs, behind := segs + [Mark], behind + [Mark];
    }

    /** The table USED and the code behind the first n instructions. */
    ghost function Table(n: nat): Loads
      reads this, usedReg, usedOff
      requires n <= |code|
    {
      Loads(usedReg[..], usedOff[..], code[n..])
    }

    method Reset()
      modifies this`exp, this`csg, this`start, this`sequence
      ensures exp == csg == start == 0 && sequence == []
    {
      exp, csg, start, sequence := 0, 0, 0, [];
    }

    method ClearUsed()
      requires usedReg != usedOff && usedReg.Length == usedOff.Length == USABLE
      modifies usedReg, usedOff
      ensures usedReg[..] == NoLoads().reg && usedOff[..] == NoLoads().off
      ensures forall k :: 0 <= k < 15 ==> usedReg[k] == k && usedOff[k] == 99
    {
      for i := 0 to USABLE
        invariant forall k :: 0 <= k < i ==> usedReg[k] == k && usedOff[k] == UNUSED
      {
        usedReg[i] := i;
        usedOff[i] := UNUSED;
      }
    }

    /** The words run on the compile-time stack. */
    method RunSymbolically() returns (pic: seq<nat>, off: int)
      requires Picture(sequence).Some?
      ensures pic == Picture(sequence).value && off == Offset(sequence)
    {
      pic, off := Start(), 0;
      var i := 0;
      while i < |sequence|
        invariant 0 <= i <= |sequence|
        invariant Picture(sequence[..i]) == Some(pic) && off == Offset(sequence[..i])
      {
        PrefixPicture(sequence, i + 1);
        assert sequence[..i + 1][..i] == sequence[..i];
        match sequence[i] {
          case Drop => pic, off := pic[1..], off - 1;
          case Dup => pic, off := [pic[0]] + pic, off + 1;
          case Swap => pic := [pic[1], pic[0]] + pic[2..];
          case Rot => pic := [pic[2], pic[0], pic[1]] + pic[3..];
        }
        i := i + 1;
      }
      assert sequence[..i] == sequence;
    }

    /** A register with the cell off for position i, loaded unless one holds it already. */
    method FetchRegisterOf(i: nat, reg: nat, off: nat, ghost n: nat)
      requires usedReg != usedOff && usedReg.Length == usedOff.Length == USABLE
      requires i < USABLE && reg == GetRegister(i) && n <= |code|
      modifies this`code, usedReg, usedOff
      ensures |old(code)| <= |code| && code[..n] == old(code[..n])
      ensures Table(n) == Fetch(old(Table(n)), i, off)
    {
      var k := 0;
      while k < USABLE
        invariant 0 <= k <= USABLE && Holder(usedOff[..], off, 0) == Holder(usedOff[..], off, k)
      {
        if usedOff[k] == off {
          usedReg[i] := k;
          return;
        }
        k := k + 1;
      }
      usedOff[i] := off;
      usedReg[i] := i;
      code := code + [FetchCell(reg, off)];
    }

    /** Second pass: loads the cells that move, deepest position first; aborts on one without a register. */
    method LoadPass(pic: seq<nat>, off: int) returns (aborted: bool)
      requires usedReg != usedOff && usedReg.Length == usedOff.Length == USABLE
      requires usedReg[..] == NoLoads().reg && usedOff[..] == NoLoads().off
      modifies this`code, usedReg, usedOff
      ensures aborted <==> Aborts(pic, off)
      ensures aborted ==> code == old(code)
      ensures !aborted ==> code == old(code) + LoadsFrom(pic, off, 0).code
      ensures !aborted ==> usedReg[..] == LoadsFrom(pic, off, 0).reg
    {
      ghost var n := |code|;
      var i := |pic|;
      while i > 0
        invariant 0 <= i <= |pic| && n <= |code| && code[..n] == old(code)
        invariant Aborts(pic, off) ==> code == old(code) && exists j :: USABLE <= j < i && Changed(pic, off, j)
        invariant !Aborts(pic, off) ==> Table(n) == LoadsFrom(pic, off, i)
      {
        i := i - 1;
        if Changed(pic, off, i) {
          if i >= USABLE {
            return true;
          }
          FetchRegisterOf(i, GetRegister(i), pic[i] + 1, n);
        }
      }
      assert code == code[..n] + code[n..];
      return false;
    }

    /** Third pass: stores the registers to the cells that change, deepest position first. */
    method StorePass(pic: seq<nat>, off: int)
      requires usedReg.Length == USABLE && !Aborts(pic, off) && forall k :: 0 <= k < USABLE ==> usedReg[k] < USABLE
      modifies this`code
      ensures code == old(code) + StoresFrom(pic, off, 0, usedReg[..])
    {
      var i := |pic|;
      while i > 0
        invariant 0 <= i <= |pic| && code == old(code) + StoresFrom(pic, off, i, usedReg[..])
      {
        i := i - 1;
        if Changed(pic, off, i) {
          NotTooDeep(pic, off, i);
          code := code + [StoreCell(GetRegister(usedReg[i]), i + 1)];
        }
      }
    }

    /** Loads, the move of the stack pointer, and stores. */
    method EmitCode(pic: seq<nat>, off: int) returns (aborted: bool)
      requires usedReg != usedOff && usedReg.Length == usedOff.Length == USABLE
      requires |pic| == USABLE + off && forall k :: 0 <= k < |pic| ==> pic[k] < USABLE
      modifies this`code, usedReg, usedOff
      ensures aborted <==> Aborts(pic, off)
      ensures code == old(code) + if aborted then [] else CodeFor(pic, off)
    {
      ClearUsed();
      hide *;
      aborted := LoadPass(pic, off);
      if aborted {
        return;
      }
      CodeForParts(pic, off);
      MoveAndStore(pic, off);
      Grouped(old(code), LoadsFrom(pic, off, 0).code, if off == 0 then [] else [Grow(off)],
              StoresFrom(pic, off, 0, usedReg[..]));
    }

    method MoveAndStore(pic: seq<nat>, off: int)
      requires usedReg.Length == USABLE && !Aborts(pic, off) && forall k :: 0 <= k < USABLE ==> usedReg[k] < USABLE
      modifies this`code
      ensures code == old(code) + (if off == 0 then [] else [Grow(off)]) + StoresFrom(pic, off, 0, usedReg[..])
    {
      hide *;
      if off != 0 {
        code := code + [Grow(off)];
      }
      StorePass(pic, off);
    }

    /** OPTIMIZE: goes back to START and compiles the words of the sequence anew. */
    method Optimize() returns (aborted: bool)
      requires usedReg != usedOff && usedReg.Length == usedOff.Length == USABLE
      requires 0 < base <= start && (start - base) % 4 == 0 && (start - base) / 4 <= |code|
      requires 1 <= |sequence| <= USABLE && Picture(sequence).Some? && Picture(sequence).value != []
      modifies this`code, this`exp, this`csg, this`start, this`sequence, usedReg, usedOff
      ensures aborted <==> !Optimizable(old(sequence))
      ensures code == old(code[..(start - base) / 4]) + if aborted then [] else Optimized(old(sequence))
      ensures !aborted && |old(sequence)| == USABLE ==> start == 0
      ensures !aborted && |old(sequence)| < USABLE ==>
                && start == old(start) && csg == old(csg) && sequence == old(sequence)
                && exp == 4 * |Optimized(old(sequence))|
    {
      PictureRange(sequence);
      code := code[..(start - base) / 4];
      var pic, off := RunSymbolically();
      hide Picture, Offset, Aborts, CodeFor;
      aborted := EmitCode(pic, off);
      if aborted {
        return;
      }
      exp := Here() - start;
      if |sequence| == USABLE {
        Reset();
      }
    }

    /** The words that would be optimized together if w came next. */
    ghost function NextWords(w: Word): seq<Word>
      reads this
    {
      OpenWords(segs) + [w]
    }

    /** Starts over with the word just compiled. */
    method StartGroup(w: Word, size: nat)
      modifies this`exp, this`csg, this`start, this`sequence
      ensures csg == csri && exp == size && start == Here() - size && sequence == [w]
    {
      Reset();
      csg := csri;
      exp := size;
      sequence := sequence + [w];
      start := Here() - exp;
    }

    /** Adds the word to the sequence if CSRI and the code size show that nothing came between it and the
        words in front of it; otherwise starts over. */
    method JoinOrStart(w: Word)
      requires ValidUpTo(Plain(w))
      modifies this`exp, this`csg, this`start, this`sequence
      ensures sequence == NextWords(w) && csg == csri && 1 <= |sequence| <= USABLE
      ensures AllOptimizable(Closed(segs)) && start == base + 4 * (floor + |Layout(Closed(segs))|)
    {
      hide Layout, Optimizable, Plain, NoWords;
      var size := 4 * |Plain(w)|;
      exp := exp + size;
      AtTheEnd(segs);
      if start == 0 {
        StartGroup(w, size);
      } else {
        if !Outdated() {
          Surrounding(before, sequence, behind);
        }
        if csri == csg && Here() - start == exp {
          sequence := sequence + [w];
        } else {
          StartGroup(w, size);
        }
      }
    }

    /** QUEUE: called behind the code of the word; optimizes it together with the words it follows. */
    method Queue(w: Word) returns (aborted: bool)
      requires ValidUpTo(Plain(w))
      requires Picture(NextWords(w)).Some? && Picture(NextWords(w)).value != []
      modifies this, usedReg, usedOff
      ensures aborted <==> !Optimizable(old(NextWords(w)))
      ensures Below()
      ensures !aborted ==> Valid() && segs == Append(old(segs), Stack(w))
      ensures aborted ==> AllOptimizable(Closed(old(segs))) && code[floor..] == Layout(Closed(old(segs)))
    {
      hide Layout, Picture, Optimizable, Plain, Optimizing, Outdated, Optimized;
      AtTheEnd(segs);
      JoinOrStart(w);
      ghost var ws, front := sequence, Closed(segs);
      assert code[..(start - base) / 4] == code[..floor] + Layout(front);
      aborted := Optimize();
      if !aborted {
        Settle(front, ws);
      }
    }

    /** Records that the optimized words ws are the last segment now. */
    ghost method Settle(front: seq<Segment>, ws: seq<Word>)
      requires base > 0 && usedReg != usedOff && usedReg.Length == usedOff.Length == USABLE
      requires AllOptimizable(front) && Optimizable(ws) && 1 <= |ws| <= USABLE
      requires floor <= |code| && code[floor..] == Layout(front) + Optimized(ws)
      requires if |ws| == USABLE then start == 0
               else start == base + 4 * (floor + |Layout(front)|) && csg == csri && sequence == ws
                    && exp == 4 * |Optimized(ws)|
      modifies this`segs, this`before, this`behind
      ensures Valid() && segs == front + [Words(ws)]
    {
      hide Layout, Optimizable;
      before, behind, segs := front, [], front + [Words(ws)];
      LayoutLast(front, Words(ws));
      assert segs == before + [Words(ws)] + behind;
    }

    /** A stack word: its own code first, then the optimizer. */
    method CompileWord(w: Word) returns (aborted: bool)
      requires Valid()
      requires Picture(NextWords(w)).Some? && Picture(NextWords(w)).value != []
      modifies this, usedReg, usedOff
      ensures aborted <==> !Optimizable(old(NextWords(w)))
      ensures Below()
      ensures !aborted ==> Valid() && segs == Append(old(segs), Stack(w))
      ensures aborted ==> AllOptimizable(Closed(old(segs))) && code[floor..] == Layout(Closed(old(segs)))
    {
      hide Layout, Picture, Optimizable, Plain;
      code := code + Plain(w);
      aborted := Queue(w);
    }

    /** A whole stream of events, up to an abort. The code left behind means the same as the unoptimized code
        of all events dealt with. */
    method CompileAll(es: seq<Event>) returns (n: nat, aborted: bool)
      requires Valid() && segs == [] && WithinCells(es)
      modifies this, usedReg, usedOff
      ensures n <= |es| && (aborted <==> n < |es|)
      ensures aborted ==> !AllOptimizable(Compiled(es[..n + 1]))
      ensures !aborted ==> Valid() && segs == Compiled(es) && Compilable(es)
      ensures !aborted ==> code == old(code) + Layout(Compiled(es))
      ensures !aborted ==> forall st, sem :: Respects(sem) ==>
                             Same(Exec(code[old(|code|)..], st, sem), Exec(Unoptimized(es), st, sem))
    {
      hide Layout, Picture, Optimizable, Plain, Exec, Same, Respects, Unoptimized, Compiled, Append, AllOptimizable;
      StartsEmpty(es);
      n, aborted := 0, false;
      while n < |es|
        invariant n <= |es| && Valid() && segs == Compiled(es[..n]) && Below()
        invariant forall k :: 0 <= k <= n ==> AllOptimizable(Compiled(es[..k]))
        decreases |es| - n
      {
        NextEvent(es, n);
        match es[n] {
          case Emit(id) => EmitOther(id);
          case Label => var _ := TakeLabel();
          case Stack(w) =>
            LastGroup(segs, w);
            aborted := CompileWord(w);
            if aborted {
              return;
            }
        }
        n := n + 1;
      }
      assert es[..n] == es;
      assert code == code[..floor] + code[floor..];
      assert code == old(code) + Layout(segs);
      assert code[|old(code)|..] == Layout(segs);
      StreamPreserves(es);
    }
  }

  lemma AtTheEnd(segs: seq<Segment>)
    requires AllOptimizable(segs)
    ensures AllOptimizable(Closed(segs))
    ensures Layout(segs) == Layout(Closed(segs)) + if Live(segs) then Optimized(OpenWords(segs)) else []
  {
  }

  /** What the variables compare: csri and the code size show whether something is behind the words. */
  lemma Surrounding(before: seq<Segment>, ws: seq<Word>, behind: seq<Segment>)
    requires AllOptimizable(before) && Optimizable(ws) && NoWords(behind) && |ws| < USABLE
    ensures var segs := before + [Words(ws)] + behind;
            && (behind == [] <==> Labels(behind) == 0 && Layout(behind) == [])
            && |Layout(segs)| == |Layout(before)| + |Optimized(ws)| + |Layout(behind)|
            && (Live(segs) <==> behind == [])
            && (behind == [] ==> OpenWords(segs) == ws && Closed(segs) == before)
  {
    NothingBehind(behind);
    LayoutLast(before, Words(ws));
    LayoutConcat(before + [Words(ws)], behind);
  }

  lemma Grouped(a: seq<Instr>, b: seq<Instr>, c: seq<Instr>, d: seq<Instr>)
    ensures ((a + b) + c) + d == a + ((b + c) + d)
  {
  }

  lemma CodeForParts(p: seq<nat>, off: int)
    requires |p| == USABLE + off && !Aborts(p, off) && forall k :: 0 <= k < |p| ==> p[k] < USABLE
    ensures var l := LoadsFrom(p, off, 0);
            && InRange(p, off) && |l.reg| == USABLE && (forall k :: 0 <= k < USABLE ==> l.reg[k] < USABLE)
            && CodeFor(p, off) == l.code + (if off == 0 then [] else [Grow(off)]) + StoresFrom(p, off, 0, l.reg)
  {
    LoadsOnce(p, off, 0);
  }

  lemma {:induction false} PrefixPicture(ws: seq<Word>, i: nat)
    requires i <= |ws| && Picture(ws).Some?
    ensures Picture(ws[..i]).Some?
  {
    if i == |ws| {
      assert ws[..i] == ws;
    } else {
      assert ws[..|ws| - 1][..i] == ws[..i];
      PrefixPicture(ws[..|ws| - 1], i);
    }
  }

  lemma Behind(behind: seq<Segment>, last: Segment)
    ensures Labels(behind + [last]) == Labels(behind) + if last.Mark? then 1 else 0
  {
    assert (behind + [last])[..|behind|] == behind;
  }
}
