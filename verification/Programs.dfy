/** Programs as the compiler reads them, stretches of plain words between control structures, with and without the
    optimizer: it changes neither where a program comes to an end nor what it leaves on the stack. */
module Programs {
  import opened Wrappers
  import opened Machine
  import opened StackCode
  import opened Optimizer
  import opened CodeQueue
  import opened Structured

  /** The events up to the first control-flow word, the control structure, and the rest. */
  datatype Program =
    | Last(es: seq<Event>)
    | If(es: seq<Event>, t: Program, rest: Program)
    | IfElse(es: seq<Event>, t: Program, e: Program, rest: Program)
    | Until(es: seq<Event>, body: Program, rest: Program)
    | While(es: seq<Event>, test: Program, body: Program, rest: Program)
    | Forever(es: seq<Event>, body: Program, rest: Program)

  /** The optimizer aborts in none of the stretches. */
  ghost predicate AllCompilable(p: Program) {
    Compilable(p.es)
    && match p
       case Last(_) => true
       case If(_, t, rest) => AllCompilable(t) && AllCompilable(rest)
       case IfElse(_, t, e, rest) => AllCompilable(t) && AllCompilable(e) && AllCompilable(rest)
       case Until(_, b, rest) => AllCompilable(b) && AllCompilable(rest)
       case While(_, test, b, rest) => AllCompilable(test) && AllCompilable(b) && AllCompilable(rest)
       case Forever(_, b, rest) => AllCompilable(b) && AllCompilable(rest)
  }

  /** No stretch reaches below the cells that the optimizer tracks, nor leaves none of them. */
  predicate AllWithin(p: Program) {
    WithinCells(p.es)
    && match p
       case Last(_) => true
       case If(_, t, rest) => AllWithin(t) && AllWithin(rest)
       case IfElse(_, t, e, rest) => AllWithin(t) && AllWithin(e) && AllWithin(rest)
       case Until(_, b, rest) => AllWithin(b) && AllWithin(rest)
       case While(_, test, b, rest) => AllWithin(test) && AllWithin(b) && AllWithin(rest)
       case Forever(_, b, rest) => AllWithin(b) && AllWithin(rest)
  }

  /** The stretches of a program. */
  function Stretches(p: Program): set<seq<Event>> {
    {p.es}
    + match p
      case Last(_) => {}
      case If(_, t, rest) => Stretches(t) + Stretches(rest)
      case IfElse(_, t, e, rest) => Stretches(t) + Stretches(e) + Stretches(rest)
      case Until(_, b, rest) => Stretches(b) + Stretches(rest)
      case While(_, test, b, rest) => Stretches(test) + Stretches(b) + Stretches(rest)
      case Forever(_, b, rest) => Stretches(b) + Stretches(rest)
  }

  lemma {:induction false} OfAllStretches(p: Program)
    ensures AllCompilable(p) <==> forall es :: es in Stretches(p) ==> Compilable(es)
    ensures AllWithin(p) <==> forall es :: es in Stretches(p) ==> WithinCells(es)
  {
    hide Compilable, WithinCells;
    match p
    case Last(_) =>
    case If(_, t, rest) => OfAllStretches(t); OfAllStretches(rest);
    case IfElse(_, t, e, rest) => OfAllStretches(t); OfAllStretches(e); OfAllStretches(rest);
    case Until(_, b, rest) => OfAllStretches(b); OfAllStretches(rest);
    case While(_, test, b, rest) => OfAllStretches(test); OfAllStretches(b); OfAllStretches(rest);
    case Forever(_, b, rest) => OfAllStretches(b); OfAllStretches(rest);
  }

  /** The code of one stretch. */
  ghost function StretchCode(es: seq<Event>, queued: bool): seq<Instr>
    requires queued ==> Compilable(es)
  {
    if queued then
      assert es[..|es|] == es;
      Layout(Compiled(es))
    else Unoptimized(es)
  }

  /** Instructions one after the other. */
  function Line(code: seq<Instr>): Stmt {
    if code == [] then Skip else Both(Line(code[..|code| - 1]), Do(code[|code| - 1]))
  }

  /** The program on instructions. */
  ghost function Filled(p: Program, queued: bool): Stmt
    requires queued ==> AllCompilable(p)
    decreases p, 1
  {
    var line := Line(StretchCode(p.es, queued));
    if p.Last? then line else Both(line, Both(Control(p, queued), Filled(p.rest, queued)))
  }

  /** The first control structure. */
  ghost function Control(p: Program, queued: bool): Stmt
    requires !p.Last? && (queued ==> AllCompilable(p))
    decreases p, 0
  {
    match p
    case If(_, t, _) => Stmt.If(Filled(t, queued))
    case IfElse(_, t, e, _) => Stmt.IfElse(Filled(t, queued), Filled(e, queued))
    case Until(_, b, _) => Stmt.Until(Filled(b, queued))
    case While(_, test, b, _) => Stmt.While(Filled(test, queued), Filled(b, queued))
    case Forever(_, b, _) => Stmt.Forever(Filled(b, queued))
  }

  lemma {:induction false} LineCode(code: seq<Instr>)
    ensures Gen(Line(code)) == code && (Reachable(Line(code)) <==> Straight(code))
  {
    if code != [] {
      LineCode(code[..|code| - 1]);
    }
  }

  lemma {:induction false} LineMeans(code: seq<Instr>, d: State, fuel: nat, sem: Sem)
    ensures Eval(Line(code), d, fuel, sem) == Some(Exec(code, d, sem))
  {
    if code != [] {
      LineMeans(code[..|code| - 1], d, fuel, sem);
    }
  }

  /** Both do not come to an end, or both do in states that are the same to every word. */
  ghost predicate SameOutcome(a: Option<State>, b: Option<State>) {
    a.Some? == b.Some? && (a.Some? ==> Same(a.value, b.value))
  }

  /** The flag is the same, and so is what is below it. */
  lemma PopSame(a: State, b: State)
    requires Same(a, b)
    ensures Same(Pop(a), Pop(b)) && Reg(Pop(a), A2) == Reg(Pop(b), A2)
  {
    assert At(a, 0) == At(b, 0);
    forall i: nat ensures At(Pop(a), i) == At(Pop(b), i) {
      assert At(a, i + 1) == At(b, i + 1);
    }
  }

  /** From states that are the same both statements run alike. */
  ghost predicate Alike(s: Stmt, t: Stmt, sem: Sem) {
    forall a, b, fuel: nat :: RunAlike(s, t, a, b, fuel, sem)
  }

  ghost predicate RunAlike(s: Stmt, t: Stmt, a: State, b: State, fuel: nat, sem: Sem) {
    Same(a, b) ==> SameOutcome(Eval(s, a, fuel, sem), Eval(t, b, fuel, sem))
  }

  lemma StretchAlike(es: seq<Event>, sem: Sem)
    requires Respects(sem) && Compilable(es)
    ensures Alike(Line(StretchCode(es, true)), Line(StretchCode(es, false)), sem)
  {
    assert es[..|es|] == es;
    hide Respects, Eval, Compilable, Same;
    forall a, b, fuel: nat
      ensures RunAlike(Line(StretchCode(es, true)), Line(StretchCode(es, false)), a, b, fuel, sem)
    {
      if Same(a, b) {
        QueuePreserves(es, a, b, sem);
        LineMeans(StretchCode(es, true), a, fuel, sem);
        LineMeans(StretchCode(es, false), b, fuel, sem);
      }
    }
  }

  lemma BothAlike(s: Stmt, t: Stmt, s': Stmt, t': Stmt, sem: Sem)
    requires Alike(s, s', sem) && Alike(t, t', sem)
    ensures Alike(Both(s, t), Both(s', t'), sem)
  {
    hide Same;
    forall a, b, fuel: nat ensures RunAlike(Both(s, t), Both(s', t'), a, b, fuel, sem) {
      assert RunAlike(s, s', a, b, fuel, sem);
      var r, r' := Eval(s, a, fuel, sem), Eval(s', b, fuel, sem);
      if r.Some? && r'.Some? {
        assert RunAlike(t, t', r.value, r'.value, fuel, sem);
      }
    }
  }

  lemma IfElseAlike(t: Stmt, e: Stmt, t': Stmt, e': Stmt, sem: Sem)
    requires Alike(t, t', sem) && Alike(e, e', sem)
    ensures Alike(Stmt.IfElse(t, e), Stmt.IfElse(t', e'), sem) && Alike(Stmt.If(t), Stmt.If(t'), sem)
  {
    forall a, b, fuel: nat
      ensures RunAlike(Stmt.IfElse(t, e), Stmt.IfElse(t', e'), a, b, fuel, sem)
      ensures RunAlike(Stmt.If(t), Stmt.If(t'), a, b, fuel, sem)
    {
      if Same(a, b) {
        PopSame(a, b);
        hide Same, Pop;
        assert RunAlike(t, t', Pop(a), Pop(b), fuel, sem) && RunAlike(e, e', Pop(a), Pop(b), fuel, sem);
      }
    }
  }

  lemma {:induction false} UntilAlike(s: Stmt, t: Stmt, a: State, b: State, fuel: nat, sem: Sem)
    requires Alike(s, t, sem)
    ensures RunAlike(Stmt.Until(s), Stmt.Until(t), a, b, fuel, sem)
    decreases fuel
  {
    hide Same, Pop;
    assert RunAlike(s, t, a, b, fuel, sem);
    var r, r' := Eval(s, a, fuel, sem), Eval(t, b, fuel, sem);
    if fuel > 0 && Same(a, b) && r.Some? {
      PopSame(r.value, r'.value);
      UntilAlike(s, t, Pop(r.value), Pop(r'.value), fuel - 1, sem);
    }
  }

  lemma {:induction false} WhileAlike(test: Stmt, s: Stmt, test': Stmt, s': Stmt,
                                      a: State, b: State, fuel: nat, sem: Sem)
    requires Alike(test, test', sem) && Alike(s, s', sem)
    ensures RunAlike(Stmt.While(test, s), Stmt.While(test', s'), a, b, fuel, sem)
    decreases fuel
  {
    hide Same, Pop;
    assert RunAlike(test, test', a, b, fuel, sem);
    var r, r' := Eval(test, a, fuel, sem), Eval(test', b, fuel, sem);
    if fuel > 0 && Same(a, b) && r.Some? {
      PopSame(r.value, r'.value);
      var a1, b1 := Pop(r.value), Pop(r'.value);
      assert RunAlike(s, s', a1, b1, fuel, sem);
      if Eval(s, a1, fuel, sem).Some? {
        WhileAlike(test, s, test', s', Eval(s, a1, fuel, sem).value, Eval(s', b1, fuel, sem).value, fuel - 1, sem);
      }
    }
  }

  lemma {:induction false} ForeverAlike(s: Stmt, t: Stmt, a: State, b: State, fuel: nat, sem: Sem)
    requires Alike(s, t, sem)
    ensures RunAlike(Stmt.Forever(s), Stmt.Forever(t), a, b, fuel, sem)
    decreases fuel
  {
    hide Same;
    assert RunAlike(s, t, a, b, fuel, sem);
    var r, r' := Eval(s, a, fuel, sem), Eval(t, b, fuel, sem);
    if fuel > 0 && Same(a, b) && r.Some? {
      ForeverAlike(s, t, r.value, r'.value, fuel - 1, sem);
    }
  }

  lemma LoopsAlike(test: Stmt, s: Stmt, test': Stmt, s': Stmt, sem: Sem)
    requires Alike(test, test', sem) && Alike(s, s', sem)
    ensures Alike(Stmt.Until(s), Stmt.Until(s'), sem) && Alike(Stmt.Forever(s), Stmt.Forever(s'), sem)
    ensures Alike(Stmt.While(test, s), Stmt.While(test', s'), sem)
  {
    hide RunAlike;
    forall a, b, fuel: nat
      ensures RunAlike(Stmt.Until(s), Stmt.Until(s'), a, b, fuel, sem)
      ensures RunAlike(Stmt.Forever(s), Stmt.Forever(s'), a, b, fuel, sem)
      ensures RunAlike(Stmt.While(test, s), Stmt.While(test', s'), a, b, fuel, sem)
    {
      UntilAlike(s, s', a, b, fuel, sem);
      ForeverAlike(s, s', a, b, fuel, sem);
      WhileAlike(test, s, test', s', a, b, fuel, sem);
    }
  }

  /** The optimizer changes neither whether a program comes to an end, with any limit on the rounds of its loops, nor
      the stack and anything else but registers that it leaves. */
  lemma {:induction false} QueueKeepsMeaning(p: Program, sem: Sem)
    requires Respects(sem) && AllCompilable(p)
    ensures Alike(Filled(p, true), Filled(p, false), sem)
    decreases p, 1
  {
    hide Alike, Respects, Compilable, Line, StretchCode;
    StretchAlike(p.es, sem);
    if !p.Last? {
      ControlAlike(p, sem);
      QueueKeepsMeaning(p.rest, sem);
      BothAlike(Control(p, true), Filled(p.rest, true), Control(p, false), Filled(p.rest, false), sem);
      BothAlike(Line(StretchCode(p.es, true)), Both(Control(p, true), Filled(p.rest, true)),
                Line(StretchCode(p.es, false)), Both(Control(p, false), Filled(p.rest, false)), sem);
    }
  }

  lemma {:induction false} ControlAlike(p: Program, sem: Sem)
    requires Respects(sem) && AllCompilable(p) && !p.Last?
    ensures Alike(Control(p, true), Control(p, false), sem)
    decreases p, 0
  {
    hide Alike, Respects, Compilable, Filled;
    match p
    case If(_, t, _) =>
      QueueKeepsMeaning(t, sem);
      IfElseAlike(Filled(t, true), Filled(t, true), Filled(t, false), Filled(t, false), sem);
    case IfElse(_, t, e, _) =>
      QueueKeepsMeaning(t, sem);
      QueueKeepsMeaning(e, sem);
      IfElseAlike(Filled(t, true), Filled(e, true), Filled(t, false), Filled(e, false), sem);
    case While(_, test, b, _) =>
      QueueKeepsMeaning(test, sem);
      QueueKeepsMeaning(b, sem);
      LoopsAlike(Filled(test, true), Filled(b, true), Filled(test, false), Filled(b, false), sem);
    case Until(_, b, _) =>
      QueueKeepsMeaning(b, sem);
      LoopsAlike(Filled(b, true), Filled(b, true), Filled(b, false), Filled(b, false), sem);
    case Forever(_, b, _) =>
      QueueKeepsMeaning(b, sem);
      LoopsAlike(Filled(b, true), Filled(b, true), Filled(b, false), Filled(b, false), sem);
  }

  /** The code and the program come to the same ends, up to registers and dead cells. */
  ghost predicate SameEnds(code: seq<Instr>, from: nat, to: nat, s: Stmt, sem: Sem) {
    forall a, b :: Same(a, b) ==> SameEndsFrom(code, from, to, s, a, b, sem)
  }

  ghost predicate SameEndsFrom(code: seq<Instr>, from: nat, to: nat, s: Stmt, a: State, b: State, sem: Sem) {
    && (forall a' :: Ends(code, from, to, a, a', sem) ==> exists b' :: Means(s, b, b', sem) && Same(a', b'))
    && (forall b' :: Means(s, b, b', sem) ==> exists a' :: Ends(code, from, to, a, a', sem) && Same(a', b'))
  }

  lemma AlikeEnds(s: Stmt, t: Stmt, a: State, b: State, fuel: nat, sem: Sem)
    requires Alike(s, t, sem) && Same(a, b)
    ensures SameOutcome(Eval(s, a, fuel, sem), Eval(t, b, fuel, sem))
  {
    assert RunAlike(s, t, a, b, fuel, sem);
  }

  lemma AlikeMeans(s: Stmt, t: Stmt, a: State, b: State, sem: Sem)
    requires Alike(s, t, sem) && Same(a, b)
    ensures forall a' :: Means(s, a, a', sem) ==> exists b' :: Means(t, b, b', sem) && Same(a', b')
    ensures forall b' :: Means(t, b, b', sem) ==> exists a' :: Means(s, a, a', sem) && Same(a', b')
  {
    hide Alike, Same, Eval;
    forall a' | Means(s, a, a', sem) ensures exists b' :: Means(t, b, b', sem) && Same(a', b') {
      var fuel: nat :| Eval(s, a, fuel, sem) == Some(a');
      AlikeEnds(s, t, a, b, fuel, sem);
      assert Means(t, b, Eval(t, b, fuel, sem).value, sem);
    }
    forall b' | Means(t, b, b', sem) ensures exists a' :: Means(s, a, a', sem) && Same(a', b') {
      var fuel: nat :| Eval(t, b, fuel, sem) == Some(b');
      AlikeEnds(s, t, a, b, fuel, sem);
      assert Means(s, a, Eval(s, a, fuel, sem).value, sem);
    }
  }

  lemma SameEndsOfAlike(s: Stmt, t: Stmt, code: seq<Instr>, at: nat, sem: Sem)
    requires Placed(code, at, Gen(s)) && Reachable(s) && Alike(s, t, sem)
    ensures SameEnds(code, at, at + |Gen(s)|, t, sem)
  {
    hide Alike, Same, Gen, Placed, Reachable, Means, Ends, SameEndsFrom;
    forall a, b | Same(a, b) ensures SameEndsFrom(code, at, at + |Gen(s)|, t, a, b, sem) {
      forall a' ensures Ends(code, at, at + |Gen(s)|, a, a', sem) <==> Means(s, a, a', sem) {
        CompiledMeansProgram(s, code, at, a, a', sem);
      }
      AlikeMeans(s, t, a, b, sem);
      EndsLike(code, at, at + |Gen(s)|, s, t, a, b, sem);
    }
  }

  lemma EndsLike(code: seq<Instr>, from: nat, to: nat, s: Stmt, t: Stmt, a: State, b: State, sem: Sem)
    requires forall a' :: Ends(code, from, to, a, a', sem) <==> Means(s, a, a', sem)
    requires forall a' :: Means(s, a, a', sem) ==> exists b' :: Means(t, b, b', sem) && Same(a', b')
    requires forall b' :: Means(t, b, b', sem) ==> exists a' :: Means(s, a, a', sem) && Same(a', b')
    ensures SameEndsFrom(code, from, to, t, a, b, sem)
  {
    hide Same, Means, Ends;
  }

  /** The two compilers together: the code with optimized stretches and with branches for the control structures
      comes to the same ends as the program with every word's own code. */
  lemma QueuedCodeMeansProgram(p: Program, code: seq<Instr>, at: nat, sem: Sem)
    requires Respects(sem) && AllCompilable(p)
    requires Placed(code, at, Gen(Filled(p, true))) && Reachable(Filled(p, true))
    ensures SameEnds(code, at, at + |Gen(Filled(p, true))|, Filled(p, false), sem)
  {
    hide *;
    QueueKeepsMeaning(p, sem);
    SameEndsOfAlike(Filled(p, true), Filled(p, false), code, at, sem);
  }

  /** A program that does not come to an end never leaves its optimized code. */
  lemma QueuedNeverLeaves(p: Program, code: seq<Instr>, at: nat, a: State, b: State, n: nat, sem: Sem)
    requires Respects(sem) && AllCompilable(p) && Same(a, b)
    requires Placed(code, at, Gen(Filled(p, true))) && Reachable(Filled(p, true))
    requires forall fuel: nat :: Eval(Filled(p, false), b, fuel, sem) == None
    ensures Inside(code, Conf(at, a), n, at, at + |Gen(Filled(p, true))|, sem)
  {
    hide *;
    hide Inside, Filled;
    QueueKeepsMeaning(p, sem);
    forall fuel: nat ensures Eval(Filled(p, true), a, fuel, sem) == None {
      AlikeEnds(Filled(p, true), Filled(p, false), a, b, fuel, sem);
      SomeSame(Eval(Filled(p, true), a, fuel, sem), Eval(Filled(p, false), b, fuel, sem));
    }
    NeverLeaves(Filled(p, true), code, at, a, n, sem);
  }

  lemma SomeSame(a: Option<State>, b: Option<State>)
    ensures SameOutcome(a, b) && b.None? ==> a.None?
  {
  }

  lemma {:induction false} StoresStraight(p: seq<nat>, off: int, i: nat, reg: seq<nat>)
    requires i <= |p| && !Aborts(p, off) && |reg| == USABLE && forall k :: 0 <= k < USABLE ==> reg[k] < USABLE
    ensures Straight(StoresFrom(p, off, i, reg))
    decreases |p| - i
  {
    if i < |p| {
      StoresStraight(p, off, i + 1, reg);
    }
  }

  lemma OptimizedStraight(ws: seq<Word>)
    requires Optimizable(ws)
    ensures Straight(Optimized(ws))
  {
    PictureRange(ws);
    var p, off := Picture(ws).value, Offset(ws);
    LoadsOnce(p, off, 0);
    StoresStraight(p, off, 0, LoadsFrom(p, off, 0).reg);
  }

  lemma {:induction false} LayoutStraight(segs: seq<Segment>)
    requires AllOptimizable(segs)
    ensures Straight(Layout(segs))
  {
    if segs != [] {
      LayoutStraight(segs[..|segs| - 1]);
      if segs[|segs| - 1].Words? {
        OptimizedStraight(segs[|segs| - 1].ws);
      }
    }
  }

  lemma {:induction false} UnoptimizedStraight(es: seq<Event>)
    ensures Straight(Unoptimized(es))
  {
    if es != [] {
      UnoptimizedStraight(es[..|es| - 1]);
    }
  }

  /** Stretches have no branches of their own: only the control structures decide what is within reach. */
  lemma StretchReachable(es: seq<Event>, queued: bool)
    requires queued ==> Compilable(es)
    ensures Reachable(Line(StretchCode(es, queued)))
  {
    assert es[..|es|] == es;
    if queued {
      LayoutStraight(Compiled(es));
    } else {
      UnoptimizedStraight(es);
    }
    LineCode(StretchCode(es, queued));
  }
}
