/** Any run over the block buffers is a run over a flat store without buffers. */
module BlockRuns {
  import opened BlockSpec

  /** BLOCK n; a change of the buffer used last, with UPDATE; BUFFER n filled, with UPDATE; SAVE-BUFFERS or FLUSH;
      EMPTY-BUFFERS. Any block may be asked for, and a run goes on after an exception. */
  datatype Op = Get(n: int) | Change(p: Page) | Overwrite(n: int, p: Page) | Save(flush: bool) | Empty

  function Step(c: Cache, op: Op): (a: Answer)
    requires WellFormed(c)
    ensures Proper(a)
  {
    match op
    case Get(n) => Loaded(c, n)
    case Change(p) => Answer(Updated(Stored(c, p)), c.last, false)
    case Overwrite(n, p) =>
      var a := Assigned(c, n);
      if a.Answer? then a.(cache := Updated(Stored(a.cache, p))) else a
    case Save(flush) => Saved(c, 0, flush)
    case Empty => Answer(Emptied(c), c.last, false)
  }

  /** What each block holds, what of it has reached the store, and the block in use (0 for none). */
  datatype Flat = Flat(blocks: seq<Page>, stored: seq<Page>, current: int)

  /** The flat store the buffers stand for. */
  function Seen(c: Cache): Flat
    requires WellFormed(c)
  {
    Flat(seq(BLOCK_COUNT, n requires 0 <= n < BLOCK_COUNT => if n == 0 then c.disk[0] else Content(c, n)),
         c.disk, c.assoc[c.last])
  }

  function Put(blocks: seq<Page>, n: int, p: Page): seq<Page> {
    if 0 < n < |blocks| then blocks[n := p] else blocks
  }

  /** What an operation does to a flat store, ok telling that it did not throw. Any block may reach the store at
      any time, except when the program changes one or goes back to what is stored. After an exception the block in
      use is outside the store or the one before, so that a change that follows hits no other block. */
  ghost predicate FlatStep(f: Flat, op: Op, ok: bool, f': Flat) {
    && |f.blocks| == |f.stored| == |f'.blocks| == |f'.stored| == BLOCK_COUNT
    && (forall n :: 0 <= n < BLOCK_COUNT ==> f'.stored[n] == f.stored[n] || f'.stored[n] == f.blocks[n])
    && match op
       case Get(n) => f'.blocks == f.blocks && (if ok then f'.current == n else !InStore(f'.current))
       case Change(p) => ok && f' == f.(blocks := Put(f.blocks, f.current, p))
       case Overwrite(n, p) =>
         if ok then f'.blocks == Put(f.blocks, n, p) && f'.current == n
         else f'.blocks == f.blocks && !InStore(f'.current)
       case Save(flush) =>
         && f'.blocks == f.blocks
         && if ok then f'.stored == f.blocks && f'.current == if flush then 0 else f.current
            else f'.current == f.current || (flush && f'.current == 0)
       case Empty => ok && f' == Flat(f.stored, f.stored, 0)
  }

  lemma SeenBlocks(c: Cache, c': Cache)
    requires WellFormed(c) && WellFormed(c') && SameContents(c, c') && c'.disk[0] == c.disk[0]
    ensures Seen(c').blocks == Seen(c).blocks
  {
  }

  lemma SeenStores(c: Cache, c': Cache)
    requires WellFormed(c) && WellFormed(c') && Stores(c, c')
    ensures forall n :: 0 <= n < BLOCK_COUNT ==>
              Seen(c').stored[n] == Seen(c).stored[n] || Seen(c').stored[n] == Seen(c).blocks[n]
  {
    forall n | 0 <= n < BLOCK_COUNT
      ensures Seen(c').stored[n] == Seen(c).stored[n] || Seen(c').stored[n] == Seen(c).blocks[n]
    {
      if n > 0 {
        assert c'.disk[n] == c.disk[n] || c'.disk[n] == Content(c, n);
      }
    }
  }

  lemma SeenPut(c: Cache, c': Cache, n: int, p: Page)
    requires WellFormed(c) && WellFormed(c') && c'.disk[0] == c.disk[0]
    requires 0 < n < BLOCK_COUNT ==> Content(c', n) == p
    requires forall m :: 0 < m < BLOCK_COUNT && m != n ==> Content(c', m) == Content(c, m)
    ensures Seen(c').blocks == Put(Seen(c).blocks, n, p)
  {
  }

  /** A request that throws leaves a buffer in use whose block is not in the store. */
  lemma ThrownOutside(c: Cache, n: int)
    requires WellFormed(c)
    ensures Assigned(c, n).Thrown? ==> !InStore(Seen(Assigned(c, n).cache).current)
    ensures Loaded(c, n).Thrown? ==> !InStore(Seen(Loaded(c, n).cache).current)
  {
  }

  /** FLUSH and SAVE-BUFFERS do not change which buffer is in use; FLUSH may empty it. */
  lemma {:induction false} SavedCurrent(c: Cache, i: nat, flush: bool)
    requires WellFormed(c) && i <= BUFFER_COUNT
    ensures var f, f' := Seen(c), Seen(Saved(c, i, flush).cache);
            f'.current == f.current || (flush && f'.current == 0)
    decreases BUFFER_COUNT - i
  {
    if i < BUFFER_COUNT && WrittenBack(c, i).Answer? {
      SavedCurrent(Cleaned(WrittenBack(c, i).cache, i, flush), i + 1, flush);
    }
  }

  lemma GetIsFlat(c: Cache, n: int)
    requires Sound(c)
    ensures var a := Loaded(c, n); Sound(a.cache) && FlatStep(Seen(c), Get(n), a.Answer?, Seen(a.cache))
    ensures Loaded(c, n).Answer? && 0 < n < BLOCK_COUNT ==>
              Loaded(c, n).cache.pages[Loaded(c, n).index] == Seen(c).blocks[n]
  {
    LoadedKeeps(c, n);
    ThrownOutside(c, n);
    var a := Loaded(c, n);
    hide Loaded, Content, Sound;
    SeenBlocks(c, a.cache);
    SeenStores(c, a.cache);
  }

  lemma ChangeIsFlat(c: Cache, p: Page)
    requires Sound(c)
    ensures var c1 := Updated(Stored(c, p)); Sound(c1) && FlatStep(Seen(c), Change(p), true, Seen(c1))
  {
    StoredKeeps(c, p);
    UpdatedKeeps(Stored(c, p));
    SeenPut(c, Updated(Stored(c, p)), c.assoc[c.last], p);
  }

  lemma Weaken(c: Cache, x: int)
    requires Sound(c)
    ensures SoundBut(c, x)
  {
  }

  lemma OverwriteIsFlat(c: Cache, n: int, p: Page)
    requires Sound(c)
    ensures var a := Step(c, Overwrite(n, p));
            Sound(a.cache) && FlatStep(Seen(c), Overwrite(n, p), a.Answer?, Seen(a.cache))
  {
    AssignedKeeps(c, n);
    ThrownOutside(c, n);
    var a := Assigned(c, n);
    SeenStores(c, a.cache);
    hide Assigned, Content;
    if a.Answer? {
      var c1 := a.cache;
      if !a.isNew {
        Weaken(c1, c1.last);
      }
      StoredKeeps(c1, p);
      UpdatedKeeps(Stored(c1, p));
      SeenPut(c, Updated(Stored(c1, p)), n, p);
    } else {
      SeenBlocks(c, a.cache);
    }
  }

  lemma SaveIsFlat(c: Cache, flush: bool)
    requires Sound(c)
    ensures var a := Saved(c, 0, flush); Sound(a.cache) && FlatStep(Seen(c), Save(flush), a.Answer?, Seen(a.cache))
  {
    SavedKeeps(c, 0, flush);
    SavedCurrent(c, 0, flush);
    var a := Saved(c, 0, flush);
    SeenBlocks(c, a.cache);
    SeenStores(c, a.cache);
    if a.Answer? {
      forall n | 0 < n < BLOCK_COUNT ensures a.cache.disk[n] == Content(c, n) {
        UnmarkedMeansStored(a.cache, n);
      }
      hide Saved, Content;
      assert Seen(a.cache).stored == Seen(c).blocks;
    }
  }

  lemma EmptyIsFlat(c: Cache)
    requires Sound(c)
    ensures Sound(Emptied(c)) && FlatStep(Seen(c), Empty, true, Seen(Emptied(c)))
  {
    EmptyIsSound(Emptied(c));
    assert Seen(Emptied(c)).blocks == c.disk;
  }

  /** Each word does to the buffers what it does to a flat store, after any requests, failed ones included. */
  lemma StepIsFlat(c: Cache, op: Op)
    requires Sound(c)
    ensures var a := Step(c, op); Sound(a.cache) && FlatStep(Seen(c), op, a.Answer?, Seen(a.cache))
  {
    hide Sound, FlatStep, Loaded, Saved, Emptied, Updated, Stored, Seen;
    match op
    case Get(n) => GetIsFlat(c, n);
    case Change(p) => ChangeIsFlat(c, p);
    case Overwrite(n, p) => OverwriteIsFlat(c, n, p);
    case Save(flush) => SaveIsFlat(c, flush);
    case Empty => EmptyIsFlat(c);
  }

  function After(c: Cache, ops: seq<Op>): (c': Cache)
    requires WellFormed(c)
    ensures WellFormed(c')
    decreases |ops|
  {
    if ops == [] then c else After(Step(c, ops[0]).cache, ops[1..])
  }

  /** A run of a flat store from f to f', in which the operations that throw are those that throw on the buffers. */
  ghost predicate FlatRun(f: Flat, c: Cache, ops: seq<Op>, f': Flat)
    requires WellFormed(c)
    decreases |ops|
  {
    if ops == [] then f == f'
    else exists f1 ::
         FlatStep(f, ops[0], Step(c, ops[0]).Answer?, f1) && FlatRun(f1, Step(c, ops[0]).cache, ops[1..], f')
  }

  lemma {:induction false} RunIsFlat(c: Cache, ops: seq<Op>)
    requires Sound(c)
    ensures Sound(After(c, ops)) && FlatRun(Seen(c), c, ops, Seen(After(c, ops)))
    decreases |ops|
  {
    if ops != [] {
      hide Sound, FlatStep, Seen, Step;
      StepIsFlat(c, ops[0]);
      var f1 := Seen(Step(c, ops[0]).cache);
      RunIsFlat(Step(c, ops[0]).cache, ops[1..]);
      assert FlatStep(Seen(c), ops[0], Step(c, ops[0]).Answer?, f1);
    }
  }

  /** The same blocks, and the same block in use unless it is outside the store in both. */
  ghost predicate Alike(f: Flat, g: Flat) {
    f.blocks == g.blocks && (f.current == g.current || (!InStore(f.current) && !InStore(g.current)))
  }

  /** No EMPTY-BUFFERS, which goes back to whatever has reached the store, and no FLUSH that throws half-way. */
  predicate Settled(c: Cache, ops: seq<Op>)
    requires WellFormed(c)
    decreases |ops|
  {
    ops == []
    || (var a := Step(c, ops[0]);
        && ops[0] != Empty && (ops[0] == Save(true) ==> a.Answer?)
        && Settled(a.cache, ops[1..]))
  }

  lemma StepDetermined(f: Flat, g: Flat, op: Op, ok: bool, f': Flat, g': Flat)
    requires Alike(f, g) && FlatStep(f, op, ok, f') && FlatStep(g, op, ok, g')
    requires op != Empty && (op == Save(true) ==> ok)
    ensures Alike(f', g')
  {
  }

  /** The flat store says what each block holds, whenever blocks reach the store and whatever throws. */
  lemma {:induction false} RunDetermined(f: Flat, g: Flat, c: Cache, ops: seq<Op>, f': Flat, g': Flat)
    requires WellFormed(c) && Settled(c, ops) && Alike(f, g) && FlatRun(f, c, ops, f') && FlatRun(g, c, ops, g')
    ensures f'.blocks == g'.blocks
    decreases |ops|
  {
    if ops != [] {
      hide FlatStep, Step, Alike;
      var ok, c1 := Step(c, ops[0]).Answer?, Step(c, ops[0]).cache;
      var f1 :| FlatStep(f, ops[0], ok, f1) && FlatRun(f1, c1, ops[1..], f');
      var g1 :| FlatStep(g, ops[0], ok, g1) && FlatRun(g1, c1, ops[1..], g');
      StepDetermined(f, g, ops[0], ok, f1, g1);
      RunDetermined(f1, g1, c1, ops[1..], f', g');
    }
  }

  /** From empty buffers over any store and any run: the flat store reached by the same run holds what BLOCK n gives
      if it does not throw, and what FLUSH leaves in the store if that does not. */
  lemma GivesLastWritten(c: Cache, ops: seq<Op>, n: int)
    requires WellFormed(c) && c.assoc == seq(BUFFER_COUNT, _ => 0) && 0 < n < BLOCK_COUNT
    ensures var c1 := After(c, ops); var f := Seen(c1);
            && Seen(c) == Flat(c.disk, c.disk, 0) && FlatRun(Seen(c), c, ops, f)
            && (Loaded(c1, n).Answer? ==> Loaded(c1, n).cache.pages[Loaded(c1, n).index] == f.blocks[n])
            && (Saved(c1, 0, true).Answer? ==> Saved(c1, 0, true).cache.disk == f.blocks)
  {
    EmptyIsSound(c);
    assert Seen(c).blocks == c.disk;
    RunIsFlat(c, ops);
    hide FlatRun, After, Step;
    GetIsFlat(After(c, ops), n);
    SaveIsFlat(After(c, ops), true);
  }

  /** The same of every run of the flat store, unless it goes back to what has reached the store half-way. */
  lemma EveryRunGives(c: Cache, ops: seq<Op>, n: int, f: Flat)
    requires WellFormed(c) && c.assoc == seq(BUFFER_COUNT, _ => 0) && 0 < n < BLOCK_COUNT
    requires Settled(c, ops) && FlatRun(Flat(c.disk, c.disk, 0), c, ops, f)
    ensures var c1 := After(c, ops);
            && |f.blocks| == BLOCK_COUNT
            && (Loaded(c1, n).Answer? ==> Loaded(c1, n).cache.pages[Loaded(c1, n).index] == f.blocks[n])
            && (Saved(c1, 0, true).Answer? ==> Saved(c1, 0, true).cache.disk == f.blocks)
  {
    hide FlatRun, After, Step, Loaded, Saved, Settled;
    GivesLastWritten(c, ops, n);
    RunDetermined(Seen(c), Seen(c), c, ops, f, Seen(After(c, ops)));
  }

  predicate AsksWithin(op: Op) {
    (op.Get? || op.Overwrite?) ==> InStore(op.n)
  }

  predicate AllInStore(c: Cache)
    requires WellFormed(c)
  {
    forall i :: 0 <= i < BUFFER_COUNT ==> InStore(c.assoc[i])
  }

  lemma {:induction false} SavedInStore(c: Cache, i: nat, flush: bool)
    requires WellFormed(c) && AllInStore(c) && i <= BUFFER_COUNT
    ensures var a := Saved(c, i, flush); a.Answer? && AllInStore(a.cache)
    decreases BUFFER_COUNT - i
  {
    if i < BUFFER_COUNT {
      SavedInStore(Cleaned(WrittenBack(c, i).cache, i, flush), i + 1, flush);
    }
  }

  /** Nothing throws while only blocks of the store are asked for. */
  lemma StepAnswers(c: Cache, op: Op)
    requires WellFormed(c) && AllInStore(c) && AsksWithin(op)
    ensures Step(c, op).Answer? && AllInStore(Step(c, op).cache)
  {
    match op
    case Get(n) => LoadedThrows(c, n);
    case Change(p) =>
    case Overwrite(n, p) => AssignedThrows(c, n);
    case Save(flush) => SavedInStore(c, 0, flush);
    case Empty =>
  }

  lemma {:induction false} NeverThrows(c: Cache, ops: seq<Op>, n: int)
    requires WellFormed(c) && AllInStore(c) && (forall op :: op in ops ==> AsksWithin(op)) && InStore(n)
    ensures Loaded(After(c, ops), n).Answer? && Saved(After(c, ops), 0, true).Answer?
    decreases |ops|
  {
    if ops == [] {
      StepAnswers(c, Get(n));
      StepAnswers(c, Save(true));
    } else {
      StepAnswers(c, ops[0]);
      NeverThrows(Step(c, ops[0]).cache, ops[1..], n);
    }
  }
}
