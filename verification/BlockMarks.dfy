/** The update marks of the block buffers over whole runs: what is written to the store has been marked by UPDATE. */
module BlockMarks {
  import opened BlockSpec

  /** The words one by one; Put is a store into the buffer used last. */
  datatype Op = Block(n: int) | Buffer(n: int) | Put(p: Page) | Update | Save(flush: bool) | Empty

  /** What a word leaves, whether it throws or not. */
  function Step(c: Cache, op: Op): (c': Cache)
    requires WellFormed(c)
    ensures WellFormed(c')
  {
    match op
    case Block(n) => Loaded(c, n).cache
    case Buffer(n) => Assigned(c, n).cache
    case Put(p) => Stored(c, p)
    case Update => Updated(c)
    case Save(flush) => Saved(c, 0, flush).cache
    case Empty => Emptied(c)
  }

  function After(c: Cache, ops: seq<Op>): (c': Cache)
    requires WellFormed(c)
    ensures WellFormed(c')
  {
    if ops == [] then c else Step(After(c, ops[..|ops| - 1]), ops[|ops| - 1])
  }

  /** The buffer is given to another block, written back, or emptied. */
  predicate Frees(c: Cache, op: Op, i: nat)
    requires WellFormed(c) && i < BUFFER_COUNT
  {
    match op
    case Put(_) => false
    case Update => false
    case Save(_) => forall j :: 0 <= j <= i && MustWrite(c, j) ==> InStore(c.assoc[j])
    case Empty => true
    case _ => Step(c, op).assoc[i] != c.assoc[i]
  }

  predicate Marks(c: Cache, op: Op, i: nat) {
    op == Update && c.last == i
  }

  /** A buffer newly assigned is unmarked; the other buffers keep their blocks and marks. */
  lemma AssignedMarks(c: Cache, n: int)
    requires WellFormed(c)
    ensures var a := Assigned(c, n);
            if a.Answer? && a.isNew
            then && n !in c.assoc && a.cache.assoc[a.index] == n && !a.cache.dirty[a.index]
                 && forall j :: 0 <= j < BUFFER_COUNT && j != a.index ==>
                      a.cache.assoc[j] == c.assoc[j] && a.cache.dirty[j] == c.dirty[j]
            else a.cache.assoc == c.assoc && a.cache.dirty == c.dirty
  {
    NotFound(c.assoc, n);
  }

  /** Writing back stops at a buffer that cannot be written; those in front of it are unmarked then. */
  lemma {:induction false} SavedMarks(c: Cache, from: nat, flush: bool, i: nat)
    requires WellFormed(c) && from <= BUFFER_COUNT && i < BUFFER_COUNT
    ensures Saved(c, from, flush).cache.dirty[i]
       <==> c.dirty[i] && (i < from || exists j :: from <= j <= i && MustWrite(c, j) && !InStore(c.assoc[j]))
    decreases BUFFER_COUNT - from
  {
    if from < BUFFER_COUNT && WrittenBack(c, from).Answer? {
      var c1 := Cleaned(WrittenBack(c, from).cache, from, flush);
      SavedMarks(c1, from + 1, flush, i);
      assert forall j :: from < j < BUFFER_COUNT ==> MustWrite(c1, j) == MustWrite(c, j) && c1.assoc[j] == c.assoc[j];
    }
  }

  lemma StepMarks(c: Cache, op: Op, i: nat)
    requires WellFormed(c) && i < BUFFER_COUNT
    ensures Step(c, op).dirty[i] <==> Marks(c, op, i) || (c.dirty[i] && !Frees(c, op, i))
  {
    match op
    case Block(n) => AssignedMarks(c, n);
    case Buffer(n) => AssignedMarks(c, n);
    case Save(flush) => SavedMarks(c, 0, flush, i);
    case _ =>
  }

  /** UPDATE was called for the buffer, and since then it has not been given away, written back or emptied. */
  ghost predicate MarkedSince(c: Cache, ops: seq<Op>, i: nat)
    requires WellFormed(c) && i < BUFFER_COUNT
  {
    exists k :: 0 <= k < |ops| && MarkedAt(c, ops, i, k)
  }

  ghost predicate MarkedAt(c: Cache, ops: seq<Op>, i: nat, k: nat)
    requires WellFormed(c) && i < BUFFER_COUNT && k < |ops|
  {
    && Marks(After(c, ops[..k]), ops[k], i)
    && forall m :: k < m < |ops| ==> !Frees(After(c, ops[..m]), ops[m], i)
  }

  lemma MarkedAtMore(c: Cache, front: seq<Op>, op: Op, i: nat, k: nat)
    requires WellFormed(c) && i < BUFFER_COUNT && k < |front|
    ensures MarkedAt(c, front + [op], i, k) <==> MarkedAt(c, front, i, k) && !Frees(After(c, front), op, i)
  {
    var ops := front + [op];
    hide Frees, Marks, After;
    assert ops[..k] == front[..k] && ops[k] == front[k];
    forall m | k < m < |front|
      ensures Frees(After(c, ops[..m]), ops[m], i) == Frees(After(c, front[..m]), front[m], i)
    {
      assert ops[..m] == front[..m];
    }
    assert ops[..|front|] == front;
  }

  lemma MarkedLast(c: Cache, front: seq<Op>, op: Op, i: nat)
    requires WellFormed(c) && i < BUFFER_COUNT
    ensures MarkedAt(c, front + [op], i, |front|) <==> Marks(After(c, front), op, i)
  {
    assert (front + [op])[..|front|] == front;
  }

  lemma MarkedSinceMore(c: Cache, front: seq<Op>, op: Op, i: nat)
    requires WellFormed(c) && i < BUFFER_COUNT
    ensures MarkedSince(c, front + [op], i)
       <==> Marks(After(c, front), op, i) || (MarkedSince(c, front, i) && !Frees(After(c, front), op, i))
  {
    hide MarkedAt, Frees, Marks, After;
    MarkedLast(c, front, op, i);
    forall k: nat | k < |front|
      ensures MarkedAt(c, front + [op], i, k) <==> MarkedAt(c, front, i, k) && !Frees(After(c, front), op, i)
    {
      MarkedAtMore(c, front, op, i, k);
    }
  }

  /** A buffer is marked exactly if UPDATE hit it since it was last assigned, written back or emptied. */
  lemma {:induction false} MarkedByUpdate(c: Cache, ops: seq<Op>, i: nat)
    requires WellFormed(c) && i < BUFFER_COUNT && !c.dirty[i]
    ensures After(c, ops).dirty[i] <==> MarkedSince(c, ops, i)
  {
    hide Frees, Marks, Step, MarkedAt;
    if ops != [] {
      var front, op := ops[..|ops| - 1], ops[|ops| - 1];
      MarkedByUpdate(c, front, i);
      StepMarks(After(c, front), op, i);
      MarkedSinceMore(c, front, op, i);
      assert front + [op] == ops;
    }
  }

  /** Nothing waits to be written. */
  predicate AllSaved(c: Cache)
    requires WellFormed(c)
  {
    forall i :: 0 <= i < BUFFER_COUNT ==> !MustWrite(c, i)
  }

  lemma {:induction false} SavedNothing(c: Cache, from: nat, flush: bool)
    requires WellFormed(c) && AllSaved(c) && from <= BUFFER_COUNT
    ensures var a := Saved(c, from, flush); a.Answer? && a.cache.disk == c.disk && AllSaved(a.cache)
    decreases BUFFER_COUNT - from
  {
    if from < BUFFER_COUNT {
      assert !MustWrite(c, from);
      assert forall j :: 0 <= j < BUFFER_COUNT && MustWrite(Cleaned(c, from, flush), j) ==> MustWrite(c, j);
      SavedNothing(Cleaned(c, from, flush), from + 1, flush);
    }
  }

  /** Without UPDATE, whatever is asked for and whatever is stored into the buffers, nothing reaches the store: not
      during the run, and not by a FLUSH or SAVE-BUFFERS behind it, which do not throw. */
  lemma {:induction false} NeverUpdated(c: Cache, ops: seq<Op>, flush: bool)
    requires WellFormed(c) && AllSaved(c) && Update !in ops
    ensures After(c, ops).disk == c.disk && AllSaved(After(c, ops))
    ensures var a := Saved(After(c, ops), 0, flush); a.Answer? && a.cache.disk == c.disk
  {
    if ops != [] {
      var n := |ops| - 1;
      NeverUpdated(c, ops[..n], flush);
      StepSavesNothing(After(c, ops[..n]), ops[n]);
    }
    hide Step, Saved;
    SavedNothing(After(c, ops), 0, flush);
  }

  lemma AssignedSavesNothing(c: Cache, n: int)
    requires WellFormed(c) && AllSaved(c)
    ensures var c1 := Assigned(c, n).cache; c1.disk == c.disk && AllSaved(c1)
  {
    AssignedMarks(c, n);
    var c1 := Assigned(c, n).cache;
    assert !MustWrite(c, Victim(c));
    assert forall i :: 0 <= i < BUFFER_COUNT && MustWrite(c1, i) ==> MustWrite(c, i);
  }

  lemma StepSavesNothing(c: Cache, op: Op)
    requires WellFormed(c) && AllSaved(c) && op != Update
    ensures Step(c, op).disk == c.disk && AllSaved(Step(c, op))
  {
    match op
    case Block(n) =>
      AssignedSavesNothing(c, n);
      var c1, c2 := Assigned(c, n).cache, Loaded(c, n).cache;
      assert forall i :: 0 <= i < BUFFER_COUNT && MustWrite(c2, i) ==> MustWrite(c1, i);
    case Buffer(n) => AssignedSavesNothing(c, n);
    case Save(flush) => SavedNothing(c, 0, flush);
    case Put(p) => assert forall i :: 0 <= i < BUFFER_COUNT && MustWrite(Stored(c, p), i) ==> MustWrite(c, i);
    case Update =>
    case Empty =>
  }
}
