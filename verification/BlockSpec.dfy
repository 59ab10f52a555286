/** The block buffers as a value: what each word does to them, and the flat store they stand for. */
module BlockSpec {
  const BUFFER_COUNT: nat := 8
  const BLOCK_COUNT: nat := 32

  /** The exception code for a block outside the store. */
  const INVALID_BLOCK: int := -35

  type Page = seq<int>

  /** Block numbers of the buffers (0 marks an empty one), their update flags and contents, the buffer used
      last, and the blocks behind them. */
  datatype Cache = Cache(assoc: seq<int>, dirty: seq<bool>, pages: seq<Page>, last: nat, disk: seq<Page>)

  /** The buffer found, and whether it is newly assigned; or an exception. */
  datatype Answer = Answer(cache: Cache, index: nat, isNew: bool) | Thrown(cache: Cache)

  predicate Proper(a: Answer) {
    WellFormed(a.cache) && (a.Answer? ==> a.index < BUFFER_COUNT)
  }

  predicate WellFormed(c: Cache) {
    && |c.assoc| == |c.dirty| == |c.pages| == BUFFER_COUNT && c.last < BUFFER_COUNT && |c.disk| == BLOCK_COUNT
  }

  /** The first buffer from i on that belongs to block n, or the number of buffers. */
  function IndexOf(assoc: seq<int>, n: int, i: nat): (k: nat)
    requires i <= |assoc|
    ensures i <= k <= |assoc| && (k < |assoc| ==> assoc[k] == n) && (forall j :: i <= j < k ==> assoc[j] != n)
    decreases |assoc| - i
  {
    if i == |assoc| || assoc[i] == n then i else IndexOf(assoc, n, i + 1)
  }

  predicate InStore(n: int) {
    0 <= n < BLOCK_COUNT
  }

  /** Whether UPDATE-BUFFER has to write buffer i. */
  predicate MustWrite(c: Cache, i: nat)
    requires WellFormed(c) && i < BUFFER_COUNT
  {
    c.dirty[i] && c.assoc[i] != 0
  }

  /** UPDATE-BUFFER. */
  function WrittenBack(c: Cache, i: nat): (a: Answer)
    requires WellFormed(c) && i < BUFFER_COUNT
    ensures Proper(a)
  {
    if !MustWrite(c, i) then Answer(c, i, false)
    else if InStore(c.assoc[i]) then Answer(c.(disk := c.disk[c.assoc[i] := c.pages[i]]), i, false)
    else Thrown(c)
  }

  /** Buffer i belongs to block n from now on. */
  function Given(c: Cache, i: nat, n: int): Cache
    requires WellFormed(c) && i < BUFFER_COUNT
  {
    c.(assoc := c.assoc[i := n], dirty := c.dirty[i := false], last := i)
  }

  /** ?BUFFER: the buffer that has the block, else an empty one, else the one behind the buffer used last. */
  function Assigned(c: Cache, n: int): (a: Answer)
    requires WellFormed(c)
    ensures Proper(a)
  {
    var i, free, victim := IndexOf(c.assoc, n, 0), IndexOf(c.assoc, 0, 0), (c.last + 1) % BUFFER_COUNT;
    if i < BUFFER_COUNT then Answer(c.(last := i), i, false)
    else if free < BUFFER_COUNT then Answer(Given(c, free, n), free, true)
    else match WrittenBack(c.(last := victim), victim)
         case Answer(c1, _, _) => Answer(Given(c1, victim, n), victim, true)
         case Thrown(c1) => Thrown(c1)
  }

  /** BLOCK. */
  function Loaded(c: Cache, n: int): (a: Answer)
    requires WellFormed(c)
    ensures Proper(a)
  {
    match Assigned(c, n)
    case Answer(c1, i, isNew) =>
      if !isNew then Answer(c1, i, false)
      else if InStore(n) then Answer(c1.(pages := c1.pages[i := c1.disk[n]]), i, true)
      else Thrown(c1)
    case Thrown(c1) => Thrown(c1)
  }

  /** The program stores into the buffer used last. */
  function Stored(c: Cache, p: Page): Cache
    requires WellFormed(c)
  {
    c.(pages := c.pages[c.last := p])
  }

  /** UPDATE. */
  function Updated(c: Cache): Cache
    requires WellFormed(c)
  {
    c.(dirty := c.dirty[c.last := true])
  }

  /** The buffers from i on written back one after the other, then marked unchanged and, for FLUSH, empty. */
  function Saved(c: Cache, i: nat, flush: bool): (a: Answer)
    requires WellFormed(c) && i <= BUFFER_COUNT
    ensures Proper(a)
    decreases BUFFER_COUNT - i
  {
    if i == BUFFER_COUNT then Answer(c, 0, false)
    else match WrittenBack(c, i)
         case Answer(c1, _, _) => Saved(Cleaned(c1, i, flush), i + 1, flush)
         case Thrown(c1) => Thrown(c1)
  }

  function Cleaned(c: Cache, i: nat, flush: bool): (c': Cache)
    requires WellFormed(c) && i < BUFFER_COUNT
    ensures WellFormed(c')
  {
    c.(dirty := c.dirty[i := false], assoc := if flush then c.assoc[i := 0] else c.assoc)
  }

  /** EMPTY-BUFFERS. */
  function Emptied(c: Cache): Cache
    requires WellFormed(c)
  {
    c.(assoc := seq(BUFFER_COUNT, _ => 0), dirty := seq(BUFFER_COUNT, _ => false))
  }

  /** What the program takes block n to hold. */
  function Content(c: Cache, n: nat): Page
    requires WellFormed(c) && 0 < n < BLOCK_COUNT
  {
    var i := IndexOf(c.assoc, n, 0);
    if i < BUFFER_COUNT then c.pages[i] else c.disk[n]
  }

  /** Buffer i and its block in the store agree, or the difference is marked. */
  predicate Agrees(c: Cache, i: nat)
    requires WellFormed(c) && i < BUFFER_COUNT
  {
    c.assoc[i] == 0 || c.dirty[i] || Clean(c, i)
  }

  /** The block of buffer i is not in the store, or holds the same. */
  predicate Clean(c: Cache, i: nat)
    requires WellFormed(c) && i < BUFFER_COUNT
  {
    !InStore(c.assoc[i]) || c.pages[i] == c.disk[c.assoc[i]]
  }

  /** No block is in two buffers. */
  predicate Distinct(c: Cache)
    requires WellFormed(c)
  {
    forall i, j :: 0 <= i < j < BUFFER_COUNT ==> c.assoc[i] != c.assoc[j] || c.assoc[i] == 0
  }

  /** Buffers may differ from their blocks only where that is marked, but for buffer x. Any number may be in a
      buffer: a request that throws leaves one behind that is not in the store. */
  predicate SoundBut(c: Cache, x: int) {
    WellFormed(c) && Distinct(c) && forall i :: 0 <= i < BUFFER_COUNT && i != x ==> Agrees(c, i)
  }

  predicate Sound(c: Cache) {
    SoundBut(c, -1)
  }

  predicate SameContents(c: Cache, c': Cache)
    requires WellFormed(c) && WellFormed(c')
  {
    forall n :: 0 < n < BLOCK_COUNT ==> Content(c', n) == Content(c, n)
  }

  /** Each block of the store is as it was or holds what it was taken to hold. */
  predicate Stores(c: Cache, c': Cache)
    requires WellFormed(c) && WellFormed(c')
  {
    && c'.disk[0] == c.disk[0]
    && forall n :: 0 < n < BLOCK_COUNT ==> c'.disk[n] == c.disk[n] || c'.disk[n] == Content(c, n)
  }

  /** With all buffers empty nothing can differ. */
  lemma EmptyIsSound(c: Cache)
    requires WellFormed(c) && c.assoc == seq(BUFFER_COUNT, _ => 0)
    ensures Sound(c) && forall n :: 0 < n < BLOCK_COUNT ==> Content(c, n) == c.disk[n]
  {
    forall j | 0 <= j < BUFFER_COUNT ensures Agrees(c, j) {
    }
  }

  lemma IndexIs(c: Cache, i: nat)
    requires WellFormed(c) && Distinct(c) && i < BUFFER_COUNT && 0 < c.assoc[i] < BLOCK_COUNT
    ensures IndexOf(c.assoc, c.assoc[i], 0) == i && Content(c, c.assoc[i]) == c.pages[i]
  {
    var k := IndexOf(c.assoc, c.assoc[i], 0);
    assert k <= i;
  }

  /** Writing a buffer back throws exactly for a marked number outside the store. It leaves no difference, and
      changes no other block and no contents. */
  lemma WrittenBackKeeps(c: Cache, i: nat)
    requires Sound(c) && i < BUFFER_COUNT
    ensures var a := WrittenBack(c, i);
            && Sound(a.cache) && SameContents(c, a.cache) && Stores(c, a.cache) && a.cache == c.(disk := a.cache.disk)
            && (a.Thrown? <==> MustWrite(c, i) && !InStore(c.assoc[i]))
            && (a.Answer? ==> c.assoc[i] == 0 || Clean(a.cache, i))
  {
    assert Agrees(c, i);
    var c1 := WrittenBack(c, i).cache;
    forall j | 0 <= j < BUFFER_COUNT ensures Agrees(c1, j) {
      assert Agrees(c, j);
    }
    if 0 < c.assoc[i] < BLOCK_COUNT {
      IndexIs(c, i);
    }
  }

  /** A buffer that holds nothing unsaved is given to another block. */
  lemma GivenKeeps(c: Cache, i: nat, n: int)
    requires Sound(c) && i < BUFFER_COUNT && IndexOf(c.assoc, n, 0) == BUFFER_COUNT
    requires c.assoc[i] == 0 || Clean(c, i)
    ensures var c1 := Given(c, i, n);
            && SoundBut(c1, i) && c1.assoc[i] == n
            && (forall m :: 0 < m < BLOCK_COUNT && m != n ==> Content(c1, m) == Content(c, m))
  {
    var c1 := Given(c, i, n);
    forall j | 0 <= j < BUFFER_COUNT && j != i ensures Agrees(c1, j) {
      assert Agrees(c, j);
    }
    forall m | 0 < m < BLOCK_COUNT && m != n ensures Content(c1, m) == Content(c, m) {
      var k := IndexOf(c.assoc, m, 0);
      if k < BUFFER_COUNT && k != i {
        IndexIs(c1, k);
      }
    }
  }

  /** The buffer that is taken next when none is empty. */
  function Victim(c: Cache): (v: nat)
    requires WellFormed(c)
    ensures v < BUFFER_COUNT && v != c.last
  {
    (c.last + 1) % BUFFER_COUNT
  }

  /** The victim has to be written and cannot be. */
  predicate Blocked(c: Cache)
    requires WellFormed(c)
  {
    MustWrite(c, Victim(c)) && !InStore(c.assoc[Victim(c)])
  }

  lemma NotFound(assoc: seq<int>, n: int)
    ensures IndexOf(assoc, n, 0) == |assoc| <==> n !in assoc
  {
  }

  /** ?BUFFER throws exactly if the block is in no buffer, no buffer is empty, and the victim is marked and not
      in the store: whatever the state. */
  lemma AssignedThrows(c: Cache, n: int)
    requires WellFormed(c)
    ensures Assigned(c, n).Thrown? <==> n !in c.assoc && 0 !in c.assoc && Blocked(c)
  {
    NotFound(c.assoc, n);
    NotFound(c.assoc, 0);
  }

  /** BLOCK throws exactly if ?BUFFER does, or for a number outside the store that is in no buffer yet. */
  lemma LoadedThrows(c: Cache, n: int)
    requires WellFormed(c)
    ensures InStore(n) ==> (Loaded(c, n).Thrown? <==> n !in c.assoc && 0 !in c.assoc && Blocked(c))
    ensures !InStore(n) ==> (Loaded(c, n).Thrown? <==> n !in c.assoc)
  {
    AssignedThrows(c, n);
    NotFound(c.assoc, n);
  }

  /** FLUSH and SAVE-BUFFERS throw exactly if a marked buffer is not in the store. */
  lemma {:induction false} SavedAnswers(c: Cache, i: nat, flush: bool)
    requires WellFormed(c) && i <= BUFFER_COUNT
    ensures Saved(c, i, flush).Answer?
       <==> (forall j :: i <= j < BUFFER_COUNT && MustWrite(c, j) ==> InStore(c.assoc[j]))
    decreases BUFFER_COUNT - i
  {
    if i < BUFFER_COUNT && WrittenBack(c, i).Answer? {
      var c1 := Cleaned(WrittenBack(c, i).cache, i, flush);
      SavedAnswers(c1, i + 1, flush);
      assert forall j :: i < j < BUFFER_COUNT ==> MustWrite(c1, j) == MustWrite(c, j) && c1.assoc[j] == c.assoc[j];
    }
  }

  /** The buffer with the block, else the first empty one, else the one behind the buffer used last. */
  lemma AssignedTakes(c: Cache, n: int)
    requires WellFormed(c) && Assigned(c, n).Answer?
    ensures var i := Assigned(c, n).index;
            if n in c.assoc then c.assoc[i] == n && n !in c.assoc[..i]
            else if 0 in c.assoc then c.assoc[i] == 0 && 0 !in c.assoc[..i]
            else i == (c.last + 1) % 8
  {
    NotFound(c.assoc, n);
    NotFound(c.assoc, 0);
  }

  lemma LastDoesNotMatter(c: Cache, i: nat)
    requires Sound(c) && i < BUFFER_COUNT
    ensures Sound(c.(last := i)) && SameContents(c, c.(last := i))
  {
    forall j | 0 <= j < BUFFER_COUNT ensures Agrees(c.(last := i), j) {
      assert Agrees(c, j);
    }
  }

  /** The victim written back and given to another block. */
  lemma EvictedKeeps(c: Cache, n: int)
    requires Sound(c) && IndexOf(c.assoc, n, 0) == BUFFER_COUNT
    ensures var v := Victim(c); var a := WrittenBack(c.(last := v), v);
            && Sound(a.cache) && SameContents(c, a.cache) && Stores(c, a.cache) && a.cache.assoc == c.assoc
            && (a.Answer? ==> var c1 := Given(a.cache, v, n);
                  && SoundBut(c1, v) && Stores(c, c1)
                  && (forall m :: 0 < m < BLOCK_COUNT && m != n ==> Content(c1, m) == Content(c, m)))
  {
    var v := Victim(c);
    LastDoesNotMatter(c, v);
    WrittenBackKeeps(c.(last := v), v);
    var a := WrittenBack(c.(last := v), v);
    if a.Answer? {
      GivenKeeps(a.cache, v, n);
    }
  }

  /** Which buffer a block gets, and what becomes of all others, whether it throws or not. */
  lemma AssignedKeeps(c: Cache, n: int)
    requires Sound(c)
    ensures var a := Assigned(c, n);
            && SoundBut(a.cache, if a.Answer? && a.isNew then a.index else -1) && Stores(c, a.cache)
            && (forall m :: 0 < m < BLOCK_COUNT && m != n ==> Content(a.cache, m) == Content(c, m))
            && (a.Thrown? ==> SameContents(c, a.cache))
            && (a.Answer? ==> a.cache.last == a.index && a.cache.assoc[a.index] == n)
            && (a.Answer? && a.isNew && 0 < n < BLOCK_COUNT ==> a.cache.disk[n] == Content(c, n))
            && (a.Answer? && !a.isNew ==> a.cache == c.(last := a.index))
            && (a.Answer? && !a.isNew && 0 < n < BLOCK_COUNT ==> a.cache.pages[a.index] == Content(c, n))
  {
    if IndexOf(c.assoc, n, 0) < BUFFER_COUNT {
      LastDoesNotMatter(c, IndexOf(c.assoc, n, 0));
    } else if IndexOf(c.assoc, 0, 0) < BUFFER_COUNT {
      GivenKeeps(c, IndexOf(c.assoc, 0, 0), n);
    } else {
      EvictedKeeps(c, n);
    }
  }

  /** BLOCK changes no contents, whether it throws or not, and gives a buffer with the contents of the block. */
  lemma LoadedKeeps(c: Cache, n: int)
    requires Sound(c)
    ensures var a := Loaded(c, n);
            && Sound(a.cache) && SameContents(c, a.cache) && Stores(c, a.cache)
            && (a.Answer? ==> a.cache.last == a.index && a.cache.assoc[a.index] == n)
            && (a.Answer? && 0 < n < BLOCK_COUNT ==> a.cache.pages[a.index] == Content(c, n))
  {
    AssignedKeeps(c, n);
    var a := Assigned(c, n);
    if a.Answer? && a.isNew {
      if InStore(n) {
        FilledKeeps(a.cache, a.index, a.cache.disk[n]);
      } else {
        assert Agrees(a.cache, a.index);
      }
    }
  }

  /** Filling the one buffer that may differ from its block with the block. */
  lemma FilledKeeps(c: Cache, i: nat, p: Page)
    requires SoundBut(c, i) && i < BUFFER_COUNT && InStore(c.assoc[i]) && p == c.disk[c.assoc[i]]
    ensures var c1 := c.(pages := c.pages[i := p]);
            && Sound(c1) && (c.assoc[i] != 0 ==> Content(c1, c.assoc[i]) == p)
            && (forall m :: 0 < m < BLOCK_COUNT && m != c.assoc[i] ==> Content(c1, m) == Content(c, m))
  {
    var c1 := c.(pages := c.pages[i := p]);
    forall j | 0 <= j < BUFFER_COUNT ensures Agrees(c1, j) {
      assert j != i ==> Agrees(c, j);
    }
    if c.assoc[i] != 0 {
      IndexIs(c1, i);
    }
  }

  /** Storing into the buffer used last changes the contents of its block only. */
  lemma StoredKeeps(c: Cache, p: Page)
    requires SoundBut(c, c.last)
    ensures var c1, n := Stored(c, p), c.assoc[c.last];
            && SoundBut(c1, c.last) && (0 < n < BLOCK_COUNT ==> Content(c1, n) == p)
            && (forall m :: 0 < m < BLOCK_COUNT && m != n ==> Content(c1, m) == Content(c, m))
  {
    var c1 := Stored(c, p);
    forall j | 0 <= j < BUFFER_COUNT && j != c.last ensures Agrees(c1, j) {
      assert Agrees(c, j);
    }
    if 0 < c.assoc[c.last] < BLOCK_COUNT {
      IndexIs(c1, c.last);
    }
  }

  /** UPDATE marks what may be different, and changes no contents. */
  lemma UpdatedKeeps(c: Cache)
    requires SoundBut(c, c.last)
    ensures Sound(Updated(c)) && SameContents(c, Updated(c))
  {
    forall j | 0 <= j < BUFFER_COUNT ensures Agrees(Updated(c), j) {
      assert j != c.last ==> Agrees(c, j);
    }
  }

  /** The buffers before i are as FLUSH or SAVE-BUFFERS leave them. */
  predicate SavedUpTo(c: Cache, i: nat, flush: bool)
    requires WellFormed(c) && i <= BUFFER_COUNT
  {
    forall j :: 0 <= j < i ==> !c.dirty[j] && (flush ==> c.assoc[j] == 0)
  }

  lemma CleanedKeeps(c: Cache, i: nat, flush: bool)
    requires Sound(c) && i < BUFFER_COUNT && (c.assoc[i] == 0 || Clean(c, i))
    ensures var c1 := Cleaned(c, i, flush); Sound(c1) && SameContents(c, c1)
  {
    var c1 := Cleaned(c, i, flush);
    forall j | 0 <= j < BUFFER_COUNT ensures Agrees(c1, j) {
      assert Agrees(c, j);
    }
    forall m | 0 < m < BLOCK_COUNT ensures Content(c1, m) == Content(c, m) {
      var k := IndexOf(c.assoc, m, 0);
      if k < BUFFER_COUNT && (k != i || !flush) {
        IndexIs(c1, k);
      }
    }
  }

  /** No contents change, whether it throws or not; if it does not, all buffers are written back and nothing is
      marked. */
  lemma {:induction false} SavedKeeps(c: Cache, i: nat, flush: bool)
    requires Sound(c) && i <= BUFFER_COUNT && SavedUpTo(c, i, flush)
    ensures var a := Saved(c, i, flush);
            && Sound(a.cache) && SameContents(c, a.cache) && Stores(c, a.cache) && a.cache.last == c.last
            && (a.Answer? ==> SavedUpTo(a.cache, BUFFER_COUNT, flush)) && (!flush ==> a.cache.assoc == c.assoc)
    decreases BUFFER_COUNT - i
  {
    if i < BUFFER_COUNT {
      assert Agrees(c, i);
      WrittenBackKeeps(c, i);
      if WrittenBack(c, i).Answer? {
        var c1 := WrittenBack(c, i).cache;
        CleanedKeeps(c1, i, flush);
        SavedKeeps(Cleaned(c1, i, flush), i + 1, flush);
      }
    }
  }

  /** With nothing marked the store holds the contents of every block. */
  lemma UnmarkedMeansStored(c: Cache, n: nat)
    requires Sound(c) && 0 < n < BLOCK_COUNT && forall j :: 0 <= j < BUFFER_COUNT ==> !c.dirty[j]
    ensures c.disk[n] == Content(c, n)
  {
    var i := IndexOf(c.assoc, n, 0);
    if i < BUFFER_COUNT {
      assert Agrees(c, i);
    }
  }

  /** After FLUSH and SAVE-BUFFERS the store holds what the buffers stood for; they throw exactly if a marked
      buffer is not in the store. */
  lemma SavedStores(c: Cache, n: nat, flush: bool)
    requires Sound(c) && 0 < n < BLOCK_COUNT
    ensures var a := Saved(c, 0, flush);
            && Sound(a.cache) && Content(a.cache, n) == Content(c, n)
            && (a.Answer? ==> a.cache.disk[n] == Content(c, n))
            && (a.Thrown? <==> exists j :: 0 <= j < BUFFER_COUNT && MustWrite(c, j) && !InStore(c.assoc[j]))
  {
    SavedAnswers(c, 0, flush);
    SavedKeeps(c, 0, flush);
    if Saved(c, 0, flush).Answer? {
      UnmarkedMeansStored(Saved(c, 0, flush).cache, n);
    }
  }

  /** EMPTY-BUFFERS goes back to what is in the store. */
  lemma EmptiedKeeps(c: Cache, n: nat)
    requires WellFormed(c) && 0 < n < BLOCK_COUNT
    ensures Sound(Emptied(c)) && Content(Emptied(c), n) == c.disk[n]
    ensures Emptied(c).disk == c.disk && Emptied(c).pages == c.pages && Emptied(c).last == c.last
    ensures forall i :: 0 <= i < 8 ==> Emptied(c).assoc[i] == 0 && !Emptied(c).dirty[i]
  {
    EmptyIsSound(Emptied(c));
  }

  /** The buffer used last is not the next victim: it keeps its block and contents over a request for another,
      whether that throws or not. */
  lemma LastIsSpared(c: Cache, n: int)
    requires WellFormed(c) && c.assoc[c.last] != 0 && c.assoc[c.last] != n
    ensures var a := Loaded(c, n);
            && (a.Answer? ==> a.index != c.last)
            && a.cache.assoc[c.last] == c.assoc[c.last] && a.cache.pages[c.last] == c.pages[c.last]
  {
    assert Victim(c) != c.last;
  }

  /** A number outside the store that has been assigned a buffer keeps it, so that the next request for it does not
      throw but finds whatever the buffer held. */
  lemma InvalidBlockStays(c: Cache, n: int)
    requires WellFormed(c) && !InStore(n) && Assigned(c, n).Answer?
    ensures var a := Loaded(c, n); WellFormed(a.cache) && n in a.cache.assoc && Loaded(a.cache, n).Answer?
  {
    var a := Assigned(c, n);
    assert a.cache.assoc[a.index] == n;
    LoadedThrows(Loaded(c, n).cache, n);
  }

  /** From empty buffers: BLOCK throws for 99, and the second time it does not; after UPDATE, FLUSH throws. */
  lemma Block99(c: Cache)
    requires WellFormed(c) && c.assoc == seq(BUFFER_COUNT, _ => 0)
    ensures var first := Loaded(c, 99);
            && first.Thrown? && WellFormed(first.cache) && Loaded(first.cache, 99).Answer?
            && Saved(Updated(Loaded(first.cache, 99).cache), 0, true).Thrown?
  {
    LoadedThrows(c, 99);
    AssignedThrows(c, 99);
    assert c.assoc[0] == 0;
    InvalidBlockStays(c, 99);
    var c1 := Loaded(Loaded(c, 99).cache, 99).cache;
    var c2 := Updated(c1);
    assert c1.assoc[c1.last] == 99;
    assert MustWrite(c2, c1.last);
    SavedAnswers(c2, 0, true);
  }
}
