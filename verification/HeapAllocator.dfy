/** The allocator of the example operating system: block headers in memory, linked both ways. */
module HeapAllocator {
  import opened HeapBlocks

  /** The error code of a request that fails. */
  const OUT_OF_MEMORY: int := -21

  // Where the fields of a header are.
  const SIZE: int := 0
  const USED: int := 8
  const PREV: int := 16
  const NEXT: int := 24

  /** What each cell holds, by address. */
  type Memory = map<int, int>

  /** The cell at an address; cells never written hold 0. */
  function Get(m: Memory, a: int): int {
    if a in m then m[a] else 0
  }

  function Flag(used: bool): int {
    if used then WORD - 1 else 0
  }

  predicate Header(m: Memory, b: Block, prev: int, next: int) {
    && Get(m, b.at + SIZE) == b.size && Get(m, b.at + USED) == Flag(b.used)
    && Get(m, b.at + PREV) == prev && Get(m, b.at + NEXT) == next
  }

  /** A header is four cells; all bits of the second are set while the block is in use. */
  lemma HeaderCells(m: Memory, b: Block, prev: int, next: int)
    ensures Header(m, b, prev, next) <==>
              && Get(m, b.at) == b.size && Get(m, b.at + 8) == (if b.used then 0xFFFF_FFFF_FFFF_FFFF else 0)
              && Get(m, b.at + 16) == prev && Get(m, b.at + 24) == next
    ensures b.Payload() == b.at + 32 && b.End() == b.Payload() + b.size
  {
  }

  /** The address of block i; 0 stands for no block. */
  function At(bs: seq<Block>, i: int): int {
    if 0 <= i < |bs| then bs[i].at else 0
  }

  /** The headers in memory are those of the blocks, linked in both directions. */
  predicate Represents(m: Memory, bs: seq<Block>) {
    forall i :: 0 <= i < |bs| ==> Header(m, bs[i], At(bs, i - 1), At(bs, i + 1))
  }

  /** Nothing changed but the cells from lo up to hi and the one at x. */
  ghost predicate SameBut(m: Memory, m': Memory, lo: int, hi: int, x: int) {
    forall a :: (a < lo || a >= hi) && a != x ==> Get(m', a) == Get(m, a)
  }

  lemma HeaderKept(m: Memory, m': Memory, b: Block, prev: int, next: int, lo: int, hi: int, x: int)
    requires SameBut(m, m', lo, hi, x) && Header(m, b, prev, next) && (b.at + SMALLH <= lo || b.at >= hi)
    ensures x == b.at + PREV ==> Header(m', b, Get(m', b.at + PREV), next)
    ensures x < b.at || x >= b.at + SMALLH ==> Header(m', b, prev, next)
  {
  }

  /** Where a stretch of blocks from l up to r of a list has been replaced by n, what happened in memory
      is what the links around it need. */
  ghost predicate Relinked(m: Memory, m': Memory, bs: seq<Block>, l: nat, r: nat, n: seq<Block>)
    requires l < r <= |bs| && n != []
  {
    && SameBut(m, m', bs[l].at, bs[r - 1].End(), if r < |bs| then bs[r].at + PREV else bs[l].at)
    && (forall k :: 0 <= k < |n| ==>
          Header(m', n[k], if k == 0 then At(bs, l - 1) else At(n, k - 1),
                 if k == |n| - 1 then At(bs, r) else At(n, k + 1)))
    && (r < |bs| ==> Get(m', bs[r].at + PREV) == n[|n| - 1].at)
  }

  lemma RelinkedBefore(m: Memory, m': Memory, bs: seq<Block>, l: nat, r: nat, n: seq<Block>, i: nat, lo: int, hi: int)
    requires Tiled(bs, lo, hi) && l < r <= |bs| && n != [] && n[0].at == bs[l].at && Represents(m, bs)
    requires Relinked(m, m', bs, l, r, n) && i < l
    ensures Header(m', bs[i], At(bs, i - 1), At(bs, i + 1))
  {
    Apart(bs, lo, hi, i, l);
    if r < |bs| {
      Apart(bs, lo, hi, i, r);
    }
    HeaderKept(m, m', bs[i], At(bs, i - 1), At(bs, i + 1), bs[l].at, bs[r - 1].End(),
               if r < |bs| then bs[r].at + PREV else bs[l].at);
  }

  lemma RelinkedBehind(m: Memory, m': Memory, bs: seq<Block>, l: nat, r: nat, n: seq<Block>, i: nat, lo: int, hi: int)
    requires Tiled(bs, lo, hi) && l < r <= i < |bs| && n != [] && Represents(m, bs)
    requires Relinked(m, m', bs, l, r, n)
    ensures Header(m', bs[i], if i == r then n[|n| - 1].at else At(bs, i - 1), At(bs, i + 1))
  {
    hide Tiled, At, Header;
    Apart(bs, lo, hi, r - 1, i);
    if r < i {
      Apart(bs, lo, hi, r, i);
    }
    var prev, next := At(bs, i - 1), At(bs, i + 1);
    assert Header(m, bs[i], prev, next);
    hide Represents;
    HeaderKept(m, m', bs[i], prev, next, bs[l].at, bs[r - 1].End(), bs[r].at + PREV);
  }

  /** A list of which a stretch has been replaced. */
  function Replaced(bs: seq<Block>, l: nat, r: nat, n: seq<Block>): (t: seq<Block>)
    requires l < r <= |bs|
    ensures |t| == l + |n| + |bs| - r
  {
    bs[..l] + n + bs[r..]
  }

  lemma AtReplaced(bs: seq<Block>, l: nat, r: nat, n: seq<Block>, i: int)
    requires l < r <= |bs| && n != [] && n[0].at == bs[l].at
    ensures var t := Replaced(bs, l, r, n);
            && (i <= l ==> At(t, i) == At(bs, i))
            && (l <= i < l + |n| ==> At(t, i) == At(n, i - l))
            && (i >= l + |n| ==> At(t, i) == At(bs, i - l - |n| + r))
  {
  }

  lemma IndexReplaced(bs: seq<Block>, l: nat, r: nat, n: seq<Block>, i: nat)
    requires l < r <= |bs| && i < |Replaced(bs, l, r, n)|
    ensures Replaced(bs, l, r, n)[i]
         == if i < l then bs[i] else if i < l + |n| then n[i - l] else bs[i - l - |n| + r]
  {
  }

  lemma RelinkedAt(m: Memory, m': Memory, bs: seq<Block>, l: nat, r: nat, n: seq<Block>, i: nat, lo: int, hi: int)
    requires Tiled(bs, lo, hi) && l < r <= |bs| && n != [] && n[0].at == bs[l].at && Represents(m, bs)
    requires Relinked(m, m', bs, l, r, n) && i < |Replaced(bs, l, r, n)|
    ensures var t := Replaced(bs, l, r, n); Header(m', t[i], At(t, i - 1), At(t, i + 1))
  {
    hide Replaced, At, Header, Tiled, Represents, SameBut;
    AtReplaced(bs, l, r, n, i - 1);
    AtReplaced(bs, l, r, n, i + 1);
    IndexReplaced(bs, l, r, n, i);
    if i < l {
      RelinkedBefore(m, m', bs, l, r, n, i, lo, hi);
    } else if i >= l + |n| {
      LastAt(n);
      RelinkedBehind(m, m', bs, l, r, n, i - l - |n| + r, lo, hi);
    } else {
      assert Header(m', n[i - l], if i == l then At(bs, l - 1) else At(n, i - l - 1),
                    if i - l == |n| - 1 then At(bs, r) else At(n, i - l + 1));
    }
  }

  lemma LastAt(n: seq<Block>)
    requires n != []
    ensures At(n, |n| - 1) == n[|n| - 1].at
  {
  }

  lemma RelinkedRepresents(m: Memory, m': Memory, bs: seq<Block>, l: nat, r: nat, n: seq<Block>, lo: int, hi: int)
    requires Tiled(bs, lo, hi) && l < r <= |bs| && n != [] && n[0].at == bs[l].at && Represents(m, bs)
    requires Relinked(m, m', bs, l, r, n)
    ensures Represents(m', Replaced(bs, l, r, n))
  {
    hide Replaced, At, Header, Tiled, Relinked;
    var t := Replaced(bs, l, r, n);
    forall i | 0 <= i < |t| ensures Header(m', t[i], At(t, i - 1), At(t, i + 1)) {
      RelinkedAt(m, m', bs, l, r, n, i, lo, hi);
    }
  }

  /** What the header of block i says. */
  lemma Reads(m: Memory, bs: seq<Block>, i: nat, lo: int, hi: int)
    requires Tiled(bs, lo, hi) && Represents(m, bs) && lo > 0 && i < |bs|
    ensures Get(m, bs[i].at + SIZE) == bs[i].size && (Get(m, bs[i].at + USED) != 0 <==> bs[i].used)
    ensures Get(m, bs[i].at + PREV) == At(bs, i - 1) && (At(bs, i - 1) != 0 <==> i > 0)
    ensures Get(m, bs[i].at + NEXT) == At(bs, i + 1) && (At(bs, i + 1) != 0 <==> i + 1 < |bs|)
  {
    assert Header(m, bs[i], At(bs, i - 1), At(bs, i + 1));
    if i > 0 {
      Bounds(bs, lo, hi, i - 1);
    }
    if i + 1 < |bs| {
      Bounds(bs, lo, hi, i + 1);
    }
  }

  lemma RelinkedArea(m: Memory, m': Memory, bs: seq<Block>, l: nat, r: nat, n: seq<Block>, lo: int, hi: int, a: int)
    requires Tiled(bs, lo, hi) && l < r <= |bs| && n != [] && Relinked(m, m', bs, l, r, n) && a < lo
    ensures Get(m', a) == Get(m, a)
  {
    Bounds(bs, lo, hi, l);
    if r < |bs| {
      Bounds(bs, lo, hi, r);
    }
  }

  /** An area of the given size in memory holds these blocks, and the header in front says how large it is. */
  predicate Standing(m: Memory, bs: seq<Block>, area: int, total: int) {
    && 0 < area && area % CELL == 0 && area + total <= WORD && Get(m, area) == total
    && Tiled(bs, area + BIGH, area + total) && Represents(m, bs)
  }

  lemma TiledFirst(bs: seq<Block>, lo: int, hi: int)
    requires Tiled(bs, lo, hi)
    ensures bs != [] && bs[0].at == lo && bs[|bs| - 1].End() == hi
  {
  }

  lemma ReplacedTiled(bs: seq<Block>, l: nat, r: nat, n: seq<Block>, lo: int, hi: int)
    requires Tiled(bs, lo, hi) && l < r <= |bs| && Tiled(n, bs[l].at, bs[r - 1].End())
    ensures Tiled(Replaced(bs, l, r, n), lo, hi)
  {
    hide Tiled;
    TiledRange(bs, l, r, n, lo, hi);
  }

  lemma RelinkedAll(m: Memory, m': Memory, bs: seq<Block>, l: nat, r: nat, n: seq<Block>, lo: int, hi: int, a: int)
    requires Tiled(bs, lo, hi) && l < r <= |bs| && Tiled(n, bs[l].at, bs[r - 1].End()) && Represents(m, bs)
    requires |n| > 0 && Relinked(m, m', bs, l, r, n) && a < lo
    ensures Get(m', a) == Get(m, a) && Tiled(Replaced(bs, l, r, n), lo, hi) && Represents(m', Replaced(bs, l, r, n))
  {
    hide *;
    TiledFirst(n, bs[l].at, bs[r - 1].End());
    RelinkedArea(m, m', bs, l, r, n, lo, hi, a);
    RelinkedRepresents(m, m', bs, l, r, n, lo, hi);
    ReplacedTiled(bs, l, r, n, lo, hi);
  }

  lemma RelinkedStanding(m: Memory, m': Memory, bs: seq<Block>, l: nat, r: nat, n: seq<Block>, area: int, total: int)
    requires Standing(m, bs, area, total) && l < r <= |bs| && Tiled(n, bs[l].at, bs[r - 1].End())
    requires |n| > 0 && Relinked(m, m', bs, l, r, n)
    ensures Standing(m', Replaced(bs, l, r, n), area, total)
  {
    hide Tiled, Represents, Relinked, Get, Replaced;
    RelinkedAll(m, m', bs, l, r, n, area + BIGH, area + total, area);
  }

  predicate PayloadKept(m: Memory, m': Memory, b: Block) {
    forall a :: b.Payload() <= a < b.End() ==> Get(m', a) == Get(m, a)
  }

  /** All these blocks keep what is stored in them. */
  predicate AllKept(m: Memory, m': Memory, bs: set<Block>) {
    forall b :: b in bs ==> PayloadKept(m, m', b)
  }

  lemma KeptElsewhere(m: Memory, m': Memory, bs: seq<Block>, l: nat, r: nat, n: seq<Block>, i: nat, lo: int, hi: int)
    requires Tiled(bs, lo, hi) && l < r <= |bs| && n != [] && Relinked(m, m', bs, l, r, n)
    requires i < |bs| && (i < l || i >= r)
    ensures PayloadKept(m, m', bs[i])
  {
    hide Tiled, Header;
    if i < l {
      Apart(bs, lo, hi, i, l);
      if r < |bs| {
        Apart(bs, lo, hi, i, r);
      }
    } else {
      Apart(bs, lo, hi, r - 1, i);
      if r < i {
        Apart(bs, lo, hi, r, i);
      }
    }
  }

  /** A hole where at most block i was in use leaves the payload of all other blocks alone. */
  lemma HoleKeeps(m: Memory, m': Memory, bs: seq<Block>, l: nat, r: nat, n: seq<Block>, i: nat, lo: int, hi: int)
    requires Tiled(bs, lo, hi) && l <= i < r <= |bs| && n != [] && Relinked(m, m', bs, l, r, n)
    requires forall k :: l <= k < r && k != i ==> !bs[k].used
    ensures AllKept(m, m', Live(bs) - {bs[i]})
  {
    forall b | b in Live(bs) - {bs[i]} ensures PayloadKept(m, m', b) {
      var k :| 0 <= k < |bs| && bs[k] == b;
      hide Tiled, Relinked, PayloadKept;
      KeptElsewhere(m, m', bs, l, r, n, k, lo, hi);
    }
  }

  /** The cells of memory after the headers of the blocks i and i + 1 have been made one. */
  function MergeWrites(m: Memory, bs: seq<Block>, i: nat): Memory
    requires i + 1 < |bs|
  {
    var at, next := bs[i].at, At(bs, i + 2);
    var m2 := m[at + SIZE := bs[i + 1].size + SMALLH + bs[i].size][at + NEXT := next];
    if next != 0 then m2[next + PREV := at] else m2
  }

  lemma MergeCells(m: Memory, at: int, size: int, prev: int, next: int, end: int)
    requires at + SMALLH <= end && (next == 0 || next >= end) && Get(m, at + USED) == 0 && Get(m, at + PREV) == prev
    ensures var m2 := m[at + SIZE := size][at + NEXT := next];
            var m' := if next != 0 then m2[next + PREV := at] else m2;
            && SameBut(m, m', at, end, if next != 0 then next + PREV else at)
            && Header(m', Block(at, size, false), prev, next) && (next != 0 ==> Get(m', next + PREV) == at)
  {
  }

  lemma MergeSizes(bs: seq<Block>, i: nat, lo: int, hi: int)
    requires Tiled(bs, lo, hi) && lo > 0 && i + 1 < |bs|
    ensures FreeOver(bs, i, i + 2) == Block(bs[i].at, bs[i + 1].size + SMALLH + bs[i].size, false)
    ensures bs[i].at + SMALLH <= bs[i + 1].End() && (At(bs, i + 2) == 0 || At(bs, i + 2) >= bs[i + 1].End())
    ensures At(bs, i + 2) != 0 <==> i + 2 < |bs|
  {
    assert Follows(bs[i], bs[i + 1]);
    Bounds(bs, lo, hi, i + 1);
    if i + 2 < |bs| {
      Apart(bs, lo, hi, i + 1, i + 2);
    }
  }

  lemma MergeRelinks(m: Memory, bs: seq<Block>, i: nat, lo: int, hi: int)
    requires Tiled(bs, lo, hi) && Represents(m, bs) && lo > 0 && i + 1 < |bs| && !bs[i].used
    ensures Relinked(m, MergeWrites(m, bs, i), bs, i, i + 2, [FreeOver(bs, i, i + 2)])
  {
    hide Tiled, Represents, SameBut, Header, Get, FreeOver;
    MergeSizes(bs, i, lo, hi);
    Reads(m, bs, i, lo, hi);
    UnusedFlag(m, bs, i);
    MergeCells(m, bs[i].at, bs[i + 1].size + SMALLH + bs[i].size, At(bs, i - 1), At(bs, i + 2), bs[i + 1].End());
  }

  lemma UnusedFlag(m: Memory, bs: seq<Block>, i: nat)
    requires Represents(m, bs) && i < |bs|
    ensures Get(m, bs[i].at + USED) == Flag(bs[i].used)
  {
    assert Header(m, bs[i], At(bs, i - 1), At(bs, i + 1));
  }

  lemma HoleIsReplaced(bs: seq<Block>, l: nat, r: nat)
    requires l < r <= |bs|
    ensures Hole(bs, l, r) == Replaced(bs, l, r, [FreeOver(bs, l, r)])
  {
  }

  lemma StandingParts(m: Memory, bs: seq<Block>, area: int, total: int)
    requires Standing(m, bs, area, total)
    ensures Tiled(bs, area + BIGH, area + total) && Represents(m, bs) && area > 0
  {
  }

  /** A release step as a whole: where the headers around a hole are right, memory stands for the list with
      the hole, and all blocks in use but one have kept their payload. */
  lemma HoleStands(m: Memory, m': Memory, bs: seq<Block>, l: nat, r: nat, i: nat, area: int, total: int)
    requires Standing(m, bs, area, total) && l <= i < r <= |bs| && Relinked(m, m', bs, l, r, [FreeOver(bs, l, r)])
    requires forall k :: l <= k < r && k != i ==> !bs[k].used
    ensures Standing(m', Hole(bs, l, r), area, total)
    ensures Live(Hole(bs, l, r)) == Live(bs) - {bs[i]} && AllKept(m, m', Live(bs) - {bs[i]})
  {
    hide *;
    StandingParts(m, bs, area, total);
    HoleIsReplaced(bs, l, r);
    HoleLive(bs, l, r, i, area + BIGH, area + total);
    HoleKeeps(m, m', bs, l, r, [FreeOver(bs, l, r)], i, area + BIGH, area + total);
    FreeOverTiled(bs, l, r, area + BIGH, area + total);
    RelinkedStanding(m, m', bs, l, r, [FreeOver(bs, l, r)], area, total);
  }

  lemma FreeOverTiled(bs: seq<Block>, l: nat, r: nat, lo: int, hi: int)
    requires Tiled(bs, lo, hi) && l < r <= |bs|
    ensures Tiled([FreeOver(bs, l, r)], bs[l].at, bs[r - 1].End())
  {
    hide Tiled;
    Cut(bs, l, r, lo, hi);
    SingleTiled(FreeOver(bs, l, r));
  }

  lemma NotLive(bs: seq<Block>, b: Block)
    requires !b.used
    ensures Live(bs) - {b} == Live(bs)
  {
  }

  /** The cells of memory after a block has been cut in two. */
  function SplitWrites(m: Memory, b: Block, u: int, next: int): Memory {
    var between := b.at + u + SMALLH;
    var m1 := m[b.at + USED := WORD - 1];
    var m2 := if next != 0 then m1[next + PREV := between] else m1;
    m2[between + PREV := b.at][between + NEXT := next][b.at + NEXT := between]
      [between + SIZE := b.End() - (between + SMALLH)][between + USED := 0][b.at + SIZE := u]
  }

  lemma SplitCells(m: Memory, b: Block, u: int, prev: int, next: int)
    requires 0 <= u && u + SMALLH <= b.size && (next == 0 || next >= b.End()) && Get(m, b.at + PREV) == prev
    ensures var m', n := SplitWrites(m, b, u, next), Halves(b, u);
            && SameBut(m, m', b.at, b.End(), if next != 0 then next + PREV else b.at)
            && Header(m', n[0], prev, n[1].at) && Header(m', n[1], n[0].at, next)
            && (next != 0 ==> Get(m', next + PREV) == n[1].at)
  {
  }

  lemma NextBehind(bs: seq<Block>, i: nat, lo: int, hi: int)
    requires Tiled(bs, lo, hi) && lo > 0 && i < |bs|
    ensures At(bs, i + 1) == 0 || At(bs, i + 1) >= bs[i].End()
    ensures At(bs, i + 1) != 0 <==> i + 1 < |bs|
  {
    if i + 1 < |bs| {
      Bounds(bs, lo, hi, i + 1);
      Apart(bs, lo, hi, i, i + 1);
    }
  }

  lemma SplitRelinks(m: Memory, bs: seq<Block>, i: nat, u: int, lo: int, hi: int)
    requires Tiled(bs, lo, hi) && Represents(m, bs) && lo > 0 && i < |bs| && 0 <= u && u + SMALLH <= bs[i].size
    ensures Relinked(m, SplitWrites(m, bs[i], u, At(bs, i + 1)), bs, i, i + 1, Halves(bs[i], u))
  {
    hide Tiled, Represents, SameBut, Header, Get, SplitWrites;
    NextBehind(bs, i, lo, hi);
    Reads(m, bs, i, lo, hi);
    SplitCells(m, bs[i], u, At(bs, i - 1), At(bs, i + 1));
  }

  lemma FlagRelinks(m: Memory, bs: seq<Block>, i: nat, used: bool, lo: int, hi: int)
    requires Tiled(bs, lo, hi) && Represents(m, bs) && lo > 0 && i < |bs|
    ensures Relinked(m, m[bs[i].at + USED := Flag(used)], bs, i, i + 1, [bs[i].(used := used)])
  {
    hide Tiled, Represents, SameBut, Header, Get;
    NextBehind(bs, i, lo, hi);
    Bounds(bs, lo, hi, i);
    Reads(m, bs, i, lo, hi);
    if i + 1 < |bs| {
      Reads(m, bs, i + 1, lo, hi);
    }
    FlagCells(m, bs[i], used, At(bs, i - 1), At(bs, i + 1));
  }

  lemma FlagCells(m: Memory, b: Block, used: bool, prev: int, next: int)
    requires Get(m, b.at + SIZE) == b.size && Get(m, b.at + PREV) == prev && Get(m, b.at + NEXT) == next
    requires b.at + SMALLH <= b.End() && (next == 0 || (next >= b.End() && Get(m, next + PREV) == b.at))
    ensures var m' := m[b.at + USED := Flag(used)];
            && SameBut(m, m', b.at, b.End(), if next != 0 then next + PREV else b.at)
            && Header(m', b.(used := used), prev, next) && (next != 0 ==> Get(m', next + PREV) == b.at)
  {
  }

  /** A request served: memory stands for the new list, and all blocks in use have kept their payload. */
  lemma ServedStands(m: Memory, m': Memory, bs: seq<Block>, i: nat, n: seq<Block>, area: int, total: int)
    requires Standing(m, bs, area, total) && i < |bs| && |n| > 0 && Relinked(m, m', bs, i, i + 1, n) && !bs[i].used
    requires Tiled(n, bs[i].at, bs[i].End())
    ensures Standing(m', Replaced(bs, i, i + 1, n), area, total) && AllKept(m, m', Live(bs))
  {
    hide *;
    StandingParts(m, bs, area, total);
    RelinkedStanding(m, m', bs, i, i + 1, n, area, total);
    HoleKeeps(m, m', bs, i, i + 1, n, i, area + BIGH, area + total);
    NotLive(bs, bs[i]);
  }

  lemma TakenStands(m: Memory, bs: seq<Block>, i: nat, area: int, total: int)
    requires Standing(m, bs, area, total) && i < |bs| && !bs[i].used
    ensures var m' := m[bs[i].at + USED := WORD - 1];
            Standing(m', Taken(bs, i), area, total) && AllKept(m, m', Live(bs))
  {
    hide Tiled, Represents, Relinked, Live, AllKept, Get, Standing;
    StandingParts(m, bs, area, total);
    Bounds(bs, area + BIGH, area + total, i);
    FlagRelinks(m, bs, i, true, area + BIGH, area + total);
    SingleTiled(bs[i].(used := true));
    ServedStands(m, m[bs[i].at + USED := WORD - 1], bs, i, [bs[i].(used := true)], area, total);
  }

  lemma SplitStands(m: Memory, bs: seq<Block>, i: nat, u: int, area: int, total: int)
    requires Standing(m, bs, area, total) && i < |bs| && !bs[i].used
    requires 0 <= u && u % CELL == 0 && u + SMALLH <= bs[i].size
    ensures var m' := SplitWrites(m, bs[i], u, At(bs, i + 1));
            Standing(m', Split(bs, i, u), area, total) && AllKept(m, m', Live(bs))
  {
    hide Tiled, Represents, Relinked, Live, AllKept, Get, Standing, SplitWrites, Halves;
    StandingParts(m, bs, area, total);
    Bounds(bs, area + BIGH, area + total, i);
    SplitRelinks(m, bs, i, u, area + BIGH, area + total);
    HalvesTiled(bs[i], u);
    ServedStands(m, SplitWrites(m, bs[i], u, At(bs, i + 1)), bs, i, Halves(bs[i], u), area, total);
  }

  lemma DropStands(m: Memory, bs: seq<Block>, i: nat, area: int, total: int)
    requires Standing(m, bs, area, total) && i < |bs|
    ensures var m', d := m[bs[i].at + USED := 0], Hole(bs, i, i + 1);
            && Standing(m', d, area, total) && Live(d) == Live(bs) - {bs[i]} && AllKept(m, m', Live(d))
  {
    hide Tiled, Represents, Relinked, Live, AllKept, Get, Standing, Hole;
    StandingParts(m, bs, area, total);
    FlagRelinks(m, bs, i, false, area + BIGH, area + total);
    assert FreeOver(bs, i, i + 1) == bs[i].(used := false);
    HoleStands(m, m[bs[i].at + USED := 0], bs, i, i + 1, i, area, total);
  }

  lemma HeaderMissed(m: Memory, b: Block, prev: int, next: int, a: int, x: int)
    requires Header(m, b, prev, next) && (a < b.at || a >= b.at + SMALLH)
    ensures Header(m[a := x], b, prev, next)
  {
  }

  /** Whoever stays within the memory given out cannot harm the allocator. */
  lemma PayloadWrite(m: Memory, bs: seq<Block>, i: nat, a: int, x: int, area: int, total: int)
    requires Standing(m, bs, area, total) && i < |bs| && bs[i].Payload() <= a < bs[i].End()
    ensures Standing(m[a := x], bs, area, total)
  {
    hide Tiled, Header;
    var lo, hi := area + BIGH, area + total;
    Bounds(bs, lo, hi, i);
    forall j | 0 <= j < |bs| ensures Header(m[a := x], bs[j], At(bs, j - 1), At(bs, j + 1)) {
      if j < i {
        Apart(bs, lo, hi, j, i);
      } else if i < j {
        Apart(bs, lo, hi, i, j);
      }
      HeaderMissed(m, bs[j], At(bs, j - 1), At(bs, j + 1), a, x);
    }
  }

  lemma InitStands(m: Memory, addr: int, size: int)
    requires 0 < addr && addr % CELL == 0 && BIGH + SMALLH <= size && addr + size <= WORD && Get(m, addr) == size
    requires Header(m, Block(addr + BIGH, size - BIGH - SMALLH, false), 0, 0)
    ensures Standing(m, [Block(addr + BIGH, size - BIGH - SMALLH, false)], addr, size)
  {
    hide Header, Get, Tiled;
    SingleTiled(Block(addr + BIGH, size - BIGH - SMALLH, false));
  }

  lemma InitCells(m: Memory, addr: int, size: int)
    ensures var b := Block(addr + BIGH, size - BIGH - SMALLH, false);
            var m' := m[addr := size][b.at + SIZE := b.size][b.at + USED := 0][b.at + PREV := 0][b.at + NEXT := 0];
            Get(m', addr) == size && Header(m', b, 0, 0)
  {
  }

  lemma HoleIndex(bs: seq<Block>, i: nat)
    requires i < |bs|
    ensures var d := Hole(bs, i, i + 1);
            && |d| == |bs| && !d[i].used && d[i].at == bs[i].at
            && (i > 0 ==> d[i - 1] == bs[i - 1]) && (i + 1 < |bs| ==> d[i + 1] == bs[i + 1])
  {
  }

  lemma UnusedHole(bs: seq<Block>, i: nat)
    requires i < |bs| && !bs[i].used
    ensures Hole(bs, i, i + 1) == bs
  {
    assert FreeOver(bs, i, i + 1) == bs[i];
  }

  lemma HoleStart(bs: seq<Block>, i: nat)
    requires i + 1 < |bs|
    ensures var d := Hole(bs, i, i + 2);
            |d| == |bs| - 1 && !d[i].used && d[i].at == bs[i].at && (i > 0 ==> d[i - 1] == bs[i - 1])
  {
  }

  lemma AllKeptOn(m: Memory, m1: Memory, m2: Memory, bs: set<Block>)
    requires AllKept(m, m1, bs) && AllKept(m1, m2, bs)
    ensures AllKept(m, m2, bs)
  {
  }

  lemma NothingChanged(m: Memory, bs: set<Block>)
    ensures AllKept(m, m, bs)
  {
  }

  /** The situation of block i: what is behind it, and what before. */
  function Situation(bs: seq<Block>, i: nat): int
    requires i < |bs|
  {
    (if i + 1 == |bs| then 1 else if bs[i + 1].used then 4 else 0)
    + (if i == 0 then 2 else if bs[i - 1].used then 8 else 0)
  }

  /** Which merges the situation calls for. */
  lemma SituationTells(bs: seq<Block>, i: nat)
    requires i < |bs|
    ensures var s, right, left := Situation(bs, i), i + 1 < |bs| && !bs[i + 1].used, i > 0 && !bs[i - 1].used;
            && (right && left <==> s == 0) && (left && !right <==> s == 1 || s == 4)
            && (right && !left <==> s == 2 || s == 8) && (!right && !left <==> s == 3 || s == 6 || s == 9 || s == 12)
            && Left(bs, i) == (if left then i - 1 else i) && Right(bs, i) == (if right then i + 2 else i + 1)
  {
  }

  class Allocator {
    var area: int                 // ALLOCATION-AREA, 0 while there is none
    var mem: Memory        // the cells of memory
    ghost var total: int          // the size of the area
    ghost var blocks: seq<Block>  // the blocks in it

    ghost predicate Linked()
      reads this
    {
      Standing(mem, blocks, area, total)
    }

    ghost predicate Valid()
      reads this
    {
      area != 0 ==> Linked() && Coalesced(blocks)
    }

    constructor ()
      ensures area == 0 && Valid()
    {
      area, mem, total, blocks := 0, map[], 0, [];
    }

    method Store(a: int, x: int)
      modifies `mem
      ensures mem == old(mem)[a := x]
    {
      mem := mem[a := x];
    }

    /** The first header and the block that is the whole rest of the area. */
    method InitAllocationArea(addr: int, size: int)
      requires 0 < addr && addr % CELL == 0 && BIGH + SMALLH <= size && addr + size <= WORD
      modifies this
      ensures Valid() && area == addr && total == size
      ensures Get(mem, addr) == size && blocks == [Block(addr + 8, size - 40, false)]
    {
      area := addr;
      Store(addr, size);
      var start := addr + BIGH;
      Store(start + SIZE, Get(mem, addr) - BIGH - SMALLH);
      Store(start + USED, 0);
      Store(start + PREV, 0);
      Store(start + NEXT, 0);
      total, blocks := size, [Block(start, size - BIGH - SMALLH, false)];
      hide Tiled, Represents, Standing, Header;
      InitCells(old(mem), addr, size);
      InitStands(mem, addr, size);
    }

    /** The first free block that is large enough for u bytes and another header; 0 if there is none. */
    method FindFreeArea(u: int, smallh: int, ghost i: nat) returns (r: int)
      requires Linked() && i < |blocks| && smallh == blocks[i].at && 0 <= u < WORD
      ensures r == At(blocks, FirstFit(blocks, i, (u + SMALLH) % WORD))
      decreases |blocks| - i
    {
      hide Tiled, Represents;
      Reads(mem, blocks, i, area + BIGH, area + total);
      if Get(mem, smallh + USED) != 0 {
        var next := Get(mem, smallh + NEXT);
        if next != 0 {
          r := FindFreeArea(u, next, i + 1);
        } else {
          r := 0;
        }
      } else if Get(mem, smallh + SIZE) > (u + SMALLH) % WORD {
        r := smallh;
      } else {
        var next := Get(mem, smallh + NEXT);
        if next != 0 {
          r := FindFreeArea(u, next, i + 1);
        } else {
          r := 0;
        }
      }
    }

    /** Writes the headers for block b cut in two. */
    method WriteHalves(u: int, smallh: int, ghost b: Block)
      requires smallh == b.at && Get(mem, smallh + SIZE) == b.size && 0 <= u && u + SMALLH <= b.size
      requires var next := Get(mem, smallh + NEXT); next == 0 || next >= b.End()
      modifies `mem
      ensures mem == SplitWrites(old(mem), b, u, old(Get(mem, smallh + NEXT)))
    {
      Store(smallh + USED, WORD - 1);
      var between := smallh + u + SMALLH;
      var next := Get(mem, smallh + NEXT);
      if next != 0 {
        Store(next + PREV, between);
      }
      Store(between + PREV, smallh);
      Store(between + NEXT, next);
      Store(smallh + NEXT, between);
      var end := smallh + SMALLH + Get(mem, smallh + SIZE);
      Store(between + SIZE, end - (between + SMALLH));
      Store(between + USED, 0);
      Store(smallh + SIZE, u);
    }

    /** Gives out block i for u bytes: as it is, or cut in two. */
    method SplitAllocate(u: int, smallh: int, ghost i: nat) returns (addr: int)
      requires Linked() && i < |blocks| && smallh == blocks[i].at && !blocks[i].used && 0 <= u && u % CELL == 0
      modifies `mem, `blocks
      ensures Linked() && addr == smallh + SMALLH && AllKept(old(mem), mem, Live(old(blocks)))
      ensures blocks == if IsPerfectFit(u, old(blocks)[i].size) then Taken(old(blocks), i) else Split(old(blocks), i, u)
    {
      hide Standing, Tiled, Represents, Live, AllKept, Get, At, Taken, Split, SplitWrites;
      StandingParts(mem, blocks, area, total);
      Reads(mem, blocks, i, area + BIGH, area + total);
      NextBehind(blocks, i, area + BIGH, area + total);
      if IsPerfectFit(u, Get(mem, smallh + SIZE)) {
        TakenStands(mem, blocks, i, area, total);
        Store(smallh + USED, WORD - 1);
        blocks := Taken(blocks, i);
      } else {
        SplitStands(mem, blocks, i, u, area, total);
        WriteHalves(u, smallh, blocks[i]);
        blocks := Split(blocks, i, u);
      }
      addr := smallh + SMALLH;
    }

    /** Makes block i and the free block behind it one. */
    method MergeRight(smallh: int, ghost i: nat)
      requires Linked() && i + 1 < |blocks| && smallh == blocks[i].at && !blocks[i].used && !blocks[i + 1].used
      modifies `mem, `blocks
      ensures Linked() && blocks == Hole(old(blocks), i, i + 2)
      ensures Live(blocks) == Live(old(blocks)) && AllKept(old(mem), mem, Live(blocks))
    {
      hide Tiled, Represents, Relinked, Hole, Live, AllKept;
      ghost var m, lo, hi := mem, area + BIGH, area + total;
      Reads(mem, blocks, i, lo, hi);
      Reads(mem, blocks, i + 1, lo, hi);
      Apart(blocks, lo, hi, i, i + 1);
      MergeRelinks(m, blocks, i, lo, hi);
      Store(smallh + SIZE, Get(mem, Get(mem, smallh + NEXT) + SIZE) + SMALLH + Get(mem, smallh + SIZE));
      Store(smallh + NEXT, Get(mem, Get(mem, smallh + NEXT) + NEXT));
      var next := Get(mem, smallh + NEXT);
      if next != 0 {
        Store(next + PREV, smallh);
      }
      assert mem == MergeWrites(m, blocks, i);
      hide Standing;
      HoleStands(m, mem, blocks, i, i + 2, i, area, total);
      NotLive(blocks, blocks[i]);
      blocks := Hole(blocks, i, i + 2);
    }

    /** Makes block i and the free block before it one. */
    method MergeLeft(smallh: int, ghost i: nat)
      requires Linked() && 0 < i < |blocks| && smallh == blocks[i].at && !blocks[i - 1].used && !blocks[i].used
      modifies `mem, `blocks
      ensures Linked() && blocks == Hole(old(blocks), i - 1, i + 1)
      ensures Live(blocks) == Live(old(blocks)) && AllKept(old(mem), mem, Live(blocks))
    {
      hide Tiled, Represents, Hole, Live, AllKept;
      Reads(mem, blocks, i, area + BIGH, area + total);
      MergeRight(Get(mem, smallh + PREV), i - 1);
    }

    /** Memory for u bytes, at the end of a header; or 0 and an error. */
    method Allocate(u: int) returns (addr: int, ior: int)
      requires Valid() && 0 <= u < WORD
      modifies `mem, `blocks
      ensures Valid() && AllKept(old(mem), mem, Live(old(blocks)))
      ensures var k := Fit(old(blocks), u);
              if area == 0 || k == |old(blocks)|
              then addr == 0 && ior == -21 && mem == old(mem) && blocks == old(blocks)
              else addr == old(blocks)[k].Payload() && ior == 0 && blocks == Served(old(blocks), u)
      ensures ior == 0 <==> addr != 0
    {
      hide Standing, Tiled, Represents, Coalesced, Live, Taken, Split, FirstFit, AllKept;
      NothingChanged(mem, Live(blocks));
      if area == 0 {
        return 0, OUT_OF_MEMORY;
      }
      if (u + CELL - 1) / WORD != 0 {
        return 0, OUT_OF_MEMORY;
      }
      StandingParts(mem, blocks, area, total);
      TiledFirst(blocks, area + BIGH, area + total);
      AlignedUp(u);
      ServedKeeps(blocks, u, area + BIGH, area + total);
      FirstFitFinds(blocks, 0, (Aligned(u) + SMALLH) % WORD);
      ghost var k := Fit(blocks, u);
      if k < |blocks| {
        Bounds(blocks, area + BIGH, area + total, k);
      }
      var smallh := FindFreeArea(Aligned(u), area + BIGH, 0);
      if smallh != 0 {
        addr := SplitAllocate(Aligned(u), smallh, k);
        ior := 0;
      } else {
        addr, ior := 0, OUT_OF_MEMORY;
      }
    }

    /** Releases block i, and makes it one with its free neighbours. */
    method Free(addr: int, ghost i: nat) returns (ior: int)
      requires Valid()
      requires addr != 0 && area != 0 ==> i < |blocks| && blocks[i].used && addr == blocks[i].Payload()
      modifies `mem, `blocks
      ensures Valid()
      ensures if addr == 0 then ior == 0 && mem == old(mem) && blocks == old(blocks)
              else if area == 0 then ior == -21 && mem == old(mem) && blocks == old(blocks)
              else ior == 0 && blocks == Freed(old(blocks), i) && AllKept(old(mem), mem, Live(blocks))
    {
      if addr == 0 {
        return 0;
      }
      if area == 0 {
        return OUT_OF_MEMORY;
      }
      var smallh := addr - SMALLH;
      Release(smallh, i);
      return 0;
    }

    method Release(smallh: int, ghost i: nat)
      requires Valid() && area != 0 && i < |blocks| && blocks[i].used && smallh == blocks[i].at
      modifies `mem, `blocks
      ensures Valid() && blocks == Freed(old(blocks), i) && AllKept(old(mem), mem, Live(blocks))
    {
      hide Standing, Tiled, Represents, Coalesced, Live, Hole, AllKept, Get;
      ghost var bs, lo, hi := blocks, area + BIGH, area + total;
      FreedCoalesced(bs, i);
      DropStands(mem, bs, i, area, total);
      Store(smallh + USED, 0);
      blocks := Hole(bs, i, i + 1);
      ghost var m := mem;
      HoleIndex(bs, i);
      StandingParts(mem, blocks, area, total);
      Reads(mem, blocks, i, lo, hi);
      var next := Get(mem, smallh + NEXT);
      var right := 1;
      if next != 0 {
        Reads(mem, blocks, i + 1, lo, hi);
        right := if Get(mem, next + USED) != 0 then 4 else 0;
      }
      var prev := Get(mem, smallh + PREV);
      var left := 2;
      if prev != 0 {
        Reads(mem, blocks, i - 1, lo, hi);
        left := if Get(mem, prev + USED) != 0 then 8 else 0;
      }
      Coalesce(smallh, left + right, bs, i);
      AllKeptOn(old(mem), m, mem, Live(blocks));
    }

    /** Merges the block just marked free with its free neighbours. */
    method Coalesce(smallh: int, situation: int, ghost bs: seq<Block>, ghost i: nat)
      requires Linked() && i < |bs| && smallh == bs[i].at && blocks == Hole(bs, i, i + 1)
               && situation == Situation(bs, i)
      modifies `mem, `blocks
      ensures Linked() && blocks == Freed(bs, i)
      ensures Live(blocks) == Live(old(blocks)) && AllKept(old(mem), mem, Live(blocks))
    {
      hide Standing, Hole, Live, AllKept, Situation, Left, Right;
      SituationTells(bs, i);
      HoleIndex(bs, i);
      NothingChanged(mem, Live(blocks));
      if situation == 0 {
        MergeRight(smallh, i);
        ghost var m := mem;
        HoleInHole(bs, i, i + 1, i, i + 2);
        HoleStart(bs, i);
        MergeLeft(smallh, i);
        HoleInHole(bs, i, i + 2, i - 1, i + 2);
        AllKeptOn(old(mem), m, mem, Live(blocks));
      } else if situation == 1 || situation == 4 {
        MergeLeft(smallh, i);
        HoleInHole(bs, i, i + 1, i - 1, i + 1);
      } else if situation == 2 || situation == 8 {
        MergeRight(smallh, i);
        HoleInHole(bs, i, i + 1, i, i + 2);
      } else {
        SetUnused(smallh, i);
      }
    }

    /** Marks a block free that is marked free. */
    method SetUnused(smallh: int, ghost i: nat)
      requires Linked() && i < |blocks| && smallh == blocks[i].at && !blocks[i].used
      modifies `mem
      ensures Linked() && AllKept(old(mem), mem, Live(blocks))
    {
      hide Tiled, Represents, Relinked, Standing, Live, AllKept, Hole;
      DropStands(mem, blocks, i, area, total);
      NotLive(blocks, blocks[i]);
      UnusedHole(blocks, i);
      Store(smallh + USED, 0);
    }
  }
}
