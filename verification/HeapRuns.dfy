/** What holds of the heap after any run of requests and releases. */
module HeapRuns {
  import opened HeapBlocks

  /** A request for so many bytes, or the release of the memory at an address. */
  datatype Op = Request(u: nat) | Release(addr: int)

  /** The block in use whose memory is at the address, or the number of blocks if there is none. */
  function Holder(bs: seq<Block>, addr: int, i: nat): (k: nat)
    requires i <= |bs|
    ensures i <= k <= |bs| && (k < |bs| ==> bs[k].used && bs[k].Payload() == addr)
    decreases |bs| - i
  {
    if i == |bs| || (bs[i].used && bs[i].Payload() == addr) then i else Holder(bs, addr, i + 1)
  }

  /** Only memory that has been given out is released. */
  function Step(bs: seq<Block>, op: Op): seq<Block> {
    match op
    case Request(u) => Served(bs, u)
    case Release(addr) =>
      var k := Holder(bs, addr, 0);
      if k < |bs| then Freed(bs, k) else bs
  }

  function After(bs: seq<Block>, ops: seq<Op>): seq<Block>
    decreases |ops|
  {
    if ops == [] then bs else After(Step(bs, ops[0]), ops[1..])
  }

  /** One free block, as INIT-ALLOCATION-AREA leaves it. */
  function Fresh(lo: int, hi: int): seq<Block> {
    [Block(lo, hi - lo - SMALLH, false)]
  }

  predicate Sound(bs: seq<Block>, lo: int, hi: int) {
    Tiled(bs, lo, hi) && Coalesced(bs)
  }

  lemma StepSound(bs: seq<Block>, op: Op, lo: int, hi: int)
    requires Sound(bs, lo, hi)
    ensures Sound(Step(bs, op), lo, hi)
  {
    hide Tiled, Coalesced, Served, Freed;
    match op
    case Request(u) => ServedKeeps(bs, u, lo, hi);
    case Release(addr) =>
      var k := Holder(bs, addr, 0);
      if k < |bs| {
        FreedTiled(bs, k, lo, hi);
        FreedCoalesced(bs, k);
      }
  }

  lemma {:induction false} AfterSound(bs: seq<Block>, ops: seq<Op>, lo: int, hi: int)
    requires Sound(bs, lo, hi)
    ensures Sound(After(bs, ops), lo, hi)
    decreases |ops|
  {
    if ops != [] {
      StepSound(bs, ops[0], lo, hi);
      AfterSound(Step(bs, ops[0]), ops[1..], lo, hi);
    }
  }

  /** In every reachable heap the blocks cover the area exactly, no two neighbours are free, and headers and
      payloads add up to the area. */
  lemma Reachable(ops: seq<Op>, lo: int, hi: int)
    requires lo % CELL == 0 && lo + SMALLH <= hi
    ensures var bs := After(Fresh(lo, hi), ops); Tiled(bs, lo, hi) && Coalesced(bs) && Total(bs) == hi - lo
  {
    AfterSound(Fresh(lo, hi), ops, lo, hi);
    TotalIs(After(Fresh(lo, hi), ops), lo, hi);
  }

  /** The memory given out lies within the area, at cell boundaries, and no two blocks of it overlap. */
  lemma LiveApart(bs: seq<Block>, lo: int, hi: int, b: Block, c: Block)
    requires Tiled(bs, lo, hi) && b in Live(bs) && c in Live(bs) && b != c
    ensures lo <= b.at && b.End() <= hi && b.Payload() % CELL == 0
    ensures b.End() <= c.at || c.End() <= b.at
  {
    var i :| 0 <= i < |bs| && bs[i] == b;
    var j :| 0 <= j < |bs| && bs[j] == c;
    Bounds(bs, lo, hi, i);
    if i < j {
      Apart(bs, lo, hi, i, j);
    } else {
      Apart(bs, lo, hi, j, i);
    }
  }

  lemma OneOfTwoUsed(bs: seq<Block>)
    requires Coalesced(bs) && |bs| >= 2
    ensures Live(bs) != {}
  {
    assert bs[0].used || bs[1].used;
    assert (if bs[0].used then bs[0] else bs[1]) in Live(bs);
  }

  lemma UsedIsLive(bs: seq<Block>)
    requires bs != [] && bs[0].used
    ensures Live(bs) != {}
  {
    assert bs[0] in Live(bs);
  }

  /** With nothing in use the heap is as it was at the start. */
  lemma NothingLive(bs: seq<Block>, lo: int, hi: int)
    requires Sound(bs, lo, hi) && Live(bs) == {}
    ensures bs == Fresh(lo, hi)
  {
    if |bs| >= 2 {
      OneOfTwoUsed(bs);
    }
    if bs[0].used {
      UsedIsLive(bs);
    }
    assert bs == [bs[0]];
  }

  lemma {:induction false} HolderFinds(bs: seq<Block>, i: nat, j: nat)
    requires i <= j < |bs| && bs[j].used
    ensures Holder(bs, bs[j].Payload(), i) <= j
    decreases j - i
  {
    if i < j {
      HolderFinds(bs, i + 1, j);
    }
  }

  /** An address given out has one holder: the release of a block that Free takes is the one of its address. */
  lemma HolderIs(bs: seq<Block>, i: nat, lo: int, hi: int)
    requires Tiled(bs, lo, hi) && i < |bs| && bs[i].used
    ensures Holder(bs, bs[i].Payload(), 0) == i && Step(bs, Release(bs[i].Payload())) == Freed(bs, i)
  {
    hide Freed;
    HolderFinds(bs, 0, i);
    var k := Holder(bs, bs[i].Payload(), 0);
    if k < i {
      Apart(bs, lo, hi, k, i);
    }
  }

  /** Of the blocks in use a release takes away the one at its address. */
  lemma ReleaseLive(bs: seq<Block>, addr: int, lo: int, hi: int)
    requires Tiled(bs, lo, hi)
    ensures Live(Step(bs, Release(addr))) == set b | b in Live(bs) && b.Payload() != addr
  {
    var k := Holder(bs, addr, 0);
    if k < |bs| {
      FreedLive(bs, k, lo, hi);
    }
    forall b | b in Live(bs) && b.Payload() == addr ensures k < |bs| && b == bs[k] {
      var j :| 0 <= j < |bs| && bs[j] == b;
      HolderFinds(bs, 0, j);
      if j != k {
        Elsewhere(bs, lo, hi, j, k);
      }
    }
    hide Freed, Tiled;
  }

  function Releases(addrs: seq<int>): seq<Op> {
    seq(|addrs|, i requires 0 <= i < |addrs| => Release(addrs[i]))
  }

  lemma {:induction false} ReleasesLive(bs: seq<Block>, addrs: seq<int>, lo: int, hi: int)
    requires Sound(bs, lo, hi)
    ensures Live(After(bs, Releases(addrs))) == set b | b in Live(bs) && b.Payload() !in addrs
    decreases |addrs|
  {
    if addrs != [] {
      var next := Step(bs, Release(addrs[0]));
      assert Releases(addrs)[1..] == Releases(addrs[1..]);
      StepSound(bs, Release(addrs[0]), lo, hi);
      ReleaseLive(bs, addrs[0], lo, hi);
      ReleasesLive(next, addrs[1..], lo, hi);
      hide Live, Step, Sound;
      assert forall b: Block :: b.Payload() !in addrs <==> b.Payload() != addrs[0] && b.Payload() !in addrs[1..];
    }
  }

  /** Whatever the run so far: releasing all memory in use, in any order, restores the single free block. */
  lemma ReleaseAll(ops: seq<Op>, addrs: seq<int>, lo: int, hi: int)
    requires lo % CELL == 0 && lo + SMALLH <= hi
    requires var bs := After(Fresh(lo, hi), ops); forall b :: b in Live(bs) ==> b.Payload() in addrs
    ensures After(After(Fresh(lo, hi), ops), Releases(addrs)) == Fresh(lo, hi)
  {
    var bs := After(Fresh(lo, hi), ops);
    AfterSound(Fresh(lo, hi), ops, lo, hi);
    AfterSound(bs, Releases(addrs), lo, hi);
    ReleasesLive(bs, addrs, lo, hi);
    assert Live(After(bs, Releases(addrs))) == {};
    hide Sound, Live, After, Fresh;
    NothingLive(After(bs, Releases(addrs)), lo, hi);
  }
}
