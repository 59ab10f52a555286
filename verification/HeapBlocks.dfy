/** The blocks of the allocation area as a list, and what requests and releases do to it. */
module HeapBlocks {
  /** One more than the largest cell. */
  const WORD: int := 0x1_0000_0000_0000_0000

  const CELL: int := 8
  const BIGH: int := 8
  const SMALLH: int := 32

  /** A header at at, followed by size bytes of payload. */
  datatype Block = Block(at: int, size: int, used: bool) {
    function Payload(): int { at + SMALLH }

    function End(): int { at + SMALLH + size }
  }

  predicate Follows(b: Block, c: Block) {
    c.at == b.End()
  }

  /** The blocks cover the addresses from lo up to hi without a gap. */
  predicate Tiled(bs: seq<Block>, lo: int, hi: int) {
    && bs != [] && bs[0].at == lo && bs[|bs| - 1].End() == hi
    && (forall i :: 0 <= i < |bs| ==> bs[i].size >= 0 && bs[i].at % CELL == 0)
    && (forall i, j :: 0 <= i < j == i + 1 < |bs| ==> Follows(bs[i], bs[j]))
  }

  /** No two neighbours are both free. */
  predicate Coalesced(bs: seq<Block>) {
    forall i, j :: 0 <= i < j == i + 1 < |bs| ==> bs[i].used || bs[j].used
  }

  lemma {:induction false} Apart(bs: seq<Block>, lo: int, hi: int, i: nat, j: nat)
    requires Tiled(bs, lo, hi) && i < j < |bs|
    ensures bs[i].at + SMALLH <= bs[i].End() <= bs[j].at
    decreases j
  {
    assert Follows(bs[j - 1], bs[j]);
    if i < j - 1 {
      Apart(bs, lo, hi, i, j - 1);
    }
  }

  lemma Bounds(bs: seq<Block>, lo: int, hi: int, i: nat)
    requires Tiled(bs, lo, hi) && i < |bs|
    ensures lo <= bs[i].at && bs[i].at + SMALLH <= bs[i].End() <= hi && bs[i].at % CELL == 0
  {
    if i > 0 {
      Apart(bs, lo, hi, 0, i);
    }
    if i < |bs| - 1 {
      Apart(bs, lo, hi, i, |bs| - 1);
    }
  }

  /** The bytes of headers and payloads together. */
  function Total(bs: seq<Block>): int {
    if bs == [] then 0 else Total(bs[..|bs| - 1]) + bs[|bs| - 1].size + SMALLH
  }

  /** Nothing is lost: headers and payloads always add up to the area. */
  lemma {:induction false} TotalIs(bs: seq<Block>, lo: int, hi: int)
    requires Tiled(bs, lo, hi)
    ensures Total(bs) == hi - lo
    decreases |bs|
  {
    var n := |bs| - 1;
    if n > 0 {
      assert Follows(bs[n - 1], bs[n]);
      TotalIs(bs[..n], lo, bs[n].at);
    }
  }

  /** A stretch of blocks replaced by another one that covers the same addresses. */
  lemma TiledReplace(a: seq<Block>, o: seq<Block>, n: seq<Block>, b: seq<Block>, lo: int, hi: int)
    requires Tiled(a + o + b, lo, hi) && o != [] && Tiled(n, o[0].at, o[|o| - 1].End())
    ensures Tiled(a + n + b, lo, hi)
  {
    var s, t := a + o + b, a + n + b;
    forall i | 0 <= i < |t| ensures t[i].size >= 0 && t[i].at % CELL == 0 {
      if i < |a| {
        assert t[i] == s[i];
      } else if i >= |a| + |n| {
        assert t[i] == s[i - |n| + |o|];
      }
    }
    forall i, j | 0 <= i < j == i + 1 < |t| ensures Follows(t[i], t[j]) {
      if j <= |a| {
        assert Follows(s[i], s[j]);
      } else if i >= |a| + |n| - 1 {
        assert Follows(s[i - |n| + |o|], s[j - |n| + |o|]);
      } else {
        assert Follows(n[i - |a|], n[j - |a|]);
      }
    }
    assert t[0] == if a == [] then n[0] else s[0];
    assert t[|t| - 1] == if b == [] then n[|n| - 1] else s[|s| - 1];
  }

  predicate Meet(a: seq<Block>, b: seq<Block>) {
    a == [] || b == [] || a[|a| - 1].used || b[0].used
  }

  lemma CoalescedParts(a: seq<Block>, b: seq<Block>)
    ensures Coalesced(a + b) <==> Coalesced(a) && Coalesced(b) && Meet(a, b)
  {
    var s := a + b;
    if Coalesced(s) {
      forall i, j | 0 <= i < j == i + 1 < |a| ensures a[i].used || a[j].used {
        assert s[i] == a[i] && s[j] == a[j];
      }
      forall i, j | 0 <= i < j == i + 1 < |b| ensures b[i].used || b[j].used {
        assert s[i + |a|] == b[i] && s[j + |a|] == b[j];
      }
      if a != [] && b != [] {
        assert s[|a| - 1].used || s[|a|].used;
      }
    }
    if Coalesced(a) && Coalesced(b) && Meet(a, b) {
      forall i, j | 0 <= i < j == i + 1 < |s| ensures s[i].used || s[j].used {
        if i >= |a| {
          assert b[i - |a|].used || b[j - |a|].used;
        }
      }
    }
  }

  /** The blocks given out and not yet released. */
  function Live(bs: seq<Block>): set<Block> {
    set b | b in bs && b.used
  }

  lemma LiveParts(a: seq<Block>, b: seq<Block>)
    ensures Live(a + b) == Live(a) + Live(b)
  {
  }

  /** The first free block from index i on that is larger than need. */
  function FirstFit(bs: seq<Block>, i: nat, need: int): (k: nat)
    requires i <= |bs|
    ensures i <= k <= |bs|
    decreases |bs| - i
  {
    if i == |bs| || (!bs[i].used && bs[i].size > need) then i else FirstFit(bs, i + 1, need)
  }

  lemma {:induction false} FirstFitFinds(bs: seq<Block>, i: nat, need: int)
    requires i <= |bs|
    ensures var k := FirstFit(bs, i, need);
            && (forall j :: i <= j < k ==> bs[j].used || bs[j].size <= need)
            && (k < |bs| ==> !bs[k].used && bs[k].size > need)
    decreases |bs| - i
  {
    if i < |bs| && !(!bs[i].used && bs[i].size > need) {
      FirstFitFinds(bs, i + 1, need);
    }
  }

  /** A block cut in two: u bytes in use, and a free block behind them. */
  function Halves(b: Block, u: int): (n: seq<Block>)
    ensures |n| == 2
  {
    [Block(b.at, u, true), Block(b.at + u + SMALLH, b.size - u - SMALLH, false)]
  }

  function Split(bs: seq<Block>, i: nat, u: int): seq<Block>
    requires i < |bs|
  {
    bs[..i] + Halves(bs[i], u) + bs[i + 1..]
  }

  /** Block i as it is, in use. */
  function Taken(bs: seq<Block>, i: nat): seq<Block>
    requires i < |bs|
  {
    bs[..i] + [bs[i].(used := true)] + bs[i + 1..]
  }

  /** Where the free stretch around block i begins, and the first block behind it. */
  function Left(bs: seq<Block>, i: nat): (l: nat)
    requires i < |bs|
    ensures l <= i
  {
    if i > 0 && !bs[i - 1].used then i - 1 else i
  }

  function Right(bs: seq<Block>, i: nat): (r: nat)
    requires i < |bs|
    ensures i < r <= |bs|
  {
    if i + 1 < |bs| && !bs[i + 1].used then i + 2 else i + 1
  }

  /** The free block that takes the place of the blocks from l up to r. */
  function FreeOver(bs: seq<Block>, l: nat, r: nat): (b: Block)
    requires l < r <= |bs|
    ensures !b.used
  {
    Block(bs[l].at, bs[r - 1].End() - bs[l].at - SMALLH, false)
  }

  /** The list with one free block in their place. */
  function Hole(bs: seq<Block>, l: nat, r: nat): (t: seq<Block>)
    requires l < r <= |bs|
    ensures |t| == |bs| - (r - l) + 1
  {
    bs[..l] + [FreeOver(bs, l, r)] + bs[r..]
  }

  /** Block i and its free neighbours as one free block. */
  function Freed(bs: seq<Block>, i: nat): seq<Block>
    requires i < |bs|
  {
    Hole(bs, Left(bs, i), Right(bs, i))
  }

  lemma Cut(bs: seq<Block>, l: nat, r: nat, lo: int, hi: int)
    requires Tiled(bs, lo, hi) && l < r <= |bs|
    ensures bs == bs[..l] + bs[l..r] + bs[r..]
    ensures bs[l..r][0] == bs[l] && bs[l..r][r - l - 1] == bs[r - 1] && bs[l].at + SMALLH <= bs[r - 1].End()
    ensures bs[l].at % CELL == 0
  {
    if l < r - 1 {
      Apart(bs, lo, hi, l, r - 1);
    }
  }

  lemma TiledRange(bs: seq<Block>, l: nat, r: nat, n: seq<Block>, lo: int, hi: int)
    requires Tiled(bs, lo, hi) && l < r <= |bs| && Tiled(n, bs[l].at, bs[r - 1].End())
    ensures Tiled(bs[..l] + n + bs[r..], lo, hi)
  {
    hide *;
    Cut(bs, l, r, lo, hi);
    TiledReplace(bs[..l], bs[l..r], n, bs[r..], lo, hi);
  }

  lemma HalvesTiled(b: Block, u: int)
    requires b.at % CELL == 0 && 0 <= u && u + SMALLH <= b.size && u % CELL == 0
    ensures Tiled(Halves(b, u), b.at, b.End())
  {
    assert Follows(Halves(b, u)[0], Halves(b, u)[1]);
  }

  lemma SplitTiled(bs: seq<Block>, i: nat, u: int, lo: int, hi: int)
    requires Tiled(bs, lo, hi) && i < |bs| && 0 <= u && u + SMALLH <= bs[i].size && u % CELL == 0
    ensures Tiled(Split(bs, i, u), lo, hi)
  {
    hide Tiled, Halves;
    Bounds(bs, lo, hi, i);
    HalvesTiled(bs[i], u);
    TiledRange(bs, i, i + 1, Halves(bs[i], u), lo, hi);
  }

  lemma SplitCoalesced(bs: seq<Block>, i: nat, u: int)
    requires Coalesced(bs) && i < |bs| && !bs[i].used
    ensures Coalesced(Split(bs, i, u))
  {
    var b := bs[i];
    var n := Halves(b, u);
    assert bs == bs[..i + 1] + bs[i + 1..] && bs == bs[..i] + bs[i..];
    CoalescedParts(bs[..i + 1], bs[i + 1..]);
    CoalescedParts(bs[..i], bs[i..]);
    CoalescedParts(bs[..i], n);
    CoalescedParts(bs[..i] + n, bs[i + 1..]);
    hide Coalesced;
    assert bs[..i + 1][i] == bs[i];
  }

  lemma TakenKeeps(bs: seq<Block>, i: nat, lo: int, hi: int)
    requires Tiled(bs, lo, hi) && Coalesced(bs) && i < |bs|
    ensures Tiled(Taken(bs, i), lo, hi) && Coalesced(Taken(bs, i))
  {
    var n := [bs[i].(used := true)];
    Cut(bs, i, i + 1, lo, hi);
    TiledRange(bs, i, i + 1, n, lo, hi);
    assert Taken(bs, i) == bs[i := bs[i].(used := true)];
  }

  lemma SingleTiled(b: Block)
    requires b.size >= 0 && b.at % CELL == 0
    ensures Tiled([b], b.at, b.End())
  {
  }

  lemma HoleTiled(bs: seq<Block>, l: nat, r: nat, lo: int, hi: int)
    requires Tiled(bs, lo, hi) && l < r <= |bs|
    ensures Tiled(Hole(bs, l, r), lo, hi)
  {
    hide Tiled;
    Cut(bs, l, r, lo, hi);
    SingleTiled(FreeOver(bs, l, r));
    TiledRange(bs, l, r, [FreeOver(bs, l, r)], lo, hi);
  }

  lemma FreedTiled(bs: seq<Block>, i: nat, lo: int, hi: int)
    requires Tiled(bs, lo, hi) && i < |bs|
    ensures Tiled(Freed(bs, i), lo, hi)
  {
    hide Tiled, Left, Right, Hole;
    HoleTiled(bs, Left(bs, i), Right(bs, i), lo, hi);
  }

  lemma CoalescedHole(a: seq<Block>, c: Block, b: seq<Block>)
    requires Coalesced(a) && Coalesced(b) && (a == [] || a[|a| - 1].used) && (b == [] || b[0].used)
    ensures Coalesced(a + [c] + b)
  {
    CoalescedParts(a, [c]);
    CoalescedParts(a + [c], b);
  }

  /** Taking in the free neighbours leaves no two free blocks side by side. */
  lemma FreedCoalesced(bs: seq<Block>, i: nat)
    requires Coalesced(bs) && i < |bs|
    ensures Coalesced(Freed(bs, i))
  {
    var l, r := Left(bs, i), Right(bs, i);
    assert l > 0 ==> bs[l - 1].used;
    assert r < |bs| ==> bs[r].used;
    hide Left, Right, FreeOver;
    assert bs == bs[..l] + bs[l..] && bs == bs[..r] + bs[r..];
    CoalescedParts(bs[..l], bs[l..]);
    CoalescedParts(bs[..r], bs[r..]);
    hide Coalesced;
    CoalescedHole(bs[..l], FreeOver(bs, l, r), bs[r..]);
  }

  /** Blocks at different addresses are different blocks. */
  lemma Elsewhere(bs: seq<Block>, lo: int, hi: int, i: nat, j: nat)
    requires Tiled(bs, lo, hi) && i < |bs| && j < |bs| && i != j
    ensures bs[i].at != bs[j].at
  {
    if i < j {
      Apart(bs, lo, hi, i, j);
    } else {
      Apart(bs, lo, hi, j, i);
    }
  }

  /** A request changes no block in use: it adds one. */
  lemma SplitLive(bs: seq<Block>, i: nat, u: int)
    requires i < |bs| && !bs[i].used
    ensures Live(Split(bs, i, u)) == Live(bs) + {Block(bs[i].at, u, true)}
  {
    var b := bs[i];
    var n := Halves(b, u);
    assert bs == bs[..i] + [b] + bs[i + 1..];
    LiveParts(bs[..i] + [b], bs[i + 1..]);
    LiveParts(bs[..i], [b]);
    LiveParts(bs[..i] + n, bs[i + 1..]);
    LiveParts(bs[..i], n);
    assert Live([b]) == {};
    assert n[0].used && !n[1].used;
    assert Live(n) == {n[0]};
  }

  lemma LiveOutside(bs: seq<Block>, l: nat, r: nat, i: nat, lo: int, hi: int)
    requires Tiled(bs, lo, hi) && l <= i < r <= |bs| && forall k :: l <= k < r && k != i ==> !bs[k].used
    ensures Live(bs[..l]) + Live(bs[r..]) == Live(bs) - {bs[i]}
  {
    forall b | b in Live(bs) && b != bs[i] ensures b in Live(bs[..l]) + Live(bs[r..]) {
      var k :| 0 <= k < |bs| && bs[k] == b;
      assert k < l ==> bs[..l][k] == b;
      assert k >= r ==> bs[r..][k - r] == b;
    }
    forall b | b in Live(bs[..l]) + Live(bs[r..]) ensures b in Live(bs) && b != bs[i] {
      var k :| 0 <= k < |bs| && k != i && bs[k] == b;
      Elsewhere(bs, lo, hi, k, i);
    }
  }

  /** A hole where at most one block was in use takes that one away. */
  lemma HoleLive(bs: seq<Block>, l: nat, r: nat, i: nat, lo: int, hi: int)
    requires Tiled(bs, lo, hi) && l <= i < r <= |bs| && forall k :: l <= k < r && k != i ==> !bs[k].used
    ensures Live(Hole(bs, l, r)) == Live(bs) - {bs[i]}
  {
    LiveOutside(bs, l, r, i, lo, hi);
    hide FreeOver, Tiled;
    LiveParts(bs[..l] + [FreeOver(bs, l, r)], bs[r..]);
    LiveParts(bs[..l], [FreeOver(bs, l, r)]);
    assert Live([FreeOver(bs, l, r)]) == {};
  }

  /** A release changes no other block in use. */
  lemma FreedLive(bs: seq<Block>, i: nat, lo: int, hi: int)
    requires Tiled(bs, lo, hi) && i < |bs| && bs[i].used
    ensures Live(Freed(bs, i)) == Live(bs) - {bs[i]}
  {
    hide Tiled, Hole, Live;
    HoleLive(bs, Left(bs, i), Right(bs, i), i, lo, hi);
  }

  /** A hole in a hole is the larger hole. */
  lemma HoleInHole(bs: seq<Block>, l: nat, r: nat, l': nat, r': nat)
    requires l' <= l < r <= r' <= |bs|
    ensures Hole(Hole(bs, l, r), l', r' - (r - l) + 1) == Hole(bs, l', r')
  {
    var h, e := Hole(bs, l, r), r' - (r - l) + 1;
    assert h[..l'] == bs[..l'] && h[e..] == bs[r'..];
    assert h[l'].at == bs[l'].at && h[e - 1].End() == bs[r' - 1].End();
  }

  /** Requests are rounded up to whole cells. */
  function Aligned(u: int): int {
    (u + CELL - 1) / CELL * CELL
  }

  predicate IsPerfectFit(u: int, size: int) {
    u == size || size - u < SMALLH + 1
  }

  /** The block a request is served from, or the number of blocks if it fails: the size looked for is a cell. */
  function Fit(bs: seq<Block>, u: int): (k: nat)
    ensures k <= |bs|
  {
    if u + CELL - 1 >= WORD then |bs| else FirstFit(bs, 0, (Aligned(u) + SMALLH) % WORD)
  }

  /** The blocks after a request for u bytes. */
  function Served(bs: seq<Block>, u: int): seq<Block> {
    var k := Fit(bs, u);
    if k == |bs| then bs
    else if IsPerfectFit(Aligned(u), bs[k].size) then Taken(bs, k)
    else Split(bs, k, Aligned(u))
  }

  lemma AlignedUp(u: int)
    ensures u <= Aligned(u) < u + 8 && Aligned(u) % 8 == 0
  {
  }

  /** A request, served or not, keeps the area covered and no two free blocks side by side. */
  lemma ServedKeeps(bs: seq<Block>, u: int, lo: int, hi: int)
    requires Tiled(bs, lo, hi) && Coalesced(bs) && 0 <= u
    ensures Tiled(Served(bs, u), lo, hi) && Coalesced(Served(bs, u))
  {
    hide Tiled, Coalesced, Split, Taken, Aligned;
    AlignedUp(u);
    var k := Fit(bs, u);
    if k < |bs| {
      FirstFitFinds(bs, 0, (Aligned(u) + SMALLH) % WORD);
      TakenKeeps(bs, k, lo, hi);
      if !IsPerfectFit(Aligned(u), bs[k].size) {
        SplitTiled(bs, k, Aligned(u), lo, hi);
        SplitCoalesced(bs, k, Aligned(u));
      }
    }
  }

  /** A request fails exactly if rounding it up leaves the cell, or no free block is larger than the request, in
      whole cells, and a header, as a cell holds their sum. */
  lemma FailsExactly(bs: seq<Block>, u: int)
    requires 0 <= u < 0x1_0000_0000_0000_0000
    ensures Fit(bs, u) == |bs| <==>
              || u > 0xFFFF_FFFF_FFFF_FFF8
              || forall b :: b in bs ==> b.used || b.size <= (Aligned(u) + 32) % 0x1_0000_0000_0000_0000
  {
    FirstFitFinds(bs, 0, (Aligned(u) + SMALLH) % WORD);
    hide Aligned;
    if Fit(bs, u) < |bs| {
      assert bs[Fit(bs, u)] in bs;
    }
  }

  /** Of the requests that succeed, those get the memory they asked for whose size and header together are a
      cell: the others are given a block smaller than they are. */
  lemma GetsWhatItAsked(bs: seq<Block>, u: int, lo: int, hi: int)
    requires Tiled(bs, lo, hi) && 0 < lo && hi <= WORD && 0 <= u && Fit(bs, u) < |bs|
    ensures var k := Fit(bs, u); var b := Served(bs, u)[k];
            && b.at == bs[k].at && b.used && !bs[k].used
            && (b.size >= u <==> Aligned(u) + SMALLH < WORD)
  {
    AlignedUp(u);
    FirstFitFinds(bs, 0, (Aligned(u) + SMALLH) % WORD);
    Bounds(bs, lo, hi, Fit(bs, u));
    hide Tiled, Aligned;
  }

  /** A request that gets what it asked adds one block to those in use and changes none. */
  lemma ServedLive(bs: seq<Block>, u: int)
    requires 0 <= u && Aligned(u) + SMALLH < WORD && Fit(bs, u) < |bs|
    ensures Live(Served(bs, u)) == Live(bs) + {Block(bs[Fit(bs, u)].at, Aligned(u), true)}
  {
    hide Split, Taken, Aligned, Live;
    AlignedUp(u);
    FirstFitFinds(bs, 0, Aligned(u) + SMALLH);
    SplitLive(bs, Fit(bs, u), Aligned(u));
  }

  /** 32 bytes less than 2 to the 64 are given out of a megabyte. */
  lemma HugeRequestServed()
    ensures var b, u := Block(0x8000_0008, 0x10_0000 - BIGH - SMALLH, false), WORD - 32;
            Fit([b], u) == 0 && Served([b], u) == [b.(used := true)] && b.size < u
  {
    var b, u := Block(0x8000_0008, 0x10_0000 - BIGH - SMALLH, false), WORD - 32;
    AlignedUp(u);
    assert FirstFit([b], 0, 0) == 0;
    assert Taken([b], 0) == [b.(used := true)];
  }
}
