/** The block buffer words over their arrays, with the RAM store behind them. */
module BlockBuffers {
  import opened BlockSpec

  const PAGE: nat := 1024

  /** The pages laid out one after the other. */
  function Pages(s: seq<int>, count: nat): (r: seq<Page>)
    requires |s| == count * PAGE
    ensures |r| == count
  {
    seq(count, i requires 0 <= i < count => s[i * PAGE..(i + 1) * PAGE])
  }

  /** The cache the arrays stand for. */
  function Seen(assoc: seq<int>, flags: seq<int>, buffers: seq<int>, last: nat, disk: seq<int>): (c: Cache)
    requires |assoc| == |flags| == BUFFER_COUNT && |buffers| == BUFFER_COUNT * PAGE && |disk| == BLOCK_COUNT * PAGE
    requires last < BUFFER_COUNT
    ensures WellFormed(c)
  {
    Cache(assoc, seq(BUFFER_COUNT, i requires 0 <= i < BUFFER_COUNT => flags[i] != 0),
          Pages(buffers, BUFFER_COUNT), last,
          Pages(disk, BLOCK_COUNT))
  }

  /** One page copied over another. */
  lemma PageMoved(s: seq<int>, s': seq<int>, i: nat, p: Page, count: nat)
    requires |s| == count * PAGE && i < count && |p| == PAGE && s' == s[..i * PAGE] + p + s[(i + 1) * PAGE..]
    ensures Pages(s', count) == Pages(s, count)[i := p]
  {
    forall k | 0 <= k < count ensures Pages(s', count)[k] == Pages(s, count)[i := p][k] {
      if k < i {
        assert s'[k * PAGE..(k + 1) * PAGE] == s[k * PAGE..(k + 1) * PAGE];
      } else if k > i {
        assert s'[k * PAGE..(k + 1) * PAGE] == s[k * PAGE..(k + 1) * PAGE];
      } else {
        assert s'[k * PAGE..(k + 1) * PAGE] == p;
      }
    }
  }

  /** MOVE of a page between two arrays. */
  method Move(src: array<int>, from: nat, dst: array<int>, to: nat)
    requires src != dst && from + PAGE <= src.Length && to + PAGE <= dst.Length
    modifies dst
    ensures dst[..] == old(dst[..])[..to] + src[from..from + 1024] + old(dst[..])[to + 1024..]
  {
    for k := 0 to PAGE
      invariant forall j :: to <= j < to + k ==> dst[j] == src[from + j - to]
      invariant forall j :: 0 <= j < dst.Length && (j < to || j >= to + k) ==> dst[j] == old(dst[j])
    {
      dst[to + k] := src[from + k];
    }
  }

  lemma SavedStep(c: Cache, i: nat, flush: bool)
    requires WellFormed(c) && i < BUFFER_COUNT
    ensures Saved(c, i, flush) == match WrittenBack(c, i)
                                  case Answer(c1, _, _) => Saved(Cleaned(c1, i, flush), i + 1, flush)
                                  case Thrown(c1) => Thrown(c1)
  {
  }

  class BlockBuffers {
    const buffers: array<int>       // BUFFERS
    const assoc: array<int>         // BUFFER-ASSOC
    const flags: array<int>         // BUFFER-FLAGS
    const disk: array<int>          // RAMBLOCKS
    var last: nat                   // BUFFER-I

    ghost predicate Valid()
      reads this`last
    {
      && assoc.Length == flags.Length == BUFFER_COUNT && buffers.Length == BUFFER_COUNT * PAGE
      && disk.Length == BLOCK_COUNT * PAGE && last < BUFFER_COUNT
      && buffers != assoc && buffers != flags && buffers != disk && assoc != flags && assoc != disk && flags != disk
    }

    ghost function State(): (c: Cache)
      requires Valid()
      reads this`last, assoc, flags, buffers, disk
      ensures WellFormed(c)
    {
      Seen(assoc[..], flags[..], buffers[..], last, disk[..])
    }

    /** All buffers are empty; what else is in the arrays is not said. */
    constructor ()
      ensures Valid() && fresh(assoc) && fresh(flags) && fresh(buffers) && fresh(disk)
      ensures buffers.Length == 8 * 1024 && disk.Length == 32 * 1024
      ensures last == 0 && State().assoc == seq(8, _ => 0)
    {
      buffers := new int[BUFFER_COUNT * PAGE];
      assoc := new int[BUFFER_COUNT](_ => 0);
      flags := new int[BUFFER_COUNT];
      disk := new int[BLOCK_COUNT * PAGE];
      last := 0;
    }

    /** BLOCK-WRITE: buffer i to block n. */
    method BlockWrite(n: int, i: nat) returns (ior: int)
      requires Valid() && i < BUFFER_COUNT
      modifies disk
      ensures var c := old(State());
              if 0 <= n < 32 then ior == 0 && State() == c.(disk := c.disk[n := c.pages[i]])
              else ior == -35 && State() == c
    {
      if n < 0 {
        return INVALID_BLOCK;
      }
      if !(n < BLOCK_COUNT) {
        return INVALID_BLOCK;
      }
      Move(buffers, i * PAGE, disk, n * PAGE);
      PageMoved(old(disk[..]), disk[..], n, buffers[i * PAGE..(i + 1) * PAGE], BLOCK_COUNT);
      return 0;
    }

    /** BLOCK-READ: block n into buffer i. */
    method BlockRead(n: int, i: nat) returns (ior: int)
      requires Valid() && i < BUFFER_COUNT
      modifies buffers
      ensures var c := old(State());
              if 0 <= n < 32 then ior == 0 && State() == c.(pages := c.pages[i := c.disk[n]])
              else ior == -35 && State() == c
    {
      if n < 0 {
        return INVALID_BLOCK;
      }
      if !(n < BLOCK_COUNT) {
        return INVALID_BLOCK;
      }
      Move(disk, n * PAGE, buffers, i * PAGE);
      PageMoved(old(buffers[..]), buffers[..], i, disk[n * PAGE..(n + 1) * PAGE], BUFFER_COUNT);
      return 0;
    }

    /** What a word leaves behind: the new state, or that of the exception. */
    ghost predicate Leaves(a: Answer, ior: int)
      requires Valid()
      reads this`last, assoc, flags, buffers, disk
    {
      State() == a.cache && (if a.Answer? then ior == 0 else ior == -35)
    }

    method UpdateBuffer(i: nat) returns (ior: int)
      requires Valid() && i < BUFFER_COUNT
      modifies disk
      ensures Leaves(WrittenBack(old(State()), i), ior)
    {
      if flags[i] != 0 {
        var n := assoc[i];
        if n != 0 {
          ior := BlockWrite(n, i);
          return;
        }
      }
      return 0;
    }

    /** The first buffer that belongs to block n. */
    method Find(n: int) returns (i: nat)
      requires Valid()
      ensures i == IndexOf(assoc[..], n, 0)
    {
      i := 0;
      while i < BUFFER_COUNT
        invariant 0 <= i <= BUFFER_COUNT && IndexOf(assoc[..], n, 0) == IndexOf(assoc[..], n, i)
      {
        if n == assoc[i] {
          return;
        }
        i := i + 1;
      }
    }

    /** Buffer i belongs to block n from now on. */
    method Give(i: nat, n: int)
      requires Valid() && i < BUFFER_COUNT
      modifies assoc, flags, `last
      ensures Valid() && State() == Given(old(State()), i, n)
    {
      assoc[i] := n;
      flags[i] := 0;
      last := i;
    }

    /** The buffer behind the one used last is written back and given to block n. */
    method Evict(n: int) returns (ior: int)
      requires Valid()
      modifies `last, assoc, flags, disk
      ensures Valid() && last == (old(last) + 1) % BUFFER_COUNT
      ensures match WrittenBack(old(State()).(last := last), last)
              case Answer(c, _, _) => ior == 0 && State() == Given(c, last, n)
              case Thrown(c) => ior == INVALID_BLOCK && State() == c
    {
      hide Pages;
      last := last + 1;
      last := last % BUFFER_COUNT;
      ior := UpdateBuffer(last);
      if ior == 0 {
        Give(last, n);
      }
    }

    /** ?BUFFER */
    method QueryBuffer(n: int) returns (index: nat, isNew: bool, ior: int)
      requires Valid()
      modifies `last, assoc, flags, disk
      ensures Valid() && Leaves(Assigned(old(State()), n), ior)
      ensures ior == 0 ==> Assigned(old(State()), n) == Answer(State(), index, isNew)
    {
      hide Pages;
      index := Find(n);
      if index < BUFFER_COUNT {
        last := index;
        return index, false, 0;
      }
      index := Find(0);
      if index < BUFFER_COUNT {
        Give(index, n);
        return index, true, 0;
      }
      ior := Evict(n);
      return last, true, ior;
    }

    method Buffer(n: int) returns (index: nat, ior: int)
      requires Valid()
      modifies `last, assoc, flags, disk
      ensures Valid() && Leaves(Assigned(old(State()), n), ior)
      ensures ior == 0 ==> Assigned(old(State()), n).index == index
    {
      var isNew;
      index, isNew, ior := QueryBuffer(n);
    }

    method Block(n: int) returns (index: nat, ior: int)
      requires Valid()
      modifies `last, assoc, flags, buffers, disk
      ensures Valid() && Leaves(Loaded(old(State()), n), ior)
      ensures ior == 0 ==> Loaded(old(State()), n).index == index
    {
      var isNew;
      index, isNew, ior := QueryBuffer(n);
      if ior != 0 {
        return;
      }
      if isNew {
        ior := BlockRead(n, index);
      }
    }

    /** The program stores into the buffer used last. */
    method Put(offset: nat, x: int)
      requires Valid() && offset < PAGE
      modifies buffers
      ensures var c := old(State()); State() == Stored(c, c.pages[c.last][offset := x])
    {
      ghost var page := buffers[last * PAGE..(last + 1) * PAGE];
      buffers[last * PAGE + offset] := x;
      PageMoved(old(buffers[..]), buffers[..], last, page[offset := x], BUFFER_COUNT);
    }

    method Update()
      requires Valid()
      modifies flags
      ensures State() == Updated(old(State())) && flags[last] == 1
    {
      flags[last] := 1;
    }

    /** A buffer without a block needs no writing. */
    lemma UnassignedStep(i: nat)
      requires Valid() && i < BUFFER_COUNT
      ensures assoc[i] == 0 ==> WrittenBack(State(), i) == Answer(State(), i, false)
    {
    }

    /** Marks buffer i unchanged. */
    method ClearFlag(i: nat)
      requires Valid() && i < BUFFER_COUNT
      modifies flags
      ensures State() == Cleaned(old(State()), i, false)
    {
      hide Pages;
      flags[i] := 0;
    }

    /** Marks buffer i empty and unchanged. */
    method Clear(i: nat)
      requires Valid() && i < BUFFER_COUNT
      modifies assoc, flags
      ensures State() == Cleaned(old(State()), i, true)
    {
      hide Pages;
      assoc[i] := 0;
      flags[i] := 0;
    }

    method Flush() returns (ior: int)
      requires Valid()
      modifies assoc, flags, disk
      ensures Leaves(Saved(old(State()), 0, true), ior)
    {
      hide Pages, Seen, WrittenBack;
      var i := 0;
      while i < BUFFER_COUNT
        invariant 0 <= i <= BUFFER_COUNT && Saved(State(), i, true) == Saved(old(State()), 0, true)
      {
        SavedStep(State(), i, true);
        UnassignedStep(i);
        if assoc[i] != 0 {
          ior := UpdateBuffer(i);
          if ior != 0 {
            return;
          }
        }
        Clear(i);
        i := i + 1;
      }
      ior := 0;
    }

    method SaveBuffers() returns (ior: int)
      requires Valid()
      modifies flags, disk
      ensures Leaves(Saved(old(State()), 0, false), ior)
    {
      hide Pages, Seen, WrittenBack;
      var i := 0;
      while i < BUFFER_COUNT
        invariant 0 <= i <= BUFFER_COUNT && Saved(State(), i, false) == Saved(old(State()), 0, false)
      {
        SavedStep(State(), i, false);
        UnassignedStep(i);
        if assoc[i] != 0 {
          ior := UpdateBuffer(i);
          if ior != 0 {
            return;
          }
        }
        ClearFlag(i);
        i := i + 1;
      }
      ior := 0;
    }

    method EmptyBuffers()
      requires Valid()
      modifies assoc, flags
      ensures State() == Emptied(old(State()))
    {
      var i := 0;
      while i < BUFFER_COUNT
        invariant 0 <= i <= BUFFER_COUNT
        invariant forall j :: 0 <= j < i ==> assoc[j] == 0 && flags[j] == 0
      {
        assoc[i] := 0;
        flags[i] := 0;
        i := i + 1;
      }
    }
  }
}
