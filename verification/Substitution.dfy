/** SUBSTITUTE and UNESCAPE: names between percent signs replaced in one pass over the text. */
module Substitution {
  import opened Wrappers

  const PERCENT: int := '%' as int

  /** The replacements: what SEARCH-WORDLIST finds for a name. */
  type Names = seq<int> -> Option<seq<int>>

  /** A text and how many names in it were replaced. */
  datatype Result = Result(text: seq<int>, count: nat)

  /** The first percent sign from i on, or the length. */
  function Find(s: seq<int>, i: nat): (k: nat)
    requires i <= |s|
    ensures i <= k <= |s| && (k < |s| ==> s[k] == PERCENT) && (forall j :: i <= j < k ==> s[j] != PERCENT)
    decreases |s| - i
  {
    if i == |s| || s[i] == PERCENT then i else Find(s, i + 1)
  }

  /** What stands for a name and its two percent signs: one percent sign if there is no name, the replacement if
      it is known, and otherwise the name as it was. */
  function Expansion(name: seq<int>, names: Names): Result {
    if name == [] then Result([PERCENT], 0)
    else match names(name)
         case Some(text) => Result(text, 1)
         case None => Result([PERCENT] + name + [PERCENT], 0)
  }

  function Before(a: Result, b: Result): Result {
    Result(a.text + b.text, a.count + b.count)
  }

  /** The text with all names replaced; replacements are not looked at again, and a percent sign without a
      partner stays with all that follows it. */
  function Replaced(s: seq<int>, names: Names): Result
    decreases |s|
  {
    if s == [] then Result([], 0)
    else if s[0] != PERCENT then Before(Result([s[0]], 0), Replaced(s[1..], names))
    else
      var k := Find(s, 1);
      if k == |s| then Result(s, 0)
      else Before(Expansion(s[1..k], names), Replaced(s[k + 1..], names))
  }

  /** The scanner: what it has written and counted, and the name it is in the middle of. */
  datatype Scan = Scan(done: Result, inName: bool, name: seq<int>)

  function Next(t: Scan, c: int, names: Names): Scan {
    if t.inName then
      if c == PERCENT then Scan(Before(t.done, Expansion(t.name, names)), false, [])
      else t.(name := t.name + [c])
    else
      if c == PERCENT then t.(inName := true, name := [])
      else t.(done := Before(t.done, Result([c], 0)))
  }

  function ScanFrom(t: Scan, s: seq<int>, names: Names): Scan
    decreases |s|
  {
    if s == [] then t else ScanFrom(Next(t, s[0], names), s[1..], names)
  }

  /** At the end of the text an unfinished name is written as it was. */
  function Finished(t: Scan): Result {
    if t.inName then Before(t.done, Result([PERCENT] + t.name, 0)) else t.done
  }

  const START := Scan(Result([], 0), false, [])

  lemma FindIn(p: seq<int>, s: seq<int>)
    requires PERCENT !in p
    ensures Find([PERCENT] + p, 1) == |p| + 1
    ensures s != [] && s[0] == PERCENT ==> Find([PERCENT] + p + s, 1) == |p| + 1
  {
    var a, b := [PERCENT] + p, [PERCENT] + p + s;
    assert forall j :: 1 <= j < |a| ==> a[j] == p[j - 1];
    assert forall j :: 1 <= j < |a| ==> b[j] == p[j - 1];
    assert s != [] ==> b[|p| + 1] == s[0];
  }

  lemma BeforeBefore(a: Result, b: Result, c: Result)
    ensures Before(Before(a, b), c) == Before(a, Before(b, c))
  {
  }

  /** A name closed by a percent sign. */
  lemma CloseName(name: seq<int>, rest: seq<int>, names: Names)
    requires PERCENT !in name
    ensures Replaced([PERCENT] + name + ([PERCENT] + rest), names)
         == Before(Expansion(name, names), Replaced(rest, names))
  {
    var whole := [PERCENT] + name + ([PERCENT] + rest);
    FindIn(name, [PERCENT] + rest);
    assert whole[1..|name| + 1] == name && whole[|name| + 2..] == rest;
    hide Expansion;
  }

  lemma OpenName(name: seq<int>, names: Names)
    requires PERCENT !in name
    ensures Replaced([PERCENT] + name, names) == Result([PERCENT] + name, 0)
  {
    FindIn(name, []);
  }

  lemma PlainCharacter(c: int, rest: seq<int>, names: Names)
    requires c != PERCENT
    ensures Replaced([c] + rest, names) == Before(Result([c], 0), Replaced(rest, names))
  {
    assert ([c] + rest)[1..] == rest;
  }

  /** A name between percent signs is replaced and counted if it is known, and else left as it was; two percent signs
      are one. */
  lemma NameReplaced(name: seq<int>, names: Names)
    requires '%' as int !in name
    ensures Replaced(['%' as int] + name + ['%' as int], names)
         == if name == [] then Result(['%' as int], 0)
            else if names(name).Some? then Result(names(name).value, 1)
            else Result(['%' as int] + name + ['%' as int], 0)
  {
    CloseName(name, [], names);
    assert [PERCENT] + name + ([PERCENT] + []) == ['%' as int] + name + ['%' as int];
  }

  /** What the scanner still has to do, as a text to be replaced. */
  function Pending(t: Scan, s: seq<int>): seq<int> {
    if t.inName then [PERCENT] + t.name + s else s
  }

  lemma PendingStep(t: Scan, c: int, rest: seq<int>, names: Names)
    requires PERCENT !in t.name
    ensures var t' := Next(t, c, names);
            && PERCENT !in t'.name
            && Before(t'.done, Replaced(Pending(t', rest), names))
               == Before(t.done, Replaced(Pending(t, [c] + rest), names))
  {
    var t' := Next(t, c, names);
    if t.inName && c == PERCENT {
      CloseName(t.name, rest, names);
      hide Replaced, Expansion;
      BeforeBefore(t.done, Expansion(t.name, names), Replaced(rest, names));
    } else if t.inName {
      assert [PERCENT] + t.name + ([c] + rest) == [PERCENT] + (t.name + [c]) + rest;
    } else if c == PERCENT {
      assert [PERCENT] + [] + rest == [c] + rest;
    } else {
      PlainCharacter(c, rest, names);
      hide Replaced;
      BeforeBefore(t.done, Result([c], 0), Replaced(rest, names));
    }
  }

  /** From any state the scanner ends with what it had written and the rest replaced. */
  lemma {:induction false} ScanReplaces(t: Scan, s: seq<int>, names: Names)
    requires PERCENT !in t.name
    ensures Finished(ScanFrom(t, s, names)) == Before(t.done, Replaced(Pending(t, s), names))
    decreases |s|
  {
    if s == [] {
      OpenName(t.name, names);
      assert [PERCENT] + t.name + [] == [PERCENT] + t.name;
    } else {
      hide Replaced, Next;
      PendingStep(t, s[0], s[1..], names);
      assert [s[0]] + s[1..] == s;
      ScanReplaces(Next(t, s[0], names), s[1..], names);
    }
  }

  lemma {:induction false} ScanMore(t: Scan, s: seq<int>, c: int, names: Names)
    ensures ScanFrom(t, s + [c], names) == Next(ScanFrom(t, s, names), c, names)
    decreases |s|
  {
    if s == [] {
      assert [c][1..] == [];
    } else {
      assert (s + [c])[0] == s[0] && (s + [c])[1..] == s[1..] + [c];
      ScanMore(Next(t, s[0], names), s[1..], c, names);
    }
  }

  /** What has been written stays. */
  lemma {:induction false} ScanGrows(t: Scan, s: seq<int>, names: Names)
    ensures |t.done.text| <= |ScanFrom(t, s, names).done.text|
    decreases |s|
  {
    if s != [] {
      ScanGrows(Next(t, s[0], names), s[1..], names);
    }
  }

  lemma {:induction false} ScanSplit(t: Scan, a: seq<int>, b: seq<int>, names: Names)
    ensures ScanFrom(t, a + b, names) == ScanFrom(ScanFrom(t, a, names), b, names)
    decreases |a|
  {
    if a == [] {
      assert a + b == b;
    } else {
      assert (a + b)[0] == a[0] && (a + b)[1..] == a[1..] + b;
      ScanSplit(Next(t, a[0], names), a[1..], b, names);
    }
  }

  /** The text is substituted into so much room: the result must fit, and there must be room left when the last
      character is looked at. */
  predicate Fits(s: seq<int>, names: Names, room: nat) {
    && |Replaced(s, names).text| <= room
    && (s != [] ==> |ScanFrom(START, s[..|s| - 1], names).done.text| < room)
  }

  lemma ScanPrefix(s: seq<int>, i: nat, k: nat, names: Names)
    requires i <= k <= |s|
    ensures |ScanFrom(START, s[..i], names).done.text| <= |ScanFrom(START, s[..k], names).done.text|
  {
    assert s[..k] == s[..i] + s[i..k];
    ScanSplit(START, s[..i], s[i..k], names);
    ScanGrows(ScanFrom(START, s[..i], names), s[i..k], names);
  }

  lemma ScanStep(s: seq<int>, i: nat, names: Names)
    requires i < |s|
    ensures ScanFrom(START, s[..i + 1], names) == Next(ScanFrom(START, s[..i], names), s[i], names)
  {
    assert s[..i + 1] == s[..i] + [s[i]];
    ScanMore(START, s[..i], s[i], names);
  }

  lemma ScanIsReplaced(s: seq<int>, names: Names)
    ensures Finished(ScanFrom(START, s, names)) == Replaced(s, names)
    ensures |ScanFrom(START, s, names).done.text| <= |Replaced(s, names).text|
  {
    ScanReplaces(START, s, names);
  }

  /** More written than there is room for, or the room used up before the end, and it does not fit. */
  lemma FailsAt(s: seq<int>, i: nat, names: Names, room: nat)
    requires i <= |s|
    requires var n := |ScanFrom(START, s[..i], names).done.text|; n > room || (n == room && i < |s|)
    ensures !Fits(s, names, room)
  {
    hide ScanFrom, Replaced;
    if i < |s| {
      ScanPrefix(s, i, |s| - 1, names);
    } else {
      assert s[..i] == s;
      ScanIsReplaced(s, names);
    }
  }

  /** With room to spare every text fits. */
  lemma RoomToSpare(s: seq<int>, names: Names, room: nat)
    requires |Replaced(s, names).text| < room
    ensures Fits(s, names, room)
  {
    hide ScanFrom, Replaced;
    ScanIsReplaced(s, names);
    if s != [] {
      assert s[..|s|] == s;
      ScanPrefix(s, |s| - 1, |s|, names);
    }
  }

  /** The text ends with a name that is replaced by nothing. */
  ghost predicate EndsWithNothing(s: seq<int>, names: Names)
    requires s != []
  {
    var t := ScanFrom(START, s[..|s| - 1], names);
    t.inName && s[|s| - 1] == PERCENT && Expansion(t.name, names).text == []
  }

  /** A result that fits is refused if and only if it fills the room and the text ends with a name replaced by
      nothing. */
  lemma RefusedExactly(s: seq<int>, names: Names, room: nat)
    requires s != [] && |Replaced(s, names).text| <= room
    ensures !Fits(s, names, room) <==> |Replaced(s, names).text| == room && EndsWithNothing(s, names)
  {
    var n := |s| - 1;
    ScanStep(s, n, names);
    assert s[..n + 1] == s;
    ScanIsReplaced(s, names);
    hide ScanFrom, Replaced, Expansion;
  }

  /** A text whose result fits does not fit if the room is used up while there is text left: here an empty
      replacement and no room at all. */
  lemma NothingDoesNotFit()
    ensures var s, names := [PERCENT, 0x41, PERCENT], (_ => Some([]));
            Replaced(s, names) == Result([], 1) && !Fits(s, names, 0)
  {
    var s, names: Names := [PERCENT, 0x41, PERCENT], _ => Some([]);
    CloseName([0x41], [], names);
    assert [PERCENT] + [0x41] + ([PERCENT] + []) == s;
  }

  /** The destination, filled from the front. */
  class Destination {
    const bytes: array<int>
    var used: nat

    ghost predicate Valid()
      reads this
    {
      used <= bytes.Length
    }

    ghost function Written(): seq<int>
      requires Valid()
      reads this, bytes
    {
      bytes[..used]
    }

    constructor (bytes: array<int>)
      ensures this.bytes == bytes && Valid() && Written() == []
    {
      this.bytes := bytes;
      used := 0;
    }

    /** S-APPEND */
    method Append(text: seq<int>) returns (ok: bool)
      requires Valid()
      modifies this, bytes
      ensures Valid() && ok == (old(used) + |text| <= bytes.Length)
      ensures Written() == if ok then old(Written()) + text else old(Written())
    {
      if |text| > bytes.Length - used {
        return false;
      }
      for k := 0 to |text|
        invariant used == old(used) && bytes[..used] == old(bytes[..used]) && bytes[used..used + k] == text[..k]
      {
        bytes[used + k] := text[k];
      }
      used := used + |text|;
      assert text[..|text|] == text;
      return true;
    }

    /** A name between its percent signs. */
    method Expand(name: seq<int>, names: Names) returns (ok: bool, found: nat)
      requires Valid()
      modifies this, bytes
      ensures Valid() && ok == (old(used) + |Expansion(name, names).text| <= bytes.Length)
      ensures ok ==> Written() == old(Written()) + Expansion(name, names).text && found == Expansion(name, names).count
    {
      found := 0;
      if name != [] {
        match names(name)
        case Some(text) =>
          found := 1;
          ok := Append(text);
        case None =>
          ok := Append([PERCENT]);
          if ok {
            ok := Append(name);
          }
          if ok {
            ok := Append([PERCENT]);
          }
      } else {
        ok := Append([PERCENT]);
      }
    }

    /** SUBSTITUTE0 */
    method Substitute0(src: seq<int>, names: Names) returns (ok: bool, count: nat)
      requires Valid() && used == 0
      modifies this, bytes
      ensures Valid() && ok == Fits(src, names, bytes.Length)
      ensures ok ==> Result(Written(), count) == Replaced(src, names)
    {
      hide ScanFrom, Replaced, Fits, Expansion;
      var i, inName, start := 0, false, 0;
      count := 0;
      ScanNothing(src, names);
      while used != bytes.Length && i != |src|
        invariant Valid() && 0 <= start <= i <= |src|
        invariant ScanFrom(START, src[..i], names)
               == Scan(Result(Written(), count), inName, if inName then src[start..i] else [])
        invariant i > 0 ==> |ScanFrom(START, src[..i - 1], names).done.text| < bytes.Length
        decreases |src| - i
      {
        ScanStep(src, i, names);
        var c := src[i];
        if inName {
          if c == PERCENT {
            var found;
            ok, found := Expand(src[start..i], names);
            if !ok {
              FailsAt(src, i + 1, names, bytes.Length);
              return;
            }
            count := count + found;
            inName, start := false, 0;
          }
        } else {
          if c == PERCENT {
            inName, start := true, i + 1;
          } else {
            bytes[used] := c;
            used := used + 1;
          }
        }
        i := i + 1;
      }
      if i != |src| {
        FailsAt(src, i, names, bytes.Length);
        return false, 0;
      }
      assert src[..i] == src;
      ok := Finish(src, names, inName, src[start..], count);
    }

    /** At the end a name without its second percent sign is written as it was. */
    method Finish(src: seq<int>, names: Names, inName: bool, name: seq<int>, count: nat) returns (ok: bool)
      requires Valid()
      requires ScanFrom(START, src, names) == Scan(Result(Written(), count), inName, if inName then name else [])
      requires src != [] ==> |ScanFrom(START, src[..|src| - 1], names).done.text| < bytes.Length
      modifies this, bytes
      ensures Valid() && ok == Fits(src, names, bytes.Length)
      ensures ok ==> Result(Written(), count) == Replaced(src, names)
    {
      hide ScanFrom, Replaced, Fits;
      ScanIsReplaced(src, names);
      FitsIs(src, names, bytes.Length);
      ok := true;
      if inName {
        ok := Append([PERCENT]);
        if ok {
          ok := Append(name);
        }
      }
    }
  }

  lemma ScanNothing(s: seq<int>, names: Names)
    ensures ScanFrom(START, s[..0], names) == START
  {
  }

  lemma FitsIs(s: seq<int>, names: Names, room: nat)
    ensures Fits(s, names, room)
       <==> (|Replaced(s, names).text| <= room && (s != [] ==> |ScanFrom(START, s[..|s| - 1], names).done.text| < room))
  {
  }

  /** SUBSTITUTE: the length and count of the result, or -1 for an exception of any kind. */
  method Substitute(src: seq<int>, bytes: array<int>, names: Names) returns (length: nat, n: int)
    modifies bytes
    ensures if Fits(src, names, bytes.Length)
            then length <= bytes.Length && n >= 0 && Result(bytes[..length], n) == Replaced(src, names)
            else n == -1
  {
    hide Fits, Replaced;
    var destination := new Destination(bytes);
    var ok, count := destination.Substitute0(src, names);
    length := destination.used;
    n := if ok then count else -1;
  }

  /** Every percent sign doubled. */
  function Escaped(s: seq<int>): seq<int>
    decreases |s|
  {
    if s == [] then []
    else Escaped(s[..|s| - 1]) + if s[|s| - 1] == PERCENT then [PERCENT, PERCENT] else [s[|s| - 1]]
  }

  lemma EscapedMore(s: seq<int>, c: int)
    ensures Escaped(s + [c]) == Escaped(s) + if c == PERCENT then [PERCENT, PERCENT] else [c]
  {
    assert (s + [c])[..|s|] == s;
  }

  /** UNESCAPE, into a destination that is large enough. */
  method Unescape(src: seq<int>, bytes: array<int>) returns (length: nat)
    requires |Escaped(src)| <= bytes.Length
    modifies bytes
    ensures length <= bytes.Length && bytes[..length] == Escaped(src)
  {
    hide Escaped;
    length := 0;
    EscapedNothing(src);
    for i := 0 to |src|
      invariant length <= bytes.Length && bytes[..length] == Escaped(src[..i])
    {
      assert src[..i + 1] == src[..i] + [src[i]];
      EscapedMore(src[..i], src[i]);
      EscapedPrefix(src, i + 1);
      if src[i] == PERCENT {
        bytes[length] := PERCENT;
        length := length + 1;
      }
      bytes[length] := src[i];
      length := length + 1;
    }
    assert src[..|src|] == src;
  }

  lemma EscapedNothing(s: seq<int>)
    ensures Escaped(s[..0]) == []
  {
  }

  lemma {:induction false} EscapedPrefix(s: seq<int>, i: nat)
    requires i <= |s|
    ensures |Escaped(s[..i])| <= |Escaped(s)|
    decreases |s| - i
  {
    if i < |s| {
      assert s[..i + 1] == s[..i] + [s[i]];
      EscapedMore(s[..i], s[i]);
      EscapedPrefix(s, i + 1);
    } else {
      assert s[..i] == s;
    }
  }

  /** The scanner takes an escaped text apart into the text. */
  lemma {:induction false} EscapedScans(s: seq<int>, names: Names)
    ensures ScanFrom(START, Escaped(s), names) == Scan(Result(s, 0), false, [])
    decreases |s|
  {
    if s != [] {
      var front, c := s[..|s| - 1], s[|s| - 1];
      EscapedScans(front, names);
      assert s == front + [c];
      EscapedMore(front, c);
      hide Escaped, ScanFrom;
      if c == PERCENT {
        assert Escaped(s) == Escaped(front) + [PERCENT] + [PERCENT];
        ScanMore(START, Escaped(front), PERCENT, names);
        ScanMore(START, Escaped(front) + [PERCENT], PERCENT, names);
      } else {
        ScanMore(START, Escaped(front), c, names);
      }
    }
  }

  lemma EscapedButLast(s: seq<int>, names: Names)
    requires s != []
    ensures var e := Escaped(s); e != [] && |ScanFrom(START, e[..|e| - 1], names).done.text| == |s| - 1
  {
    var front, c := s[..|s| - 1], s[|s| - 1];
    EscapedScans(front, names);
    assert s == front + [c];
    EscapedMore(front, c);
    hide ScanFrom, Escaped;
    if c == PERCENT {
      ScanMore(START, Escaped(front), PERCENT, names);
      assert Escaped(s)[..|Escaped(s)| - 1] == Escaped(front) + [PERCENT];
    } else {
      assert Escaped(s)[..|Escaped(s)| - 1] == Escaped(front);
    }
  }

  /** SUBSTITUTE undoes UNESCAPE, with no replacement, whatever the names, in any room that holds the text. */
  lemma SubstituteUndoesUnescape(s: seq<int>, names: Names, room: nat)
    ensures Replaced(Escaped(s), names) == Result(s, 0)
    ensures Fits(Escaped(s), names, room) <==> |s| <= room
  {
    hide ScanFrom, Replaced, Fits;
    EscapedScans(s, names);
    ScanIsReplaced(Escaped(s), names);
    FitsIs(Escaped(s), names, room);
    if s != [] {
      EscapedButLast(s, names);
    }
  }
}
