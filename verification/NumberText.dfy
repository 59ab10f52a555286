/** Numbers as text: #S in the pictured output buffer, and >NUMBER reading the text back. */
module NumberText {
  import opened Arith

  // A cell holds the numbers below word: 2 to the 32 or to the 64.

  /** A double holds the numbers below this. */
  function Dword(word: nat): (r: nat)
    ensures word > 0 ==> r > 0
  {
    if word > 0 then MulMono(1, word, word); word * word else 0
  }

  const BUFFER: nat := 256
  const END: nat := 255

  /** The character # writes for a remainder. */
  function DigitChar(r: nat): nat {
    if r < 10 then 0x30 + r else if r < 37 then 0x41 + (r - 10) else 0x23
  }

  /** The digits of all bases up to 36. */
  function Digit(d: nat): int
    requires d < 36
  {
    "0123456789ABCDEFGHIJKLMNOPQRSTUVWXYZ"[d] as int
  }

  function SmallDigit(d: nat): int
    requires d < 36
  {
    "0123456789abcdefghijklmnopqrstuvwxyz"[d] as int
  }

  /** The characters # writes, which are digits for the remainders of every base up to 36. */
  lemma DigitWritten(r: nat)
    ensures DigitChar(r) == if r < 36 then Digit(r) else if r == 36 then '[' as int else '#' as int
  {
  }

  lemma SmallDigitIs(d: nat)
    requires d < 36
    ensures SmallDigit(d) == if d < 10 then 0x30 + d else 0x61 + (d - 10)
  {
  }

  /** The value of a character as a digit in the base, or -1. */
  function ToDigit(c: int, base: int): int {
    var d := if c - 0x30 < 0 then -1
             else if c - 0x30 < 10 then c - 0x30
             else if c - 0x41 < 0 then -1
             else if c - 0x41 < 26 then c - 0x41 + 10
             else if c - 0x61 < 0 then -1
             else if c - 0x61 < 26 then c - 0x61 + 10
             else -1;
    if d >= base then -1 else d
  }

  /** A character stands for d exactly if d is below the base and the character is its digit, a letter of either
      case. */
  lemma DigitRead(c: int, base: int, d: nat)
    ensures ToDigit(c, base) == d <==> d < base && d < 36 && (c == Digit(d) || c == SmallDigit(d))
    ensures -1 <= ToDigit(c, base) < 36
  {
    hide Digit, SmallDigit;
    if d < 36 {
      DigitWritten(d);
      SmallDigitIs(d);
    }
  }

  /** The digits of a number, the first one not 0 unless it is the only one. */
  function Text(ud: nat, base: nat): (s: seq<int>)
    requires base >= 2
    ensures s != []
    decreases ud
  {
    Shrinks(ud, base);
    (if ud / base == 0 then [] else Text(ud / base, base)) + [DigitChar(ud % base)]
  }

  lemma Shrinks(ud: nat, base: nat)
    requires base >= 2
    ensures 0 <= ud / base && (ud > 0 ==> ud / base < ud) && 0 <= ud % base < base
  {
    DivModOf(ud, base);
    if ud > 0 {
      MulMono(2, base, ud / base);
      DivNat(ud, base);
      SwapMul(base, ud / base);
    }
  }

  lemma TextIs(ud: nat, base: nat)
    requires base >= 2
    ensures ud / base >= 0 && ud % base >= 0
    ensures Text(ud, base) == (if ud / base == 0 then [] else Text(ud / base, base)) + [DigitChar(ud % base)]
  {
    Shrinks(ud, base);
  }

  /** Every character of the text is the digit for its power of the base, and the first is 0 for 0 only. */
  lemma {:induction false} TextDigits(ud: nat, base: nat, i: nat)
    requires 2 <= base <= 36 && i < |Text(ud, base)|
    ensures DigitAt(Text(ud, base), 0, ud, base, i)
    ensures Text(ud, base)[0] == '0' as int <==> ud == 0
    decreases i, ud
  {
    hide DigitChar;
    Shrinks(ud, base);
    DivModOf(ud, base);
    DivModOf(ud / Pow(base, i), base);
    DigitWritten(ud % base);
    if i > 0 {
      TextDigits(ud / base, base, i - 1);
      DivDiv(ud, base, Pow(base, i - 1));
    } else {
      assert ud / Pow(base, 0) == ud;
      FirstDigit(ud, base);
    }
  }

  lemma {:induction false} FirstDigit(ud: nat, base: nat)
    requires 2 <= base <= 36
    ensures Text(ud, base)[0] == '0' as int <==> ud == 0
    decreases ud
  {
    hide DigitChar;
    Shrinks(ud, base);
    DivModOf(ud, base);
    DigitWritten(ud % base);
    if ud / base != 0 {
      FirstDigit(ud / base, base);
    }
  }

  lemma {:induction false} TextFits(ud: nat, base: nat, k: nat)
    requires base >= 2 && k >= 1 && ud < Pow2(k)
    ensures |Text(ud, base)| <= k
    decreases k
  {
    Shrinks(ud, base);
    Pow2Step(k - 1);
    if ud / base != 0 {
      DivModOf(ud, base);
      MulMono(2, base, ud / base);
      SwapMul(base, ud / base);
      assert k > 1 by {
        Pow2Step(0);
      }
      TextFits(ud / base, base, k - 1);
    }
  }

  /** What stays of a text that grows to the left in a full buffer. */
  function Kept(s: seq<int>): seq<int> {
    if |s| <= END - 1 then s else s[|s| - (END - 1)..]
  }

  /** Losing characters on the way and losing them at the end is the same. */
  lemma KeptAgain(a: seq<int>, c: int, b: seq<int>)
    ensures Kept(a + Kept([c] + b)) == Kept(a + [c] + b)
  {
    assert a + [c] + b == a + ([c] + b);
    var d := [c] + b;
    if |d| > END - 1 {
      assert (a + d)[|a| + |d| - (END - 1)..] == d[|d| - (END - 1)..];
    }
  }

  /** In front of its last n characters t has the digits of ud: the one for the power i of the base is i characters
      from there. */
  ghost predicate HasDigits(t: seq<int>, n: nat, ud: nat, base: nat)
    requires 2 <= base <= 36
  {
    forall i: nat :: i < |t| - n ==> DigitAt(t, n, ud, base, i)
  }

  ghost predicate DigitAt(t: seq<int>, n: nat, ud: nat, base: nat, i: nat)
    requires 2 <= base <= 36 && n + i < |t|
  {
    DivNat(ud, Pow(base, i));
    DivModOf(ud / Pow(base, i), base);
    t[|t| - n - 1 - i] == Digit(ud / Pow(base, i) % base)
  }

  /** Counted from its end, what stays of a text in front of another one is the text. */
  lemma KeptDigits(ud: nat, base: nat, s: seq<int>)
    requires 2 <= base <= 36 && |s| <= END - 1
    ensures HasDigits(Kept(Text(ud, base) + s), |s|, ud, base)
  {
    hide Text, Pow, Digit, DigitAt;
    var text, t := Text(ud, base), Kept(Text(ud, base) + s);
    forall i: nat | i < |t| - |s| ensures DigitAt(t, |s|, ud, base, i) {
      assert t[|t| - |s| - 1 - i] == text[|text| - 1 - i];
      TextDigits(ud, base, i);
      SameDigit(text, 0, t, |s|, ud, base, i);
    }
  }

  lemma SameDigit(s: seq<int>, m: nat, t: seq<int>, n: nat, ud: nat, base: nat, i: nat)
    requires 2 <= base <= 36 && m + i < |s| && n + i < |t| && s[|s| - m - 1 - i] == t[|t| - n - 1 - i]
    ensures DigitAt(s, m, ud, base, i) <==> DigitAt(t, n, ud, base, i)
  {
  }

  lemma NoMore(s: seq<int>)
    ensures [] + s == s && (|s| <= END - 1 ==> Kept(s) == s)
  {
  }

  /** The buffer of 256 bytes: the first holds the position, the text grows down from the end. */
  class PicturedOutput {
    const bytes: array<int>

    ghost predicate Valid()
      reads bytes
    {
      bytes.Length == BUFFER && 0 < bytes[0] <= END
    }

    /** The text so far. */
    ghost function Contents(): seq<int>
      requires Valid()
      reads bytes
    {
      bytes[bytes[0]..END]
    }

    constructor ()
      ensures Valid() && Contents() == [] && fresh(bytes) && bytes.Length == 256
    {
      bytes := new int[BUFFER](_ => 0);
      new;
      bytes[0] := END;
    }

    /** <# */
    method Start()
      requires Valid()
      modifies bytes
      ensures Valid() && Contents() == []
    {
      bytes[0] := END;
    }

    /** HOLD: one character in front of the text; a full buffer stays as it is. */
    method Hold(c: int)
      requires Valid()
      modifies bytes
      ensures Valid() && Contents() == Kept([c] + old(Contents()))
    {
      var position := bytes[0] - 1;
      if position == 0 || position < 0 {
        return;
      }
      bytes[position] := c;
      bytes[0] := position;
    }

    /** # */
    method NumberSign(ud: nat, base: nat) returns (q: nat)
      requires Valid() && base >= 2
      modifies bytes
      ensures Valid() && q == ud / base && Contents() == Kept([DigitChar(ud % base)] + old(Contents()))
    {
      Shrinks(ud, base);
      q := ud / base;
      Hold(DigitChar(ud % base));
    }

    /** #S: if the buffer fills up, the leading digits are lost. */
    method NumberSignS(ud: nat, base: nat)
      requires Valid() && base >= 2
      modifies bytes
      ensures Valid() && Contents() == Kept(Text(ud, base) + old(Contents()))
      ensures base <= 36 ==> HasDigits(Contents(), |old(Contents())|, ud, base)
    {
      if base <= 36 {
        KeptDigits(ud, base, Contents());
      }
      hide Text, DigitChar, Kept, HasDigits;
      Shrinks(ud, base);
      TextIs(ud, base);
      ghost var s0 := Contents();
      var q := NumberSign(ud, base);
      KeptAgain(if q == 0 then [] else Text(q, base), DigitChar(ud % base), s0);
      NoMore(Contents());
      while q != 0
        invariant Valid() && q >= 0
        invariant Kept((if q == 0 then [] else Text(q, base)) + Contents()) == Kept(Text(ud, base) + s0)
        decreases q
      {
        Shrinks(q, base);
        TextIs(q, base);
        KeptAgain(if q / base == 0 then [] else Text(q / base, base), DigitChar(q % base), Contents());
        q := NumberSign(q, base);
      }
      NoMore(Contents());
    }

    /** #> */
    method Finish() returns (start: nat, length: nat)
      requires Valid()
      ensures start + length == 255 && bytes[start..start + length] == Contents()
    {
      start := bytes[0];
      length := END - start;
    }
  }

  /** How many leading characters are digits in the base. */
  function DigitCount(s: seq<int>, base: int): (n: nat)
    ensures n <= |s|
    decreases |s|
  {
    if s == [] || ToDigit(s[0], base) < 0 then 0 else 1 + DigitCount(s[1..], base)
  }

  /** What >NUMBER makes of so many digits: the double number that follows from ud. */
  function Accumulated(ud: nat, s: seq<int>, base: nat, word: nat): (r: nat)
    requires word > 0
    ensures ud < Dword(word) ==> r < Dword(word)
    decreases |s|
  {
    if s == [] then ud
    else
      DivModOf(ud * base + DigitOr0(s[0], base), Dword(word));
      Accumulated((ud * base + DigitOr0(s[0], base)) % Dword(word), s[1..], base, word)
  }

  function DigitOr0(c: int, base: int): nat {
    if ToDigit(c, base) < 0 then 0 else ToDigit(c, base)
  }

  /** A double number from its two cells. */
  function Double(lower: int, upper: int, word: nat): (d: int)
    ensures lower >= 0 && upper >= 0 ==> d >= 0
  {
    if upper >= 0 then MulMono(0, upper, word); upper * word + lower else upper * word + lower
  }

  lemma NatProduct(a: nat, b: nat)
    ensures a * b >= 0
  {
    MulMono(0, a, b);
  }

  lemma Products(lower: int, upper: int, base: int, hi: int, lo: int, word: nat)
    requires base * lower == hi * word + lo
    ensures Double(lower, upper, word) * base == (upper * base + hi) * word + lo
  {
    SwapDist(upper * word, lower, base);
    SwapMul(lower, base);
    SwapMul(upper * word, base);
    MulSwap(base, upper, word);
    MulAssoc(upper, base, word);
    SwapDist(upper * base, hi, word);
  }

  lemma LowProduct(lower: nat, upper: nat, base: nat, p: nat, u: nat, word: nat)
    requires p == base * lower && u == upper * base && word > 0
    ensures p / word >= 0 && 0 <= p % word < word
    ensures Double(lower, upper, word) * base == (u + p / word) * word + p % word
  {
    hide Double;
    DivModOf(p, word);
    DivNat(p, word);
    Products(lower, upper, base, p / word, p % word, word);
  }

  lemma CarryOf(lo: nat, digit: nat, word: nat)
    requires lo < word && digit < word
    ensures var low := (lo + digit) % word; 0 <= low < word && lo + digit == (if low < digit then 1 else 0) * word + low
  {
    if lo + digit >= word {
      DivModUnique(lo + digit, word, 1, lo + digit - word);
    } else {
      ModSmall(lo + digit, word);
    }
  }

  lemma DoubleMod(h: nat, low: nat, word: nat)
    requires low < word
    ensures (h * word + low) % Dword(word) == Double(low, h % word, word)
  {
    var q, r := h / word, h % word;
    DivModOf(h, word);
    MulAssoc(q, word, word);
    SwapDist(q * word, r, word);
    MulMono(r, word - 1, word);
    MulMono(0, r, word);
    SwapDist(word, -1, word);
    DivModUnique(h * word + low, word * word, q, r * word + low);
  }

  /** The step with its products given: u above, hi and lo the halves of the low product. */
  lemma Assembled(u: nat, hi: nat, lo: nat, digit: nat, d: int, word: nat)
    requires lo < word && digit < word && d == (u + hi) * word + lo
    ensures var low := (lo + digit) % word;
            var carry := if low < digit then 1 else 0;
            Double(low, ((u % word + hi) % word + carry) % word, word) == (d + digit) % Dword(word)
  {
    hide Double, Dword;
    CarryOf(lo, digit, word);
    var low := (lo + digit) % word;
    var carry := if low < digit then 1 else 0;
    AddMod(u, hi, word);
    AddMod(u + hi, carry, word);
    SwapDist(u + hi, carry, word);
    DoubleMod(u + hi + carry, low, word);
  }

  /** One step on the two cells: the low products' upper halves and the carry of the digit go into the upper cell. */
  lemma StepOnCells(lower: nat, upper: nat, base: nat, digit: nat, word: nat)
    requires lower < word && upper < word && base < word && digit < word
    ensures var low := (base * lower % word + digit) % word;
            var carry := if low < digit then 1 else 0;
            var high := ((upper * base % word + base * lower / word) % word + carry) % word;
            Double(low, high, word) == (Double(lower, upper, word) * base + digit) % Dword(word)
  {
    hide Double, Dword;
    NatProduct(upper, base);
    NatProduct(base, lower);
    LowProduct(lower, upper, base, base * lower, upper * base, word);
    Assembled(upper * base, base * lower / word, base * lower % word, digit, Double(lower, upper, word) * base, word);
  }

  lemma {:induction false} AccumulatedMore(ud: nat, a: seq<int>, c: int, base: nat, word: nat)
    requires word > 0
    ensures Accumulated(ud, a + [c], base, word)
         == (Accumulated(ud, a, base, word) * base + DigitOr0(c, base)) % Dword(word)
    decreases |a|
  {
    hide Dword, DigitOr0;
    if a == [] {
      assert [c][1..] == [];
    } else {
      assert (a + [c])[0] == a[0] && (a + [c])[1..] == a[1..] + [c];
      DivModOf(ud * base + DigitOr0(a[0], base), Dword(word));
      AccumulatedMore((ud * base + DigitOr0(a[0], base)) % Dword(word), a[1..], c, base, word);
    }
  }

  lemma {:induction false} DigitCountMore(a: seq<int>, b: seq<int>, base: int)
    requires DigitCount(a, base) == |a|
    ensures DigitCount(a + b, base) == |a| + DigitCount(b, base)
    decreases |a|
  {
    if a == [] {
      assert a + b == b;
    } else {
      assert (a + b)[0] == a[0] && (a + b)[1..] == a[1..] + b;
      DigitCountMore(a[1..], b, base);
    }
  }

  lemma DoubleFits(lower: nat, upper: nat, word: nat)
    requires lower < word && upper < word
    ensures 0 <= Double(lower, upper, word) < Dword(word)
  {
    MulMono(upper, word - 1, word);
    SwapDist(word, -1, word);
  }

  /** The accumulator in two cells times the base, and the digit. */
  method MultiplyAdd(lower: nat, upper: nat, base: nat, digit: nat, word: nat) returns (low: nat, high: nat)
    requires lower < word && upper < word && base < word && digit < word
    ensures low < word && high < word
    ensures Double(low, high, word) == (Double(lower, upper, word) * base + digit) % Dword(word)
  {
    hide Double, Dword;
    NatProduct(upper, base);
    NatProduct(base, lower);
    DivNat(base * lower, word);
    StepOnCells(lower, upper, base, digit, word);
    low := base * lower % word;
    high := upper * base % word;
    low := (low + digit) % word;
    var carry := if low < digit then 1 else 0;
    high := (high + base * lower / word) % word;
    high := (high + carry) % word;
  }

  lemma DigitBelow(c: int, base: nat)
    ensures ToDigit(c, base) < base
  {
  }

  /** >NUMBER: the number found so far as two cells, and the characters not used. */
  method ToNumber(lower0: nat, upper0: nat, s: seq<int>, base: nat, word: nat)
    returns (lower: nat, upper: nat, rest: seq<int>)
    requires lower0 < word && upper0 < word && base < word
    ensures lower < word && upper < word && rest == s[DigitCount(s, base)..]
    ensures Double(lower0, upper0, word) >= 0
    ensures Double(lower, upper, word)
         == Accumulated(Double(lower0, upper0, word), s[..DigitCount(s, base)], base, word)
  {
    hide Double, Dword, ToDigit, Accumulated;
    ghost var ud := Double(lower0, upper0, word);
    NothingRead(ud, s, base, word);
    lower, upper := lower0, upper0;
    var i := 0;
    while i != |s|
      invariant 0 <= i <= |s| && lower < word && upper < word
      invariant DigitCount(s[..i], base) == i
      invariant Double(lower, upper, word) == Accumulated(ud, s[..i], base, word)
      decreases |s| - i
    {
      var digit := ToDigit(s[i], base);
      if digit < 0 {
        break;
      }
      DigitBelow(s[i], base);
      assert s[..i + 1] == s[..i] + [s[i]];
      DigitCountMore(s[..i], [s[i]], base);
      AccumulatedMore(ud, s[..i], s[i], base, word);
      lower, upper := MultiplyAdd(lower, upper, base, digit, word);
      i := i + 1;
    }
    assert s == s[..i] + s[i..];
    DigitCountMore(s[..i], s[i..], base);
    rest := s[i..];
  }

  lemma NothingRead(ud: nat, s: seq<int>, base: nat, word: nat)
    requires word > 0
    ensures Accumulated(ud, s[..0], base, word) == ud
  {
  }

  /** The characters # writes are those >NUMBER reads, and mean the same. */
  lemma DigitOfChar(r: nat, base: nat)
    requires r < base <= 36
    ensures ToDigit(DigitChar(r), base) == r
  {
  }

  /** What #S writes, >NUMBER reads back: the whole text, and the number it was written from. */
  lemma {:induction false} ReadsBack(ud: nat, base: nat, word: nat)
    requires 2 <= base <= 36 && word > 0 && ud < Dword(word)
    ensures DigitCount(Text(ud, base), base) == |Text(ud, base)|
    ensures Accumulated(0, Text(ud, base), base, word) == ud
    decreases ud
  {
    hide Dword;
    Shrinks(ud, base);
    var c, front := DigitChar(ud % base), if ud / base == 0 then [] else Text(ud / base, base);
    DigitOfChar(ud % base, base);
    if ud / base != 0 {
      ReadsBack(ud / base, base, word);
    }
    assert [c][1..] == [];
    DigitCountMore(front, [c], base);
    AccumulatedMore(0, front, c, base, word);
    DivModOf(ud, base);
    ModSmall(ud, Dword(word));
  }

  lemma SameCells(lower: nat, upper: nat, lower': nat, upper': nat, word: nat)
    requires lower < word && lower' < word && Double(lower, upper, word) == Double(lower', upper', word)
    ensures lower == lower' && upper == upper'
  {
    DivModUnique(Double(lower, upper, word), word, upper, lower);
    DivModUnique(Double(lower, upper, word), word, upper', lower');
  }

  /** A double of two cells with so many bits has at most twice as many digits. */
  lemma DoubleDigits(ud: nat, base: nat, bits: nat)
    requires base >= 2 && bits >= 1 && ud < Dword(Pow2(bits))
    ensures |Text(ud, base)| <= 2 * bits
  {
    Pow2Square(bits, Pow2(bits));
    TextFits(ud, base, 2 * bits);
  }

  /** A number written to the empty buffer and read again, with cells of 32 or 64 bits. */
  method WriteAndRead(out: PicturedOutput, lower0: nat, upper0: nat, base: nat, bits: nat)
    returns (lower: nat, upper: nat, rest: seq<int>)
    requires out.Valid() && (bits == 32 || bits == 64) && 2 <= base <= 36
    requires lower0 < Pow2(bits) && upper0 < Pow2(bits)
    modifies out.bytes
    ensures lower == lower0 && upper == upper0 && rest == []
  {
    Pow2Of64();
    hide Double, Dword, DigitCount, Accumulated, Text, ToDigit, Pow2;
    var word := Pow2(bits);
    DoubleFits(lower0, upper0, word);
    var ud := Double(lower0, upper0, word);
    ZeroDouble(word);
    DoubleDigits(ud, base, bits);
    ReadsBack(ud, base, word);
    out.Start();
    out.NumberSignS(ud, base);
    var start, length := out.Finish();
    var s := out.bytes[start..start + length];
    assert Text(ud, base) + [] == Text(ud, base);
    assert s == Text(ud, base) && s[..|s|] == s;
    lower, upper, rest := ToNumber(0, 0, s, base, word);
    SameCells(lower, upper, lower0, upper0, word);
  }

  lemma ZeroDouble(word: nat)
    ensures Double(0, 0, word) == 0
  {
    ZeroMul(word);
  }
}
