// M*/ : a double times a cell over a cell, through a triple-cell product (double/M_star_slash.c).
module MStarSlash {
  import opened Arith
  import opened Digits
  import opened BigBits
  import opened BigMul
  import opened BigDiv

  type Byte = b: int | 0 <= b < 0x100

  /** The number a string of bytes stands for, most significant byte first. */
  function BigEndian(s: seq<Byte>): nat {
    if s == [] then 0 else BigEndian(s[..|s| - 1]) * 0x100 + s[|s| - 1]
  }

  /** The n bytes of v as they lie in memory once a cell has been byte-swapped. */
  function BytesOf(v: nat, n: nat): (s: seq<Byte>)
    ensures |s| == n
  {
    if n == 0 then [] else BytesOf(v / 0x100, n - 1) + [v % 0x100]
  }

  lemma {:induction false} BytesValue(v: nat, n: nat)
    requires v < Pow(0x100, n)
    ensures BigEndian(BytesOf(v, n)) == v
  {
    if n > 0 {
      BytesValue(v / 0x100, n - 1);
      assert BytesOf(v, n)[..n - 1] == BytesOf(v / 0x100, n - 1);
    }
  }

  /** Sets x from a string of bytes, most significant byte first. */
  method RawImport(x: array<Dig>, bits: seq<Byte>)
    requires |bits| == 2 * x.Length
    modifies x
    ensures Val(x[..]) == BigEndian(bits)
  {
    var i, k := x.Length, 0;
    assert bits[..0] == [];
    while i > 0
      invariant 0 <= i <= x.Length && k == 2 * (x.Length - i)
      invariant Val(x[i..]) == BigEndian(bits[..k])
      decreases i
    {
      i := i - 1;
      ghost var done: seq<int> := x[i + 1..];
      TwoBytes(bits, k);
      x[i] := BitOr(bits[k] as int * 0x100, bits[k + 1]);
      assert x[i..] == [x[i]] + done;
      HighDigits([x[i]] + done, 0);
      assert ([x[i]] + done)[1..] == done && ([x[i]] + done)[0..] == [x[i]] + done;
      k := k + 2;
    }
    assert x[0..] == x[..] && bits[..k] == bits;
  }

  lemma TwoBytes(s: seq<Byte>, k: nat)
    requires k + 2 <= |s|
    ensures BitOr(s[k] as int * 0x100, s[k + 1]) == s[k] as int * 0x100 + s[k + 1] < BASE
    ensures BigEndian(s[..k + 2]) == BigEndian(s[..k]) * BASE + (s[k] as int * 0x100 + s[k + 1])
  {
    assert Pow2(8) == 0x100;
    OrDisjoint(s[k] as int * 0x100, s[k + 1], 8);
    assert s[..k + 2][..k + 1] == s[..k + 1] && s[..k + 1][..k] == s[..k];
  }

  /** The bytes of x, most significant byte first. */
  method RawExport(x: array<Dig>) returns (bits: seq<Byte>)
    ensures |bits| == 2 * x.Length && BigEndian(bits) == Val(x[..])
  {
    bits := [];
    var i := x.Length;
    while i > 0
      invariant 0 <= i <= x.Length && |bits| == 2 * (x.Length - i)
      invariant BigEndian(bits) == Val(x[i..])
      decreases i
    {
      i := i - 1;
      HighDigits(x[..], i);
      assert x[..][i..] == x[i..] && x[..][i + 1..] == x[i + 1..];
      ghost var before := bits;
      bits := bits + [x[i] / 0x100, x[i] % 0x100];
      assert bits[..|bits| - 1][..|before|] == before;
    }
    assert x[0..] == x[..];
  }

  /** The magnitude of a number. */
  function Abs(v: int): nat {
    if v < 0 then -v else v
  }

  function Quotient(a: nat, d: nat): (r: nat)
  {
    if d == 0 then 0 else DivNat(a, d); a / d
  }

  /** The magnitude of the lowest double of cells with the given number of digits. */
  function HalfDouble(digits: nat): (r: int)
    requires digits > 0
    ensures r > 0
  {
    Pow2(32 * digits - 1)
  }

  /** The magnitude of the lowest cell. */
  function HalfCell(digits: nat): (r: int)
    requires digits > 0
    ensures r > 0
  {
    Pow2(16 * digits - 1)
  }

  /** The lowest cell and double of 32-bit cells, and the lowest cell of 64-bit ones. */
  lemma LowestCells()
    ensures HalfCell(2) == 0x8000_0000 && HalfDouble(2) == HalfCell(4) == 0x8000_0000_0000_0000
  {
    Pow2Of64();
    hide Pow2;
    Pow2Step(31);
    Pow2Step(63);
  }

  /** What the word returns for every input, with cells of the given number of digits: the quotient of the
      magnitudes cut to one bit less than a double; for operands of different sign negated, where zero
      stands for the lowest double. */
  function Result(u: int, n: int, d: nat, digits: nat): int
    requires digits > 0
  {
    var half := HalfDouble(digits);
    var q: int := Quotient(Abs(u) * Abs(n), d) % half;
    if (u < 0) == (n < 0) then q
    else if q == 0 && u != 0 && n != 0 then -half
    else -q
  }

  /** Division that rounds towards zero. */
  function Truncated(p: int, d: int): int
    requires d > 0
  {
    if p >= 0 then p / d else -(-p / d)
  }

  /** Every quotient that fits a double is right, the lowest one included, except that a negative product
      smaller than the divisor gives the lowest double instead of zero. */
  lemma ResultExact(u: int, n: int, d: nat, digits: nat)
    requires digits > 0 && d > 0
    requires var t, half := Truncated(u * n, d), HalfDouble(digits); -half <= t < half
    ensures Result(u, n, d, digits) == Truncated(u * n, d) <==> !(u * n < 0 && u * n + d > 0)
  {
    var half, a := HalfDouble(digits), Abs(u) * Abs(n);
    SignOfProduct(u, n);
    DivModOf(a, d);
    DivNat(a, d);
    var q := a / d;
    assert u * n < 0 ==> Truncated(u * n, d) == -q;
    if q < half {
      ModSmall(q, half);
    } else {
      DivModUnique(q, half, 1, 0);
    }
    if a < d {
      ModSmall(a, d);
    } else {
      DivMono(d, a, d);
    }
  }

  lemma SignOfProduct(u: int, n: int)
    ensures u * n == if (u < 0) == (n < 0) then Abs(u) * Abs(n) else -(Abs(u) * Abs(n))
    ensures Abs(u) * Abs(n) > 0 <==> u != 0 && n != 0
    ensures Abs(u) * Abs(n) >= 0
  {
    NegMul(u, n);
    NegMul(n, u);
    SwapMul(u, n);
    if u != 0 && n != 0 {
      MulMonoStrict(0, Abs(u), Abs(n));
    }
  }

  /** -1 times 1 over 2 is not zero. */
  lemma NegativeFraction()
    ensures Truncated(-1 * 1, 2) == 0 && Result(-1, 1, 2, 2) == -HalfDouble(2)
  {
    ModSmall(0, HalfDouble(2));
  }

  /** Shifting left and right again within a double clears its top bit. */
  lemma TopBitCleared(v: nat, digits: nat)
    requires digits > 0
    ensures v * 2 % W(2 * digits) / 2 == v % HalfDouble(digits)
  {
    WBits(2 * digits);
    var half := HalfDouble(digits);
    Pow2Step(32 * digits - 1);
    DivModOf(v, half);
    MulSwap(2, v / half, half);
    DivModUnique(v * 2, 2 * half, v / half, 2 * (v % half));
  }

  lemma Magnitudes(u: int, n: int, digits: nat)
    requires digits > 0 && -HalfDouble(digits) <= u < HalfDouble(digits)
    requires -HalfCell(digits) <= n < HalfCell(digits)
    ensures Abs(u) < W(2 * digits) && Abs(n) < W(digits) && Abs(u) * Abs(n) < W(3 * digits)
  {
    WBits(digits);
    WBits(2 * digits);
    Pow2Step(16 * digits - 1);
    Pow2Step(32 * digits - 1);
    WAdd(2 * digits, digits);
    var wu, wn := W(2 * digits), W(digits);
    MulMono(Abs(u), wu, Abs(n));
    MulMonoStrict(Abs(n), wn, wu);
    SwapMul(wu, Abs(n));
    SwapMul(wu, wn);
  }

  lemma ByteWeights(k: nat)
    ensures W(k) == Pow(0x100, 2 * k)
  {
    PowPow(0x100, 2, k);
    assert Pow(0x100, 2) == 0x100 * Pow(0x100, 1) == 0x100 * (0x100 * Pow(0x100, 0));
  }

  /** A byte-swapped number read into a fresh vector. */
  method Imported(v: nat, digits: nat) returns (x: array<Dig>)
    requires v < W(digits)
    ensures fresh(x) && x.Length == digits && Val(x[..]) == v
  {
    ByteWeights(digits);
    BytesValue(v, 2 * digits);
    x := new Dig[digits];
    RawImport(x, BytesOf(v, 2 * digits));
  }

  /** The magnitudes multiplied and divided, and the quotient cut to a double. */
  method Scaled(h: DigitHeap, u: nat, n: nat, d: nat, digits: nat) returns (q: nat)
    requires digits == 2 || digits == 4
    requires u < W(2 * digits) && n < W(digits) && 0 <= u * n < W(3 * digits) && d < W(digits)
    requires h.pos + 6 * digits + 2 <= HEAP_SIZE
    modifies h
    ensures h.pos == old(h.pos)
    ensures q == Quotient(u * n, d) % W(2 * digits)
  {
    hide Val, W;
    var dv := Imported(d, digits);
    var nv := Imported(n, digits);
    var uv := Imported(u, 2 * digits);
    var tv := new Dig[3 * digits];
    WMono(2 * digits, 3 * digits);
    ModSmall(u, W(3 * digits));
    ModSmall(u * n, W(3 * digits));
    SetBignum(tv, uv);
    Mul(tv, nv);
    Div(h, tv, dv, null);
    SetBignum(uv, tv);
    var bits := RawExport(uv);
    q := BigEndian(bits);
  }

  // M*/ on cells of two (RV32) or four (RV64) digits.
  method MStarSlash(h: DigitHeap, u: int, n: int, d: nat, digits: nat) returns (q: int)
    requires digits == 2 || digits == 4
    requires -HalfDouble(digits) <= u < HalfDouble(digits)
    requires -HalfCell(digits) <= n < HalfCell(digits) && d < W(digits)
    requires h.pos + 6 * digits + 2 <= HEAP_SIZE
    modifies h
    ensures h.pos == old(h.pos)
    ensures q == Result(u, n, d, digits)
  {
    hide Val, W, Quotient, HalfDouble, HalfCell;
    Magnitudes(u, n, digits);
    SignOfProduct(u, n);
    var nn, un, n', u' := 0, 0, n, u;
    if n < 0 {
      n' := -n;
      nn := -1;
    }
    if u < 0 {
      u' := -u;
      un := -1;
    }
    q := Scaled(h, u', n', d, digits);
    ExportedBits(Quotient(u' * n', d), digits);
    q := q * 2 % W(2 * digits) / 2;
    if un != nn {
      q := -q;
    }
    if un != nn && q == 0 && u' != 0 && n' != 0 {
      q := -HalfDouble(digits);
    }
  }

  /** Cutting to a double and then clearing its top bit. */
  lemma ExportedBits(v: nat, digits: nat)
    requires digits > 0
    ensures v % W(2 * digits) * 2 % W(2 * digits) / 2 == v % HalfDouble(digits)
  {
    WBits(2 * digits);
    Pow2Step(32 * digits - 1);
    var half := HalfDouble(digits);
    TopBitCleared(v % W(2 * digits), digits);
    SwapMul(2, half);
    ModMod(v, half, 2);
  }
}
