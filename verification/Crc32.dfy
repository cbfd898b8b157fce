/** CRC-32: the reflected division, one bit at a time, and the table-driven loop.
    Words are unsigned integers. */
module Crc32 {
  import opened Wrappers
  import opened Bits

  type byte = b: int | 0 <= b < 256

  const BYTE_BITS: nat := 8
  const POLYNOMIAL: nat := 0xedb8_8320
  const ONES: nat := 0xffff_ffff

  /** One step of the division. */
  function Shift(c: nat): nat {
    if c % 2 == 1 then Xor(c / 2, POLYNOMIAL) else c / 2
  }

  function Shifted(c: nat, n: nat): nat
    decreases n
  {
    if n == 0 then c else Shifted(Shift(c), n - 1)
  }

  /** The lowest `n` bits of `d`, the lowest first. */
  function AbsorbBits(c: nat, d: nat, n: nat): nat
    decreases n
  {
    if n == 0 then c else AbsorbBits(Shift(Xor(c, d % 2)), d / 2, n - 1)
  }

  function Absorb(c: nat, b: byte): nat {
    AbsorbBits(c, b, BYTE_BITS)
  }

  function Fold(step: (nat, byte) -> nat, c: nat, data: seq<byte>): nat {
    if data == [] then c else step(Fold(step, c, data[..|data| - 1]), data[|data| - 1])
  }

  const ABSORB: (nat, byte) -> nat := (c, b) => Absorb(c, b)

  function Register(c: nat, data: seq<byte>): nat {
    Fold(ABSORB, c, data)
  }

  /** The check value of `data`, going on from the check value `c`. */
  function Crc(c: nat, data: seq<byte>): nat {
    Xor(Register(Xor(c, ONES), data), ONES)
  }

  // ----- the generator -----

  /** The bit of a power of x: the highest powers have the lowest bits. */
  function Term(e: nat): nat
    requires e <= 31
  {
    Power2(31 - e)
  }

  /** The generator of section 8 of RFC 1952, without its highest term; and the
      register is inverted bit by bit, before and after. */
  lemma GeneratorTerms()
    ensures POLYNOMIAL == Term(26) + Term(23) + Term(22) + Term(16) + Term(12) + Term(11) + Term(10)
                          + Term(8) + Term(7) + Term(5) + Term(4) + Term(2) + Term(1) + Term(0)
    ensures ONES == Power2(32) - 1
  {
    PowersOfTwo();
    LowTerms();
    HighTerms();
  }

  lemma LowTerms()
    ensures Term(26) == 0x20 && Term(23) == 0x100 && Term(22) == 0x200 && Term(16) == 0x8000
    ensures Term(12) == 0x80000 && Term(11) == 0x100000 && Term(10) == 0x200000
  {
    PowerOfSum(8, 1);
    PowerOfSum(8, 7);
    PowerOfSum(8, 8);
    PowerOfSum(16, 3);
    PowerOfSum(16, 4);
    PowerOfSum(16, 5);
  }

  lemma HighTerms()
    ensures Term(8) == 0x800000 && Term(7) == 0x1000000 && Term(5) == 0x4000000
    ensures Term(4) == 0x8000000 && Term(2) == 0x20000000 && Term(1) == 0x40000000 && Term(0) == 0x80000000
  {
    PowerOfSum(8, 8);
    PowerOfSum(16, 7);
    PowerOfSum(16, 8);
    PowerOfSum(24, 2);
    PowerOfSum(24, 3);
    PowerOfSum(24, 5);
    PowerOfSum(24, 6);
    PowerOfSum(24, 7);
  }

  // ----- concatenation -----

  lemma {:induction false} FoldConcat(step: (nat, byte) -> nat, c: nat, a: seq<byte>, b: seq<byte>)
    ensures Fold(step, c, a + b) == Fold(step, Fold(step, c, a), b)
    decreases |b|
  {
    if b == [] {
      assert a + b == a;
    } else {
      var n := |b| - 1;
      FoldConcat(step, c, a, b[..n]);
      assert (a + b)[..|a + b| - 1] == a + b[..n];
    }
  }

  lemma RegisterConcat(c: nat, a: seq<byte>, b: seq<byte>)
    ensures Register(c, a + b) == Register(Register(c, a), b)
  {
    FoldConcat(ABSORB, c, a, b);
  }

  /** The check value of a text in two parts. */
  lemma CrcConcat(c: nat, a: seq<byte>, b: seq<byte>)
    ensures Crc(Crc(c, a), b) == Crc(c, a + b)
  {
    RegisterConcat(Xor(c, ONES), a, b);
    XorTwice(Register(Xor(c, ONES), a), ONES);
  }

  // ----- whole bytes at once -----

  /** The division is linear. */
  lemma ShiftIsLinear(a: nat, b: nat)
    ensures Shift(Xor(a, b)) == Xor(Shift(a), Shift(b))
  {
    var x, y, p := a / 2, b / 2, POLYNOMIAL;
    XorHalf(a, b);
    if a % 2 == 1 && b % 2 == 1 {
      XorAssoc(Xor(x, p), y, p);
      XorSwap(x, p, y);
      XorTwice(Xor(x, y), p);
      XorAssoc(Xor(x, p), y, p);
    } else if a % 2 == 1 {
      XorSwap(x, p, y);
    } else if b % 2 == 1 {
      XorAssoc(x, y, p);
    }
  }

  lemma {:induction false} ShiftedIsLinear(a: nat, b: nat, n: nat)
    ensures Shifted(Xor(a, b), n) == Xor(Shifted(a, n), Shifted(b, n))
    decreases n
  {
    if n > 0 {
      ShiftIsLinear(a, b);
      ShiftedIsLinear(Shift(a), Shift(b), n - 1);
    }
  }

  /** The `n` lowest bits, and what is above them. */
  function Low(x: nat, n: nat): nat
    decreases n
  {
    if n == 0 then 0 else x % 2 + 2 * Low(x / 2, n - 1)
  }

  function High(x: nat, n: nat): nat
    decreases n
  {
    if n == 0 then x else High(x / 2, n - 1)
  }

  lemma {:induction false} LowHigh(x: nat, n: nat)
    ensures Low(x, n) == x % Power2(n) && High(x, n) == x / Power2(n)
    decreases n
  {
    if n > 0 {
      LowHigh(x / 2, n - 1);
      HalfRemainder(x, Power2(n - 1));
    }
  }

  lemma LowHighOfByte(x: nat)
    ensures Low(x, BYTE_BITS) == x % 256 && High(x, BYTE_BITS) == x / 256
  {
    LowHigh(x, BYTE_BITS);
    assert Power2(8) == 256;
  }

  lemma {:induction false} HighOfXor(a: nat, b: nat, n: nat)
    ensures High(Xor(a, b), n) == Xor(High(a, n), High(b, n))
    decreases n
  {
    if n > 0 {
      XorHalf(a, b);
      HighOfXor(a / 2, b / 2, n - 1);
    }
  }

  /** High bits only move down. */
  lemma {:induction false} ShiftedInParts(x: nat, n: nat)
    ensures Shifted(x, n) == Xor(Shifted(Low(x, n), n), High(x, n))
    decreases n
  {
    if n == 0 {
      XorZero(x);
      XorComm(0, x);
    } else {
      var low, rest := Low(x / 2, n - 1), x / 2;
      assert Low(x, n) / 2 == low && Low(x, n) % 2 == x % 2;
      ShiftedInParts(rest, n - 1);
      if x % 2 == 1 {
        ShiftedIsLinear(rest, POLYNOMIAL, n - 1);
        ShiftedIsLinear(low, POLYNOMIAL, n - 1);
        XorSwap(Shifted(low, n - 1), High(rest, n - 1), Shifted(POLYNOMIAL, n - 1));
      }
    }
  }

  lemma {:induction false} ShiftOfBit(c: nat, d: nat)
    ensures Shift(Xor(c, d)) == Xor(Shift(Xor(c, d % 2)), d / 2)
  {
    XorHalf(c, d);
    XorHalf(c, d % 2);
    XorZero(c / 2);
    XorSwap(c / 2, POLYNOMIAL, d / 2);
  }

  /** Bits can be added all at once, before the steps. */
  lemma {:induction false} AbsorbIsShifted(c: nat, d: nat, n: nat)
    requires High(d, n) == 0
    ensures AbsorbBits(c, d, n) == Shifted(Xor(c, d), n)
    decreases n
  {
    if n == 0 {
      XorZero(c);
    } else {
      ShiftOfBit(c, d);
      AbsorbIsShifted(Shift(Xor(c, d % 2)), d / 2, n - 1);
    }
  }

  /** A byte is absorbed by one look into the table of the 256 remainders. */
  lemma TableStep(c: nat, b: byte)
    ensures Absorb(c, b) == Xor(Shifted(Xor(c, b) % 256, BYTE_BITS), c / 256)
  {
    LowHighOfByte(b);
    LowHighOfByte(c);
    LowHighOfByte(Xor(c, b));
    AbsorbIsShifted(c, b, BYTE_BITS);
    ShiftedInParts(Xor(c, b), BYTE_BITS);
    HighOfXor(c, b, BYTE_BITS);
    XorZero(c / 256);
  }

  // ----- 32 bits -----

  lemma {:induction false} PowersOfTwo()
    ensures Power2(8) == 256 && Power2(31) == 0x8000_0000 && Power2(32) == 0x1_0000_0000
  {
    assert Power2(8) == 256;
    PowerOfSum(8, 8);
    PowerOfSum(16, 8);
    PowerOfSum(24, 7);
  }

  lemma {:induction false} PowerOfSum(n: nat, m: nat)
    ensures Power2(n + m) == Power2(n) * Power2(m)
    decreases m
  {
    if m > 0 {
      PowerOfSum(n, m - 1);
      assert Power2(n) * (2 * Power2(m - 1)) == 2 * (Power2(n) * Power2(m - 1));
    }
  }

  lemma {:induction false} ShiftedBound(c: nat, n: nat)
    requires c < 0x1_0000_0000
    ensures Shifted(c, n) < 0x1_0000_0000
    decreases n
  {
    if n > 0 {
      PowersOfTwo();
      XorBound(c / 2, POLYNOMIAL, 32);
      ShiftedBound(Shift(c), n - 1);
    }
  }

  lemma AbsorbBound(c: nat, b: byte)
    requires c < 0x1_0000_0000
    ensures Absorb(c, b) < 0x1_0000_0000
    ensures Absorb(c, b) == Shifted(Xor(c, b), BYTE_BITS) && Xor(c, b) < 0x1_0000_0000
  {
    PowersOfTwo();
    LowHighOfByte(b);
    AbsorbIsShifted(c, b, BYTE_BITS);
    XorBound(c, b, 32);
    ShiftedBound(Xor(c, b), BYTE_BITS);
  }

  lemma {:induction false} RegisterBound(c: nat, data: seq<byte>)
    requires c < 0x1_0000_0000
    ensures Register(c, data) < 0x1_0000_0000
  {
    if data != [] {
      RegisterBound(c, data[..|data| - 1]);
      AbsorbBound(Register(c, data[..|data| - 1]), data[|data| - 1]);
    }
  }

  // ----- errors are seen -----

  lemma ShiftIsInjective(c: nat, d: nat)
    requires c < 0x1_0000_0000 && d < 0x1_0000_0000 && Shift(c) == Shift(d)
    ensures c == d
  {
    PowersOfTwo();
    XorTopBit(c / 2, POLYNOMIAL, 31);
    XorTopBit(d / 2, POLYNOMIAL, 31);
    if c % 2 == 1 && d % 2 == 1 {
      XorInjective(c / 2, d / 2, POLYNOMIAL);
    }
    EqualByHalf(c, d);
  }

  lemma {:induction false} ShiftedIsInjective(c: nat, d: nat, n: nat)
    requires c < 0x1_0000_0000 && d < 0x1_0000_0000 && Shifted(c, n) == Shifted(d, n)
    ensures c == d
    decreases n
  {
    if n > 0 {
      ShiftedBound(c, 1);
      ShiftedBound(d, 1);
      assert Shifted(c, 1) == Shift(c) && Shifted(d, 1) == Shift(d);
      ShiftedIsInjective(Shift(c), Shift(d), n - 1);
      ShiftIsInjective(c, d);
    }
  }

  /** Different registers, or different bytes, stay apart. */
  lemma AbsorbIsInjective(c: nat, a: byte, d: nat, b: byte)
    requires c < 0x1_0000_0000 && d < 0x1_0000_0000 && Absorb(c, a) == Absorb(d, b)
    ensures Xor(c, a) == Xor(d, b)
  {
    AbsorbBound(c, a);
    AbsorbBound(d, b);
    ShiftedIsInjective(Xor(c, a), Xor(d, b), BYTE_BITS);
  }

  lemma {:induction false} RegisterIsInjective(c: nat, d: nat, data: seq<byte>)
    requires c < 0x1_0000_0000 && d < 0x1_0000_0000 && Register(c, data) == Register(d, data)
    ensures c == d
  {
    if data != [] {
      var front, b := data[..|data| - 1], data[|data| - 1];
      RegisterBound(c, front);
      RegisterBound(d, front);
      AbsorbIsInjective(Register(c, front), b, Register(d, front), b);
      XorInjective(Register(c, front), Register(d, front), b);
      RegisterIsInjective(c, d, front);
    }
  }

  lemma AbsorbLast(c: nat, before: seq<byte>, b: byte)
    ensures Register(c, before + [b]) == Absorb(Register(c, before), b)
  {
    assert (before + [b])[..|before|] == before;
  }

  /** A change of one byte changes the check value. */
  lemma SeesOneByte(c: nat, before: seq<byte>, a: byte, b: byte, after: seq<byte>)
    requires c < 0x1_0000_0000 && a != b
    ensures Crc(c, before + [a] + after) != Crc(c, before + [b] + after)
  {
    var start := Xor(c, ONES);
    var r, x, y := Register(start, before), before + [a], before + [b];
    PowersOfTwo();
    XorBound(c, ONES, 32);
    RegisterBound(start, before);
    RegisterConcat(start, x, after);
    RegisterConcat(start, y, after);
    AbsorbLast(start, before, a);
    AbsorbLast(start, before, b);
    AbsorbBound(r, a);
    AbsorbBound(r, b);
    if Crc(c, x + after) == Crc(c, y + after) {
      XorInjective(Register(start, x + after), Register(start, y + after), ONES);
      RegisterIsInjective(Absorb(r, a), Absorb(r, b), after);
      AbsorbIsInjective(r, a, r, b);
      XorComm(r, a);
      XorComm(r, b);
      XorInjective(a, b, r);
    }
  }

  // ----- the program -----

  /** Eight steps of the division lead from `b` to `r`. */
  ghost predicate IsRemainder(b: nat, r: nat) {
    forall ask {:trigger Inspect(ask)} :: Inspect(ask) ==> r == Shifted(b, BYTE_BITS)
  }

  /** Eight steps, one at a time. */
  method Remainder(b: nat) returns (crc2: nat)
    ensures IsRemainder(b, crc2)
  {
    crc2 := b;
    var i := BYTE_BITS;
    while i > 0
      invariant 0 <= i <= BYTE_BITS && Shifted(crc2, i) == Shifted(b, BYTE_BITS)
    {
      if crc2 % 2 == 1 {
        crc2 := Xor(crc2 / 2, POLYNOMIAL);
      } else {
        crc2 := crc2 / 2;
      }
      i := i - 1;
    }
  }

  /** The register after the first `i` bytes. */
  ghost predicate Reached(start: nat, p: seq<byte>, i: nat, crc: nat) {
    i <= |p| && forall ask {:trigger Inspect(ask)} :: Inspect(ask) ==> crc == Register(start, p[..i])
  }

  class Table {
    var inited: bool
    const entries: array<nat>

    ghost predicate Valid()
      reads this, entries
    {
      && entries.Length == 256
      && (inited ==> forall b :: 0 <= b < 256 ==> IsRemainder(b, entries[b]))
    }

    constructor ()
      ensures Valid() && fresh(entries)
    {
      inited := false;
      entries := new nat[256](i => 0);
    }

    method Fill()
      requires Valid()
      modifies this`inited, entries
      ensures Valid() && inited
    {
      var b := 0;
      while b < 256
        invariant 0 <= b <= 256
        invariant forall k :: 0 <= k < b ==> IsRemainder(k, entries[k])
      {
        entries[b] := Remainder(b);
        b := b + 1;
      }
      inited := true;
    }

    /** One look into the table. */
    method Next(crc: nat, p: seq<byte>, i: nat, ghost start: nat) returns (r: nat)
      requires Valid() && inited && i < |p| && Reached(start, p, i, crc)
      ensures Reached(start, p, i + 1, r)
    {
      assert Inspect(true);
      TableStep(crc, p[i]);
      AbsorbLast(start, p[..i], p[i]);
      assert p[..i + 1] == p[..i] + [p[i]];
      r := Xor(entries[Xor(crc, p[i]) % 256], crc / 256);
    }

    method Next8(crc: nat, p: seq<byte>, i: nat, ghost start: nat) returns (r: nat)
      requires Valid() && inited && i + 8 <= |p| && Reached(start, p, i, crc)
      ensures Reached(start, p, i + 8, r)
    {
      r := Next(crc, p, i, start);
      r := Next(r, p, i + 1, start);
      r := Next(r, p, i + 2, start);
      r := Next(r, p, i + 3, start);
      r := Next(r, p, i + 4, start);
      r := Next(r, p, i + 5, start);
      r := Next(r, p, i + 6, start);
      r := Next(r, p, i + 7, start);
    }

    /** Eight bytes at a time. */
    method ByEights(was: nat, p: seq<byte>, ghost start: nat) returns (crc: nat, i: nat)
      requires Valid() && inited && Reached(start, p, 0, was)
      ensures i <= |p| && Reached(start, p, i, crc)
    {
      crc, i := was, 0;
      while |p| - i >= 8
        invariant i <= |p| && Reached(start, p, i, crc)
      {
        crc := Next8(crc, p, i, start);
        i := i + 8;
      }
    }

    /** One byte at a time. */
    method ByOnes(was: nat, p: seq<byte>, from: nat, ghost start: nat) returns (crc: nat)
      requires Valid() && inited && Reached(start, p, from, was)
      ensures Reached(start, p, |p|, crc)
    {
      crc := was;
      var i := from;
      while i < |p|
        invariant i <= |p| && Reached(start, p, i, crc)
      {
        crc := Next(crc, p, i, start);
        i := i + 1;
      }
    }

    /** Eight bytes at a time, then one at a time. */
    method Compute(c: nat, p: seq<byte>) returns (crc: nat)
      requires Valid()
      modifies this`inited, entries
      ensures Valid() && crc == Crc(c, p)
    {
      if !inited {
        Fill();
      }
      crc := Xor(c, ONES);
      ghost var start := crc;
      assert Reached(start, p, 0, crc);
      var i;
      crc, i := ByEights(crc, p, start);
      crc := ByOnes(crc, p, i, start);
      assert Inspect(true) && p[..|p|] == p;
      crc := Xor(crc, ONES);
    }
  }
}
