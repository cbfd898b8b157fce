/** Counter mode over a block cipher: the input is combined with one key stream,
    however it is cut into calls. */
module Ctr {
  import opened Wrappers

  type byte = bv8

  /** What a keyed block cipher makes of a block, if it succeeds. */
  type Cipher = seq<byte> -> Option<seq<byte>>

  // ----- the counter -----

  /** A little-endian number. */
  function Value(n: seq<byte>): nat {
    if n == [] then 0 else n[0] as nat + 256 * Value(n[1..])
  }

  function Range(width: nat): nat {
    if width == 0 then 1 else 256 * Range(width - 1)
  }

  function Increased(n: seq<byte>): (r: seq<byte>)
    ensures |r| == |n|
  {
    if n == [] then []
    else if n[0] == 0xff then [0] + Increased(n[1..])
    else [n[0] + 1] + n[1..]
  }

  lemma AddOne(b: byte)
    ensures (b + 1) as nat == if b == 0xff then 0 else b as nat + 1
    ensures b as nat < 256
  {
  }

  lemma ValueOf(b: byte, rest: seq<byte>)
    ensures Value([b] + rest) == b as nat + 256 * Value(rest)
  {
    assert ([b] + rest)[1..] == rest;
  }

  /** The increase is by one, modulo the range. */
  lemma {:induction false} IncreasedValue(n: seq<byte>)
    ensures Value(n) < Range(|n|)
    ensures Value(Increased(n)) == if Value(n) + 1 == Range(|n|) then 0 else Value(n) + 1
    decreases |n|
  {
    if n != [] {
      var b, rest := n[0], n[1..];
      IncreasedValue(rest);
      AddOne(b);
      if b == 0xff {
        ValueOf(0, Increased(rest));
      } else {
        ValueOf(b + 1, rest);
      }
    }
  }

  /** The counter after so many increases of zero. */
  function CounterAt(m: nat): (n: seq<byte>)
    ensures |n| == 8
  {
    if m == 0 then seq(8, i => 0) else Increased(CounterAt(m - 1))
  }

  lemma RangeOfEight()
    ensures Range(8) == 0x1_0000_0000_0000_0000
  {
    assert Range(4) == 0x1_0000_0000;
    assert Range(5) == 256 * Range(4);
    assert Range(6) == 256 * Range(5);
    assert Range(7) == 256 * Range(6);
  }

  lemma {:induction false} ZeroValue(n: seq<byte>)
    requires forall i :: 0 <= i < |n| ==> n[i] == 0
    ensures Value(n) == 0
    decreases |n|
  {
    if n != [] {
      ZeroValue(n[1..]);
    }
  }

  lemma NextModulo(m: nat)
    requires m > 0
    ensures var r := 0x1_0000_0000_0000_0000; m % r == if (m - 1) % r + 1 == r then 0 else (m - 1) % r + 1
  {
  }

  /** It counts modulo 2^64. */
  lemma {:induction false} CounterValue(m: nat)
    ensures Value(CounterAt(m)) == m % 0x1_0000_0000_0000_0000
  {
    RangeOfEight();
    if m == 0 {
      ZeroValue(CounterAt(0));
    } else {
      CounterValue(m - 1);
      NextModulo(m);
      IncreasedValue(CounterAt(m - 1));
    }
  }

  // ----- the key stream -----

  const PADDING: seq<byte> := [0, 0, 0, 0, 0, 0, 0, 0]

  /** Block `m` of the key stream; the first is block 1. */
  function KeyBlock(cipher: Cipher, m: nat): (b: Option<seq<byte>>)
    ensures b.Some? ==> |b.value| == 16
  {
    var b := cipher(CounterAt(m) + PADDING);
    if b.Some? && |b.value| == 16 then b else None
  }

  function KeyByte(cipher: Cipher, p: nat): byte {
    var b := KeyBlock(cipher, p / 16 + 1);
    if b.Some? then b.value[p % 16] else 0
  }

  /** Byte `p` of the stream comes from the block for `p / 16 + 1`, as the first half
      of a nonce whose second half is zero. */
  lemma KeyByteIs(cipher: Cipher, p: nat) returns (n: seq<byte>)
    ensures |n| == 16 && Value(n[..8]) == (p / 16 + 1) % 0x1_0000_0000_0000_0000 && n[8..] == [0, 0, 0, 0, 0, 0, 0, 0]
    ensures cipher(n).Some? && |cipher(n).value| == 16 ==> KeyByte(cipher, p) == cipher(n).value[p % 16]
  {
    n := CounterAt(p / 16 + 1) + PADDING;
    CounterValue(p / 16 + 1);
    assert n[..8] == CounterAt(p / 16 + 1) && n[8..] == PADDING;
  }

  /** Text combined with the key stream from position `p` on. */
  function Combined(cipher: Cipher, s: seq<byte>, p: nat): (r: seq<byte>)
    ensures |r| == |s|
  {
    seq(|s|, k requires 0 <= k < |s| => s[k] ^ KeyByte(cipher, p + k))
  }

  /** Cutting the text does not matter. */
  lemma CombinedInParts(cipher: Cipher, a: seq<byte>, b: seq<byte>, p: nat)
    ensures Combined(cipher, a + b, p) == Combined(cipher, a, p) + Combined(cipher, b, p + |a|)
  {
    forall k | 0 <= k < |a + b|
      ensures Combined(cipher, a + b, p)[k] == (Combined(cipher, a, p) + Combined(cipher, b, p + |a|))[k]
    {
      assert (a + b)[k] == if k < |a| then a[k] else b[k - |a|];
    }
  }

  lemma XorTwice(a: byte, b: byte)
    ensures (a ^ b) ^ b == a
  {
  }

  /** Combining twice gives the text back. */
  lemma CombinedTwice(cipher: Cipher, s: seq<byte>, p: nat)
    ensures Combined(cipher, Combined(cipher, s, p), p) == s
  {
    forall k | 0 <= k < |s|
      ensures Combined(cipher, Combined(cipher, s, p), p)[k] == s[k]
    {
      XorTwice(s[k], KeyByte(cipher, p + k));
    }
  }

  lemma CombinedStep(cipher: Cipher, s: seq<byte>, i: nat, p: nat)
    requires i < |s|
    ensures Combined(cipher, s[..i + 1], p) == Combined(cipher, s[..i], p) + [s[i] ^ KeyByte(cipher, p + i)]
  {
    assert s[..i + 1] == s[..i] + [s[i]];
    CombinedInParts(cipher, s[..i], [s[i]], p);
    assert Combined(cipher, [s[i]], p + i) == [s[i] ^ KeyByte(cipher, p + i)];
  }

  // ----- the context -----

  /** The bytes up to the first that is not 0xff. */
  lemma {:induction false} IncreasedAt(n: seq<byte>, j: nat)
    requires j <= |n| && (forall k :: 0 <= k < j ==> n[k] == 0xff) && (j < |n| ==> n[j] != 0xff)
    ensures forall k :: 0 <= k < |n| ==>
              Increased(n)[k] == if k < j then 0 else if k == j then n[k] + 1 else n[k]
    decreases j
  {
    if j > 0 {
      IncreasedAt(n[1..], j - 1);
    }
  }

  method IncreaseCounter(nonce: array<byte>)
    requires nonce.Length == 16
    modifies nonce
    ensures nonce[..8] == Increased(old(nonce[..8])) && nonce[8..] == old(nonce[8..])
  {
    ghost var was := nonce[..8];
    var j := 0;
    while j < 8
      invariant 0 <= j <= 8
      invariant forall k :: 0 <= k < j ==> was[k] == 0xff && nonce[k] == 0
      invariant forall k :: j <= k < 16 ==> nonce[k] == old(nonce[k])
    {
      nonce[j] := nonce[j] + 1;
      if nonce[j] != 0 {
        break;
      }
      j := j + 1;
    }
    IncreasedAt(was, j);
  }

  method CopyBlock(b: seq<byte>, buf: array<byte>)
    requires |b| == buf.Length
    modifies buf
    ensures buf[..] == b
  {
    forall k | 0 <= k < |b| {
      buf[k] := b[k];
    }
  }

  /** The first `i` bytes are combined, the others as they were. */
  ghost predicate Done(cipher: Cipher, input: array<byte>, out: array<byte>, text: seq<byte>, was: seq<byte>,
                       start: nat, i: nat)
    reads input, out
  {
    && |text| == input.Length && |was| == out.Length && i <= |text| && i <= |was|
    && forall ask {:trigger Inspect(ask)} :: Inspect(ask) ==>
         out[..i] == Combined(cipher, text[..i], start) && out[i..] == was[i..] && input[i..] == text[i..]
  }

  method CombineByte(cipher: Cipher, input: array<byte>, out: array<byte>, key: byte, i: nat,
                     ghost text: seq<byte>, ghost was: seq<byte>, ghost start: nat)
    requires Done(cipher, input, out, text, was, start, i) && i < input.Length && i < out.Length
    requires key == KeyByte(cipher, start + i)
    modifies out
    ensures Done(cipher, input, out, text, was, start, i + 1)
  {
    assert Inspect(true);
    CombinedStep(cipher, text, i, start);
    assert input[i..][0] == text[i];
    assert out[i..][1..] == was[i + 1..] && input[i..][1..] == text[i + 1..];
    out[i] := input[i] ^ key;
  }

  /** A whole block at once. */
  method CombineBlock(cipher: Cipher, input: array<byte>, out: array<byte>, key: array<byte>, i: nat,
                      ghost text: seq<byte>, ghost was: seq<byte>, ghost start: nat)
    requires Done(cipher, input, out, text, was, start, i) && key.Length == 16
    requires i + 16 <= input.Length && i + 16 <= out.Length && out != key
    requires forall k :: 0 <= k < 16 ==> key[k] == KeyByte(cipher, start + (i + k))
    modifies out
    ensures Done(cipher, input, out, text, was, start, i + 16)
  {
    var pos := 0;
    while pos < 16
      invariant 0 <= pos <= 16 && Done(cipher, input, out, text, was, start, i + pos)
    {
      CombineByte(cipher, input, out, key[pos], i + pos, text, was, start);
      pos := pos + 1;
    }
  }

  // ----- the context -----

  /** The last key block that a call of `max` bytes needs. */
  function LastBlock(blocks: nat, pos: nat, max: nat): nat
    requires pos <= 16 && (pos < 16 ==> blocks > 0)
  {
    if max <= 16 - pos then blocks else 1 + (Position(blocks, pos) + max) / 16
  }

  /** How much of the key stream is used up. A block used up and the next one
      not begun are the same position. */
  function Position(blocks: nat, pos: nat): nat
    requires pos <= 16 && (pos < 16 ==> blocks > 0)
  {
    if pos == 16 then 16 * blocks else 16 * (blocks - 1) + pos
  }

  class Context {
    const cipher: Cipher
    const nonce: array<byte>
    const encrBuf: array<byte>
    var encrPos: nat
    ghost var blocks: nat

    /** The nonce is the counter after `blocks` increases, and the buffer is its
        key block unless that is used up. */
    ghost predicate Holds(pos: nat)
      reads this, nonce, encrBuf
    {
      && nonce.Length == 16 && encrBuf.Length == 16 && nonce != encrBuf && pos <= 16
      && nonce[..] == CounterAt(blocks) + PADDING
      && (pos < 16 ==> blocks > 0 && KeyBlock(cipher, blocks) == Some(encrBuf[..]))
    }

    ghost predicate Valid()
      reads this, nonce, encrBuf
    {
      Holds(encrPos)
    }

    constructor (cipher: Cipher)
      ensures Valid() && this.cipher == cipher && Position(blocks, encrPos) == 0
      ensures fresh(nonce) && fresh(encrBuf)
    {
      this.cipher := cipher;
      nonce := new byte[16](i => 0);
      encrBuf := new byte[16](i => 0);
      encrPos := 16;
      blocks := 0;
    }

    /** Increase the counter and encrypt it. */
    method NextBlock() returns (ok: bool)
      requires Holds(16)
      modifies this`blocks, nonce, encrBuf
      ensures blocks == old(blocks) + 1
      ensures ok <==> KeyBlock(cipher, blocks).Some?
      ensures ok ==> Holds(0)
    {
      IncreaseCounter(nonce);
      assert old(nonce[..8]) == CounterAt(blocks) && old(nonce[8..]) == PADDING;
      assert nonce[..] == nonce[..8] + nonce[8..];
      blocks := blocks + 1;
      var b := cipher(nonce[..]);
      ok := b.Some? && |b.value| == 16;
      if ok {
        CopyBlock(b.value, encrBuf);
      }
    }

    lemma {:induction false} KeyAtPosition(pos: nat)
      requires Holds(pos) && pos < 16
      ensures KeyByte(cipher, Position(blocks, pos)) == encrBuf[pos]
    {
    }

    lemma {:induction false} KeysOfBlock(p: nat)
      requires Holds(0) && Position(blocks, 0) == p
      ensures forall k :: 0 <= k < 16 ==> KeyByte(cipher, p + k) == encrBuf[k]
    {
      forall k | 0 <= k < 16
        ensures KeyByte(cipher, p + k) == encrBuf[k]
      {
        assert (p + k) / 16 + 1 == blocks && (p + k) % 16 == k;
      }
    }

    method WholeBlock(input: array<byte>, out: array<byte>, i: nat,
                      ghost text: seq<byte>, ghost was: seq<byte>, ghost start: nat)
        returns (ok: bool)
      requires Holds(0) && Done(cipher, input, out, text, was, start, i) && Position(blocks, 0) == start + i
      requires i + 16 <= input.Length && i + 16 <= out.Length
      requires input != nonce && input != encrBuf && out != nonce && out != encrBuf
      modifies this`blocks, nonce, encrBuf, out
      ensures blocks == old(blocks) + 1 && (ok <==> KeyBlock(cipher, blocks).Some?)
      ensures ok ==> Holds(0) && Done(cipher, input, out, text, was, start, i + 16)
    {
      KeysOfBlock(start + i);
      CombineBlock(cipher, input, out, encrBuf, i, text, was, start);
      ok := NextBlock();
    }

    /** Begin a block and combine whole blocks while there are any. */
    method CombineBlocks(input: array<byte>, out: array<byte>, from: nat, max: nat,
                         ghost text: seq<byte>, ghost was: seq<byte>, ghost start: nat)
        returns (ok: bool, i: nat)
      requires Holds(16) && Done(cipher, input, out, text, was, start, from) && Position(blocks, 16) == start + from
      requires from < max <= input.Length && max <= out.Length
      requires input != nonce && input != encrBuf && out != nonce && out != encrBuf
      modifies this`blocks, nonce, encrBuf, out
      ensures from <= i <= max && old(blocks) < blocks && (ok ==> max - i < 16)
      ensures blocks <= 1 + (start + max) / 16
      ensures forall m :: old(blocks) < m < blocks ==> KeyBlock(cipher, m).Some?
      ensures ok <==> KeyBlock(cipher, blocks).Some?
      ensures ok ==> Holds(0) && Done(cipher, input, out, text, was, start, i) && Position(blocks, 0) == start + i
    {
      i := from;
      ok := NextBlock();
      while ok && max - i >= 16
        invariant from <= i <= max && old(blocks) < blocks
        invariant 16 * (blocks - 1) == start + i
        invariant forall m :: old(blocks) < m < blocks ==> KeyBlock(cipher, m).Some?
        invariant ok <==> KeyBlock(cipher, blocks).Some?
        invariant ok ==> Holds(0) && Done(cipher, input, out, text, was, start, i)
      {
        ok := WholeBlock(input, out, i, text, was, start);
        i := i + 16;
      }
    }

    /** A call of `max` bytes after `i` of them; it began at position `start`
        with `first` blocks. */
    ghost predicate Midway(pos: nat, i: nat, max: nat, start: nat, first: nat)
      reads this, nonce, encrBuf
    {
      && Holds(pos) && i <= max && Position(blocks, pos) == start + i
      && first <= blocks && (blocks > first ==> max - i < 16 - pos)
      && forall m :: first < m <= blocks ==> KeyBlock(cipher, m).Some?
    }

    /** One turn of the loop: a byte, with all whole blocks before it if a block
        begins here. */
    method Turn(input: array<byte>, out: array<byte>, pos: nat, i: nat, max: nat,
                ghost text: seq<byte>, ghost was: seq<byte>, ghost start: nat, ghost first: nat)
        returns (ok: bool, pos': nat, i': nat)
      requires Midway(pos, i, max, start, first) && Done(cipher, input, out, text, was, start, i)
      requires i < max <= input.Length && max <= out.Length
      requires input != nonce && input != encrBuf && out != nonce && out != encrBuf
      modifies this`blocks, nonce, encrBuf, out
      ensures ok ==> Midway(pos', i', max, start, first) && i < i' && Done(cipher, input, out, text, was, start, i')
      ensures if pos < 16 then blocks == old(blocks) && pos' == pos + 1 && i' == i + 1 else old(blocks) < blocks
      ensures !ok ==> pos == 16 && first < blocks <= 1 + (start + max) / 16 && KeyBlock(cipher, blocks).None?
    {
      ok, pos', i' := true, pos, i;
      if pos == 16 {
        ok, i' := CombineBlocks(input, out, i, max, text, was, start);
        pos' := 0;
        if !ok || i' >= max {
          return;
        }
      }
      KeyAtPosition(pos');
      CombineByte(cipher, input, out, encrBuf[pos'], i', text, was, start);
      pos' := pos' + 1;
      i' := i' + 1;
    }

    /** Combine as much as there is input and room for, in one call. */
    method Update(input: array<byte>, inLen: nat, out: array<byte>, room: nat) returns (ok: bool, outLen: nat)
      requires Valid() && inLen <= input.Length && room <= out.Length
      requires input != nonce && input != encrBuf && out != nonce && out != encrBuf
      modifies this, nonce, encrBuf, out
      ensures var max := (if inLen < room then inLen else room) % 0x1_0000_0000;
              && (ok <==> forall m :: old(blocks) < m <= LastBlock(old(blocks), old(encrPos), max) ==> KeyBlock(cipher, m).Some?)
              && (ok ==> outLen == max)
      ensures ok ==>
                && Valid() && Position(blocks, encrPos) == old(Position(blocks, encrPos)) + outLen
                && outLen <= out.Length && outLen <= input.Length
                && out[..outLen] == Combined(cipher, old(input[..outLen]), old(Position(blocks, encrPos)))
                && out[outLen..] == old(out[outLen..])
    {
      var max := (if inLen < room then inLen else room) % 0x1_0000_0000;
      var pos: nat, i: nat := encrPos, 0;
      ghost var start, first, text, was := Position(blocks, encrPos), blocks, input[..], out[..];
      ok, outLen := true, 0;
      while i < max
        invariant Midway(pos, i, max, start, first) && Done(cipher, input, out, text, was, start, i)
        invariant if blocks == first then pos == encrPos + i else max > 16 - encrPos
        decreases max - i
      {
        ok, pos, i := Turn(input, out, pos, i, max, text, was, start, first);
        if !ok {
          return;
        }
      }
      assert Inspect(true);
      encrPos := pos;
      outLen := i;
    }
  }

  function Concat(chunks: seq<seq<byte>>): seq<byte> {
    if chunks == [] then [] else Concat(chunks[..|chunks| - 1]) + chunks[|chunks| - 1]
  }

  method UpdateChunk(c: Context, chunk: seq<byte>) returns (ok: bool, r: seq<byte>)
    requires c.Valid() && |chunk| < 0x1_0000_0000
    modifies c, c.nonce, c.encrBuf
    ensures (forall m :: KeyBlock(c.cipher, m).Some?) ==> ok
    ensures ok ==> c.Valid() && r == Combined(c.cipher, chunk, old(Position(c.blocks, c.encrPos)))
    ensures ok ==> Position(c.blocks, c.encrPos) == old(Position(c.blocks, c.encrPos)) + |chunk|
  {
    var n := |chunk|;
    var input := new byte[n](k requires 0 <= k < n => chunk[k]);
    var out := new byte[n](k => 0);
    assert input[..n] == chunk;
    var len;
    ok, len := c.Update(input, n, out, n);
    r := out[..if ok then len else 0];
  }

  /** One call for each chunk: what comes out does not depend on the cuts. */
  method UpdateAll(c: Context, chunks: seq<seq<byte>>) returns (ok: bool, result: seq<byte>)
    requires c.Valid() && forall chunk <- chunks :: |chunk| < 0x1_0000_0000
    modifies c, c.nonce, c.encrBuf
    ensures (forall m :: KeyBlock(c.cipher, m).Some?) ==> ok
    ensures ok ==> c.Valid() && result == Combined(c.cipher, Concat(chunks), old(Position(c.blocks, c.encrPos)))
  {
    result := [];
    var i := 0;
    ghost var start := Position(c.blocks, c.encrPos);
    while i < |chunks|
      invariant 0 <= i <= |chunks| && c.Valid() && Position(c.blocks, c.encrPos) == start + |Concat(chunks[..i])|
      invariant result == Combined(c.cipher, Concat(chunks[..i]), start)
    {
      var r;
      ok, r := UpdateChunk(c, chunks[i]);
      if !ok {
        return;
      }
      CombinedInParts(c.cipher, Concat(chunks[..i]), chunks[i], start);
      assert chunks[..i + 1][..i] == chunks[..i];
      result := result + r;
      i := i + 1;
    }
    assert chunks[..i] == chunks;
    ok := true;
  }
}
