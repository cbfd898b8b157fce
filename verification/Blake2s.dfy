/** BLAKE2s as a streaming hash, over any compression function: what a digest
    is (section 3.3 of RFC 7693, with the tree flags), and the state machine
    with its lazily filled block buffer and 64-bit counter in two words. A block
    is 64 bytes; keys and full digests are at most 32 bytes. */
module Blake2s {
  import opened Wrappers

  const WORD_RANGE := 0x1_0000_0000

  type byte = n: int | 0 <= n < 256
  type uint32 = n: int | 0 <= n < WORD_RANGE

  /** The parameter block. The salt and the personalisation are always zero here. */
  datatype Param = Param(
    digestLength: byte, keyLength: byte, fanout: byte, depth: byte,
    leafLength: uint32, nodeOffset: uint32, nodeDepth: byte, innerLength: byte)

  /** What the streaming code uses of the words: the initial value, the
      compression (of a chaining value, counter, flags and block), the output. */
  datatype Core<!W> = Core(
    init: Param -> seq<W>,
    compress: (seq<W>, uint32, uint32, bool, bool, seq<byte>) -> seq<W>,
    output: seq<W> -> seq<byte>)

  // ----- what a digest is -----

  function CounterLow(n: nat): uint32 {
    n % WORD_RANGE
  }

  function CounterHigh(n: nat): uint32 {
    n / WORD_RANGE % WORD_RANGE
  }

  function Block(data: seq<byte>, i: nat): (b: seq<byte>)
    requires 64 * (i + 1) <= |data|
    ensures |b| == 64
  {
    data[64 * i..64 * (i + 1)]
  }

  /** The chaining value after the first `n` blocks, none of them the last. */
  function Chain<W>(c: Core<W>, h0: seq<W>, data: seq<byte>, n: nat): seq<W>
    requires 64 * n <= |data|
  {
    if n == 0 then h0
    else
      var done := 64 * n;
      c.compress(Chain(c, h0, data, n - 1), CounterLow(done), CounterHigh(done), false, false, Block(data, n - 1))
  }

  /** All blocks but the last, which is never empty unless there is no data. */
  function FullBlocks(len: nat): (n: nat)
    ensures 64 * n <= len && len - 64 * n <= 64
    ensures len > 0 ==> 64 * n < len
  {
    if len <= 64 then 0 else 1 + FullBlocks(len - 64)
  }

  function Zeros(n: nat): seq<byte> {
    seq(n, _ => 0)
  }

  function Pad(s: seq<byte>): (b: seq<byte>)
    requires |s| <= 64
    ensures |b| == 64
  {
    s + Zeros(64 - |s|)
  }

  /** The last block, perhaps not full. */
  function Tail(data: seq<byte>): (t: seq<byte>)
    ensures |t| == |data| - 64 * FullBlocks(|data|)
  {
    data[64 * FullBlocks(|data|)..]
  }

  /** The full-length hash of `data` from an initial value. */
  function Hash<W>(c: Core<W>, h0: seq<W>, data: seq<byte>, lastNode: bool): seq<byte> {
    c.output(c.compress(Chain(c, h0, data, FullBlocks(|data|)), CounterLow(|data|), CounterHigh(|data|), true, lastNode,
                        Pad(Tail(data))))
  }

  function Truncate(s: seq<byte>, n: nat): seq<byte> {
    if n <= |s| then s[..n] else s
  }

  /** Without a tree: fanout and depth 1. */
  function Sequential(outlen: byte, keylen: byte): Param {
    Param(outlen, keylen, 1, 1, 0, 0, 0, 0)
  }

  /** The key, padded to a block, comes before the data; no key, no block. */
  function KeyBlock(key: seq<byte>): (b: seq<byte>)
    requires |key| <= 32
    ensures |b| == if key == [] then 0 else 64
  {
    if key == [] then [] else Pad(key)
  }

  function Digest<W>(c: Core<W>, outlen: byte, key: seq<byte>, data: seq<byte>): seq<byte>
    requires |key| <= 32
  {
    Truncate(Hash(c, c.init(Sequential(outlen, |key|)), KeyBlock(key) + data, false), outlen)
  }

  // ----- the counter -----

  /** The 64-bit number of two words. */
  function Both(t0: uint32, t1: uint32): nat {
    t0 + 0x1_0000_0000 * t1
  }

  /** Adding to the low word and carrying when it wraps is adding to the number. */
  lemma CounterStep(t0: uint32, t1: uint32, inc: uint32)
    ensures var low := (t0 + inc) % 0x1_0000_0000;
            var high := (t1 + if low < inc then 1 else 0) % 0x1_0000_0000;
            Both(low, high) == (Both(t0, t1) + inc) % 0x1_0000_0000_0000_0000
  {
  }

  lemma CountedOn(n: nat, inc: nat)
    ensures (n % 0x1_0000_0000_0000_0000 + inc) % 0x1_0000_0000_0000_0000 == (n + inc) % 0x1_0000_0000_0000_0000
  {
  }

  lemma CounterWords(t0: uint32, t1: uint32, n: nat)
    ensures t0 == CounterLow(n) && t1 == CounterHigh(n) <==> Both(t0, t1) == n % 0x1_0000_0000_0000_0000
  {
    var r := n % 0x1_0000_0000_0000_0000;
    assert r % 0x1_0000_0000 == CounterLow(n) && r / 0x1_0000_0000 == CounterHigh(n);
  }

  lemma {:induction false} ChainPrefix<W>(c: Core<W>, h0: seq<W>, data: seq<byte>, more: seq<byte>, n: nat)
    requires 64 * n <= |data|
    ensures Chain(c, h0, data + more, n) == Chain(c, h0, data, n)
  {
    if n > 0 {
      ChainPrefix(c, h0, data, more, n - 1);
      assert Block(data + more, n - 1) == Block(data, n - 1);
    }
  }

  /** Input that fits in the last block starts no new one. */
  lemma SameBlocks(data: seq<byte>, input: seq<byte>)
    requires |input| > 0 && |Tail(data)| + |input| <= 64
    ensures FullBlocks(|data + input|) == FullBlocks(|data|)
    ensures Tail(data + input) == Tail(data) + input
  {
  }

  /** Completing the buffered block takes just the bytes that are missing. */
  lemma {:induction false} CompleteBlock(data: seq<byte>, input: seq<byte>)
    requires |Tail(data)| + |input| > 64
    ensures var n := FullBlocks(|data|);
            var fill := 64 - |Tail(data)|;
            && 64 * (n + 1) <= |data + input|
            && Tail(data) + input[..fill] == Block(data + input, n)
            && input[fill..] == (data + input)[64 * (n + 1)..]
  {
  }

  class State<W> {
    const c: Core<W>
    const buf: array<byte>
    var h: seq<W>
    var t0: uint32
    var t1: uint32
    var last: bool       // the word f[0] is set
    var treeFlag: bool   // the word f[1] is set
    var buflen: nat
    var outlen: nat
    var lastNode: bool

    ghost var h0: seq<W>
    ghost var data: seq<byte>  // everything absorbed, key block included

    /** `n` blocks of `d` are behind: chained, and counted modulo 2^64. */
    ghost predicate Behind(d: seq<byte>, n: nat)
      reads this
    {
      forall ask {:trigger Inspect(ask)} :: Inspect(ask) ==>
      && 64 * n <= |d|
      && h == Chain(c, h0, d, n)
      && t0 == CounterLow(64 * n)
      && t1 == CounterHigh(64 * n)
      && !last && !treeFlag
    }

    lemma {:induction false} BehindMore(input: seq<byte>)
      requires Behind(data, FullBlocks(|data|))
      ensures Behind(data + input, FullBlocks(|data|))
    {
      assert Inspect(true);
      ChainPrefix(c, h0, data, input, FullBlocks(|data|));
    }

    ghost predicate Valid()
      reads this, buf
    {
      && buf.Length == 64 && !last
      && forall ask {:trigger Inspect(ask)} :: Inspect(ask) ==>
           && buflen == |Tail(data)|
           && buf[..buflen] == Tail(data)
           && Behind(data, FullBlocks(|data|))
    }

    constructor (c: Core<W>, p: Param, outlen: nat)
      ensures Valid() && fresh(buf)
      ensures this.c == c && h0 == c.init(p) && data == [] && this.outlen == outlen && !lastNode
    {
      this.c := c;
      h := c.init(p);
      buf := new byte[64](_ => 0);
      t0, t1, last, treeFlag, buflen := 0, 0, false, false, 0;
      this.outlen, lastNode := outlen, false;
      h0, data := c.init(p), [];
    }

    method IncrementCounter(inc: uint32)
      modifies this`t0, this`t1
      ensures Both(t0, t1) == (old(Both(t0, t1)) + inc) % 0x1_0000_0000_0000_0000
    {
      CounterStep(t0, t1, inc);
      t0 := (t0 + inc) % WORD_RANGE;
      t1 := (t1 + if t0 < inc then 1 else 0) % WORD_RANGE;
    }

    /** This is the last node of its level in a tree. */
    method SetLastNode()
      requires Valid()
      modifies this`lastNode
      ensures Valid() && lastNode
    {
      lastNode := true;
    }

    /** Bytes counted after `n` bytes. */
    method Count(ghost n: nat, inc: uint32)
      requires t0 == CounterLow(n) && t1 == CounterHigh(n)
      modifies this`t0, this`t1
      ensures t0 == CounterLow(n + inc) && t1 == CounterHigh(n + inc)
    {
      CounterWords(t0, t1, n);
      IncrementCounter(inc);
      CountedOn(n, inc);
      CounterWords(t0, t1, n + inc);
    }

    /** Count and compress one block that is not the last. */
    method Absorb(block: seq<byte>, ghost d: seq<byte>, ghost n: nat)
      requires Behind(d, n)
      requires 64 * (n + 1) <= |d| && block == Block(d, n)
      modifies this`t0, this`t1, this`h
      ensures Behind(d, n + 1)
    {
      assert Inspect(true);
      Count(64 * n, 64);
      h := c.compress(h, t0, t1, last, treeFlag, block);
    }

    /** Put bytes into the buffer after those it holds. */
    method Fill(bytes: seq<byte>)
      requires buf.Length == 64 && buflen + |bytes| <= 64
      modifies this`buflen, buf
      ensures buflen == old(buflen) + |bytes| && buf[..buflen] == old(buf[..buflen]) + bytes
    {
      forall i | 0 <= i < |bytes| {
        buf[buflen + i] := bytes[i];
      }
      buflen := buflen + |bytes|;
    }

    /** Absorb whole blocks while more than one block is left. */
    method AbsorbBlocks(input: seq<byte>, ghost d: seq<byte>, ghost n: nat) returns (rest: seq<byte>)
      requires |input| > 0 && 64 * n <= |d| && input == d[64 * n..] && Behind(d, n)
      modifies this`t0, this`t1, this`h
      ensures 0 < |rest| <= 64 && rest == Tail(d)
      ensures Behind(d, FullBlocks(|d|))
    {
      rest := input;
      ghost var k: nat := n;
      while |rest| > 64
        invariant |rest| > 0 && 64 * k <= |d| && rest == d[64 * k..]
        invariant Behind(d, k)
      {
        Absorb(rest[..64], d, k);
        rest := rest[64..];
        k := k + 1;
      }
      assert FullBlocks(|d|) == k;
    }

    /** The input overflows the buffer: complete it, absorb it and the blocks after it. */
    method Overflow(input: seq<byte>) returns (rest: seq<byte>)
      requires Valid() && buflen <= 64 && buflen + |input| > 64
      modifies this`t0, this`t1, this`h, this`buflen, buf
      ensures buflen == 0 && |rest| <= 64
      ensures rest == Tail(data + input)
      ensures Behind(data + input, FullBlocks(|data + input|))
    {
      assert Inspect(true);
      ghost var d := data + input;
      ghost var n := FullBlocks(|data|);
      var fill := 64 - buflen;
      CompleteBlock(data, input);
      Fill(input[..fill]);
      assert buf[..] == buf[..64];
      buflen := 0;
      BehindMore(input);
      Absorb(buf[..], d, n);
      rest := AbsorbBlocks(input[fill..], d, n + 1);
    }

    method Update(input: seq<byte>)
      requires Valid()
      modifies this`t0, this`t1, this`h, this`buflen, this`data, buf
      ensures Valid() && data == old(data) + input
    {
      assert Inspect(true);
      if |input| > 0 {
        ghost var d := data + input;
        var rest := input;
        if |input| > 64 - buflen {
          rest := Overflow(input);
        } else {
          SameBlocks(data, input);
          BehindMore(input);
        }
        Fill(rest);
        data := d;
      } else {
        assert data + input == data;
      }
    }

    /** Pad the buffer with zeros after the bytes it holds. */
    method PadBuffer()
      requires buf.Length == 64 && buflen <= 64
      modifies buf
      ensures buf[..] == Pad(old(buf[..buflen]))
    {
      forall i | buflen <= i < 64 {
        buf[i] := 0;
      }
    }

    /** Count and compress the last block. */
    method Finish()
      requires Valid()
      modifies this`t0, this`t1, this`h, this`last, this`treeFlag, buf
      ensures last && c.output(h) == Hash(c, h0, data, lastNode)
    {
      assert Inspect(true);
      assert buflen == |Tail(data)|;
      Count(64 * FullBlocks(|data|), buflen);
      if lastNode {
        treeFlag := true;
      }
      last := true;
      PadBuffer();
      assert t0 == CounterLow(|data|) && t1 == CounterHigh(|data|);
      h := c.compress(h, t0, t1, last, treeFlag, buf[..]);
    }

    /** The digest; a second call, or too little room, is refused. */
    method Final(outlen: nat) returns (out: Option<seq<byte>>)
      requires !last ==> Valid()
      modifies this`t0, this`t1, this`h, this`last, this`treeFlag, buf
      ensures out.None? <==> outlen < this.outlen || old(last)
      ensures out.Some? ==> out.value == Truncate(Hash(c, h0, data, lastNode), outlen) && last
    {
      if outlen < this.outlen {
        return None;
      }
      if last {
        return None;
      }
      Finish();
      out := Some(Truncate(c.output(h), outlen));
    }
  }

  predicate ValidLengths(outlen: nat, keylen: nat) {
    0 < outlen <= 32 && keylen <= 32
  }

  /** Start with a key, or without one. */
  method Init<W>(c: Core<W>, outlen: nat, key: seq<byte>) returns (s: Option<State<W>>)
    ensures s.Some? <==> 1 <= outlen <= 32 && |key| <= 32
    ensures s.Some? ==>
      && s.value.Valid() && fresh(s.value) && fresh(s.value.buf)
      && s.value.c == c && s.value.h0 == c.init(Sequential(outlen, |key|)) && s.value.data == KeyBlock(key)
      && s.value.outlen == outlen && !s.value.lastNode
  {
    if outlen == 0 || outlen > 32 {
      return None;
    }
    if |key| > 32 {
      return None;
    }
    var state := new State(c, Sequential(outlen, |key|), outlen);
    if |key| > 0 {
      state.Update(Pad(key));
    }
    s := Some(state);
  }

  /** The one-shot hash. */
  method OneShot<W>(c: Core<W>, outlen: nat, input: seq<byte>, key: seq<byte>) returns (out: Option<seq<byte>>)
    ensures out == if 1 <= outlen <= 32 && |key| <= 32 then Some(Digest(c, outlen, key, input)) else None
  {
    var s := Init(c, outlen, key);
    if s == None {
      return None;
    }
    s.value.Update(input);
    out := s.value.Final(outlen);
  }

  function Concat(chunks: seq<seq<byte>>): seq<byte> {
    if chunks == [] then [] else Concat(chunks[..|chunks| - 1]) + chunks[|chunks| - 1]
  }

  method UpdateAll<W>(state: State<W>, chunks: seq<seq<byte>>)
    requires state.Valid()
    modifies state`t0, state`t1, state`h, state`buflen, state`data, state.buf
    ensures state.Valid() && state.data == old(state.data) + Concat(chunks)
    decreases |chunks|
  {
    if chunks == [] {
      assert state.data + [] == state.data;
    } else {
      var n := |chunks| - 1;
      UpdateAll(state, chunks[..n]);
      state.Update(chunks[n]);
    }
  }

  /** However the message is cut, streaming gives the one-shot digest. */
  method Streamed<W>(c: Core<W>, outlen: nat, chunks: seq<seq<byte>>, key: seq<byte>) returns (out: Option<seq<byte>>)
    ensures out == if 1 <= outlen <= 32 && |key| <= 32 then Some(Digest(c, outlen, key, Concat(chunks))) else None
  {
    var s := Init(c, outlen, key);
    if s == None {
      return None;
    }
    UpdateAll(s.value, chunks);
    out := s.value.Final(outlen);
  }
}