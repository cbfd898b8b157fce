/** BLAKE2s on 32-bit words: the initial value and the compression function of
    sections 3.1 and 3.2 of RFC 7693, and the in-place code that computes it. */
module Blake2sWords {
  import opened Wrappers
  import opened Blake2s

  type word = bv32

  const IV: seq<word> := [
    0x6A09E667, 0xBB67AE85, 0x3C6EF372, 0xA54FF53A,
    0x510E527F, 0x9B05688C, 0x1F83D9AB, 0x5BE0CD19]

  const ROUNDS := 10
  const MIXINGS := 8  // in a round

  type slot = i: nat | i < 16

  /** The message schedule of round `r`. */
  function Sigma(r: nat): (row: seq<slot>)
    ensures |row| == 16
  {
    match r
    case 0 => [0, 1, 2, 3, 4, 5, 6, 7, 8, 9, 10, 11, 12, 13, 14, 15]
    case 1 => [14, 10, 4, 8, 9, 15, 13, 6, 1, 12, 0, 2, 11, 7, 5, 3]
    case 2 => [11, 8, 12, 0, 5, 2, 15, 13, 10, 14, 3, 6, 7, 1, 9, 4]
    case 3 => [7, 9, 3, 1, 13, 12, 11, 14, 2, 6, 5, 10, 4, 0, 15, 8]
    case 4 => [9, 0, 5, 7, 2, 4, 10, 15, 14, 1, 11, 12, 6, 8, 3, 13]
    case 5 => [2, 12, 6, 10, 0, 11, 8, 3, 4, 13, 7, 5, 15, 14, 1, 9]
    case 6 => [12, 5, 1, 15, 14, 13, 4, 10, 0, 7, 6, 3, 9, 2, 8, 11]
    case 7 => [13, 11, 7, 14, 12, 1, 3, 9, 5, 0, 15, 4, 8, 6, 2, 10]
    case 8 => [6, 15, 14, 9, 11, 3, 0, 8, 12, 2, 13, 7, 1, 4, 10, 5]
    case _ => [10, 2, 8, 4, 7, 6, 1, 5, 15, 11, 9, 14, 3, 12, 13, 0]
  }

  function Join32(a: byte, b: byte, c: byte, d: byte): word {
    (a as word) | ((b as word) << 8) | ((c as word) << 16) | ((d as word) << 24)
  }

  function Load32(s: seq<byte>, i: nat): word
    requires i + 4 <= |s|
  {
    Join32(s[i], s[i + 1], s[i + 2], s[i + 3])
  }

  function Store32(w: word): (s: seq<byte>)
    ensures |s| == 4
  {
    [(w & 0xFF) as byte, ((w >> 8) & 0xFF) as byte, ((w >> 16) & 0xFF) as byte, ((w >> 24) & 0xFF) as byte]
  }

  function Rotr(w: word, c: nat): word
    requires c <= 32
  {
    (w >> c) | (w << (32 - c))
  }

  /** Four different places in the working vector. */
  datatype Places = Places(a: slot, b: slot, c: slot, d: slot)
  type Quad = q: Places | q.a != q.b && q.a != q.c && q.a != q.d && q.b != q.c && q.b != q.d && q.c != q.d
    witness Places(0, 1, 2, 3)

  /** Where the i-th mixing of a round acts: four columns, then four diagonals. */
  function Lanes(i: nat): Quad {
    var j := i % 4;
    if i < 4 then Places(j, 4 + j, 8 + j, 12 + j)
    else Places(j, 4 + (j + 1) % 4, 8 + (j + 2) % 4, 12 + (j + 3) % 4)
  }

  /** The operations on words and the two tables that the rounds use. The
      rounds are stated for any of these, so no proof about them looks inside. */
  datatype WordOps<!W> = WordOps(
    add: (W, W) -> W,
    xor: (W, W) -> W,
    rotr: (W, nat) -> W,
    sigma: (nat, nat) -> slot,
    lanes: nat -> Quad)

  function Plus(a: word, b: word): word {
    a + b
  }

  function Flip(a: word, b: word): word {
    a ^ b
  }

  const WORD32: WordOps<word> := WordOps(
    Plus,
    Flip,
    (w, c) => if c <= 32 then Rotr(w, c) else w,
    (r: nat, i: nat) => if i < 16 then Sigma(r)[i] else 0,
    Lanes)

  /** Half a mixing: one word of the message, two rotations. */
  function HalfG<W>(o: WordOps<W>, a: W, b: W, c: W, d: W, x: W, r1: nat, r2: nat): (W, W, W, W) {
    var a' := o.add(o.add(a, b), x);
    var d' := o.rotr(o.xor(d, a'), r1);
    var c' := o.add(c, d');
    var b' := o.rotr(o.xor(b, c'), r2);
    (a', b', c', d')
  }

  /** Four words of the working vector, mixed with two words of the message. */
  function G<W>(o: WordOps<W>, a: W, b: W, c: W, d: W, x: W, y: W): (W, W, W, W) {
    var (a', b', c', d') := HalfG(o, a, b, c, d, x, 16, 12);
    HalfG(o, a', b', c', d', y, 8, 7)
  }

  function MixAt<W>(o: WordOps<W>, v: seq<W>, i: nat, x: W, y: W): (v': seq<W>)
    requires |v| == 16 && i < MIXINGS
    ensures |v'| == 16
  {
    var Places(a, b, c, d) := o.lanes(i);
    var (p, q, r, s) := G(o, v[a], v[b], v[c], v[d], x, y);
    seq(16, j requires 0 <= j < 16 => if j == a then p else if j == b then q else if j == c then r else if j == d then s else v[j])
  }

  /** The first `i` mixings of round `r`. */
  function Round<W>(o: WordOps<W>, v: seq<W>, m: seq<W>, r: nat, i: nat): (v': seq<W>)
    requires |v| == |m| == 16 && r < ROUNDS && i <= MIXINGS
    ensures |v'| == 16
  {
    if i == 0 then v
    else MixAt(o, Round(o, v, m, r, i - 1), i - 1, m[o.sigma(r, 2 * i - 2)], m[o.sigma(r, 2 * i - 1)])
  }

  function Rounds<W>(o: WordOps<W>, v: seq<W>, m: seq<W>, r: nat): (v': seq<W>)
    requires |v| == |m| == 16 && r <= ROUNDS
    ensures |v'| == 16
  {
    if r == 0 then v else Round(o, Rounds(o, v, m, r - 1), m, r - 1, MIXINGS)
  }

  /** The new chaining value: the old one and both halves of the working vector. */
  function Blend<W>(o: WordOps<W>, h: seq<W>, v: seq<W>): (h': seq<W>)
    requires |h| == 8 && |v| == 16
    ensures |h'| == 8
  {
    seq(8, i requires 0 <= i < 8 => o.xor(o.xor(h[i], v[i]), v[i + 8]))
  }

  function LoadBlock(block: seq<byte>): (m: seq<word>)
    requires |block| == 64
    ensures |m| == 16
  {
    seq(16, i requires 0 <= i < 16 => Load32(block, 4 * i))
  }

  function Flag(b: bool): word {
    if b then 0xFFFF_FFFF else 0
  }

  function WorkTail(t0: uint32, t1: uint32, last: bool, lastNode: bool): (v: seq<word>)
    ensures |v| == 8
  {
    [IV[0], IV[1], IV[2], IV[3], t0 as word ^ IV[4], t1 as word ^ IV[5], Flag(last) ^ IV[6], Flag(lastNode) ^ IV[7]]
  }

  /** The working vector before the first round. */
  function WorkVector(h: seq<word>, t0: uint32, t1: uint32, last: bool, lastNode: bool): (v: seq<word>)
    requires |h| == 8
    ensures |v| == 16
  {
    h + WorkTail(t0, t1, last, lastNode)
  }

  /** The compression function F with both flag words. */
  function Compress(h: seq<word>, t0: uint32, t1: uint32, last: bool, lastNode: bool, block: seq<byte>): (h': seq<word>)
    requires |h| == 8 && |block| == 64
    ensures |h'| == 8
  {
    Blend(WORD32, h, Rounds(WORD32, WorkVector(h, t0, t1, last, lastNode), LoadBlock(block), ROUNDS))
  }

  function Flatten(h: seq<word>): (s: seq<byte>)
    ensures |s| == 4 * |h|
  {
    if h == [] then [] else Flatten(h[..|h| - 1]) + Store32(h[|h| - 1])
  }

  function ParamBytes(p: Param): (s: seq<byte>)
    ensures |s| == 32
  {
    [p.digestLength, p.keyLength, p.fanout, p.depth]
    + Store32(p.leafLength as word) + Store32(p.nodeOffset as word)
    + [0, 0, p.nodeDepth, p.innerLength]
    + Zeros(16)
  }

  function InitialValue(p: Param): (h: seq<word>)
    ensures |h| == 8
  {
    seq(8, i requires 0 <= i < 8 => IV[i] ^ Load32(ParamBytes(p), 4 * i))
  }

  /** BLAKE2s proper, as an instance of the hash that the streaming code computes. */
  const BLAKE2S: Core<word> := Core(
    InitialValue,
    (h: seq<word>, t0: uint32, t1: uint32, last: bool, lastNode: bool, block: seq<byte>) =>
      CompressAny(h, t0, t1, last, lastNode, block),
    Flatten)

  /** The compression on every argument; `ChainOfWords` shows that only those of
      the right length come up. */
  function CompressAny(h: seq<word>, t0: uint32, t1: uint32, last: bool, lastNode: bool, block: seq<byte>): (h': seq<word>)
    ensures |h'| == |h|
  {
    if |h| == 8 && |block| == 64 then Compress(h, t0, t1, last, lastNode, block) else h
  }

  /** Without a tree, the initial value is the one of section 3.3 of RFC 7693. */
  lemma SequentialInitialValue(outlen: byte, keylen: byte)
    ensures InitialValue(Sequential(outlen, keylen)) ==
            IV[0 := IV[0] ^ 0x01010000 ^ ((keylen as word) << 8) ^ (outlen as word)]
  {
    var p := ParamBytes(Sequential(outlen, keylen));
    assert p[..4] == [outlen, keylen, 1, 1];
    assert forall i :: 4 <= i < 32 ==> p[i] == 0;
    JoinedLengths(outlen, keylen);
  }

  lemma {:induction false} JoinedLengths(outlen: byte, keylen: byte)
    ensures Join32(outlen, keylen, 1, 1) == 0x01010000 ^ ((keylen as word) << 8) ^ (outlen as word)
    ensures Join32(0, 0, 0, 0) == 0
  {
  }

  method MixHalf<W>(o: WordOps<W>, v: array<W>, a: nat, b: nat, c: nat, d: nat, x: W, r1: nat, r2: nat)
    requires a < v.Length && b < v.Length && c < v.Length && d < v.Length
    requires a != b && a != c && a != d && b != c && b != d && c != d
    modifies v
    ensures (v[a], v[b], v[c], v[d]) == HalfG(o, old(v[a]), old(v[b]), old(v[c]), old(v[d]), x, r1, r2)
    ensures forall j :: 0 <= j < v.Length && j != a && j != b && j != c && j != d ==> v[j] == old(v[j])
  {
    v[a] := o.add(o.add(v[a], v[b]), x);
    v[d] := o.rotr(o.xor(v[d], v[a]), r1);
    v[c] := o.add(v[c], v[d]);
    v[b] := o.rotr(o.xor(v[b], v[c]), r2);
  }

  /** Mix four distinct words of the working vector, in place. */
  method MixLanes<W>(o: WordOps<W>, v: array<W>, a: nat, b: nat, c: nat, d: nat, x: W, y: W)
    requires a < v.Length && b < v.Length && c < v.Length && d < v.Length
    requires a != b && a != c && a != d && b != c && b != d && c != d
    modifies v
    ensures var (p, q, r, s) := G(o, old(v[a]), old(v[b]), old(v[c]), old(v[d]), x, y);
            && v[a] == p && v[b] == q && v[c] == r && v[d] == s
            && forall j :: 0 <= j < v.Length && j != a && j != b && j != c && j != d ==> v[j] == old(v[j])
  {
    MixHalf(o, v, a, b, c, d, x, 16, 12);
    MixHalf(o, v, a, b, c, d, y, 8, 7);
  }

  method MixLane<W>(o: WordOps<W>, v: array<W>, i: nat, x: W, y: W)
    requires v.Length == 16 && i < MIXINGS
    modifies v
    ensures v[..] == MixAt(o, old(v[..]), i, x, y)
  {
    var Places(a, b, c, d) := o.lanes(i);
    MixLanes(o, v, a, b, c, d, x, y);
  }

  /** The `i`-th mixing of a round that began with `start`. */
  method Mix<W>(o: WordOps<W>, v: array<W>, m: array<W>, r: nat, i: nat, ghost start: seq<W>)
    requires v.Length == m.Length == |start| == 16 && v != m && r < ROUNDS && i < MIXINGS
    requires v[..] == Round(o, start, m[..], r, i)
    modifies v
    ensures v[..] == Round(o, start, m[..], r, i + 1) && m[..] == old(m[..])
  {
    RoundStep(o, start, m[..], r, i);
    MixLane(o, v, i, m[o.sigma(r, 2 * i)], m[o.sigma(r, 2 * i + 1)]);
  }

  lemma {:induction false} RoundStep<W>(o: WordOps<W>, v: seq<W>, m: seq<W>, r: nat, i: nat)
    requires |v| == |m| == 16 && r < ROUNDS && i < MIXINGS
    ensures Round(o, v, m, r, i + 1) ==
            MixAt(o, Round(o, v, m, r, i), i, m[o.sigma(r, 2 * i)], m[o.sigma(r, 2 * i + 1)])
  {
    assert 2 * (i + 1) - 2 == 2 * i && 2 * (i + 1) - 1 == 2 * i + 1;
  }

  /** Round `r` of a compression that began with `start`. */
  method MixRound<W>(o: WordOps<W>, v: array<W>, m: array<W>, r: nat, ghost start: seq<W>)
    requires v.Length == m.Length == |start| == 16 && v != m && r < ROUNDS
    requires v[..] == Rounds(o, start, m[..], r)
    modifies v
    ensures v[..] == Rounds(o, start, m[..], r + 1) && m[..] == old(m[..])
  {
    ghost var v0, message := v[..], m[..];
    for i := 0 to MIXINGS
      invariant v[..] == Round(o, v0, message, r, i) && m[..] == message
    {
      Mix(o, v, m, r, i, v0);
    }
  }

  method MixAll<W>(o: WordOps<W>, v: array<W>, m: array<W>)
    requires v.Length == m.Length == 16 && v != m
    modifies v
    ensures v[..] == Rounds(o, old(v[..]), m[..], ROUNDS)
  {
    ghost var start, message := v[..], m[..];
    for r := 0 to ROUNDS
      invariant v[..] == Rounds(o, start, message, r) && m[..] == message
    {
      MixRound(o, v, m, r, start);
    }
  }

  method BlendInto<W>(o: WordOps<W>, h: array<W>, v: array<W>)
    requires h.Length == 8 && v.Length == 16 && h != v
    modifies h
    ensures h[..] == Blend(o, old(h[..]), v[..])
  {
    for i := 0 to 8
      invariant forall j :: 0 <= j < i ==> h[j] == o.xor(o.xor(old(h[j]), v[j]), v[j + 8])
      invariant forall j :: i <= j < 8 ==> h[j] == old(h[j])
      invariant v[..] == old(v[..])
    {
      h[i] := o.xor(o.xor(h[i], v[i]), v[i + 8]);
    }
  }

  /** The working vector: the chaining value, then the constants, counter and flags. */
  method LoadVector<W(0)>(h: array<W>, rest: seq<W>) returns (v: array<W>)
    requires h.Length == |rest| == 8
    ensures fresh(v) && v[..] == h[..] + rest
  {
    v := new W[16];
    for i := 0 to 8
      invariant v[..i] == h[..i]
    {
      v[i] := h[i];
    }
    for i := 0 to 8
      invariant v[..8 + i] == h[..] + rest[..i]
    {
      v[8 + i] := rest[i];
    }
  }

  /** The compression, on a local working vector, updating `h` in place. */
  method CompressInto(h: array<word>, t0: uint32, t1: uint32, last: bool, lastNode: bool, block: seq<byte>)
    requires h.Length == 8 && |block| == 64
    modifies h
    ensures h[..] == Compress(old(h[..]), t0, t1, last, lastNode, block)
  {
    var m := new word[16](i requires 0 <= i < 16 => Load32(block, 4 * i));
    assert m[..] == LoadBlock(block);
    var v := LoadVector(h, WorkTail(t0, t1, last, lastNode));
    MixAll(WORD32, v, m);
    BlendInto(WORD32, h, v);
  }

  // ----- the hash on words -----

  lemma CompressWords(h: seq<word>, t0: uint32, t1: uint32, last: bool, lastNode: bool, block: seq<byte>)
    requires |h| == 8 && |block| == 64
    ensures CompressAny(h, t0, t1, last, lastNode, block) == Compress(h, t0, t1, last, lastNode, block)
  {
  }

  lemma ChainStep(h0: seq<word>, data: seq<byte>, n: nat)
    requires 0 < n && 64 * n <= |data|
    ensures Chain(BLAKE2S, h0, data, n) ==
            CompressAny(Chain(BLAKE2S, h0, data, n - 1), CounterLow(64 * n), CounterHigh(64 * n), false, false,
                        Block(data, n - 1))
  {
  }

  ghost predicate KeepsLength<W(!new)>(compress: (seq<W>, uint32, uint32, bool, bool, seq<byte>) -> seq<W>) {
    forall h, t0, t1, last, lastNode, block :: |compress(h, t0, t1, last, lastNode, block)| == |h|
  }

  lemma {:induction false} ChainKeepsLength<W(!new)>(c: Core<W>, h0: seq<W>, data: seq<byte>, n: nat)
    requires 64 * n <= |data| && KeepsLength(c.compress)
    ensures |Chain(c, h0, data, n)| == |h0|
  {
    if n > 0 {
      ChainKeepsLength(c, h0, data, n - 1);
    }
  }

  lemma ChainLength(h0: seq<word>, data: seq<byte>, n: nat)
    requires 64 * n <= |data|
    ensures |Chain(BLAKE2S, h0, data, n)| == |h0|
  {
    ChainKeepsLength(BLAKE2S, h0, data, n);
  }

  /** Chaining values stay eight words long, so each comes from the one before
      by the compression that `CompressInto` computes. */
  lemma ChainOfWords(h0: seq<word>, data: seq<byte>, n: nat)
    requires |h0| == 8 && 64 * n <= |data|
    ensures |Chain(BLAKE2S, h0, data, n)| == 8
    ensures n > 0 ==>
              && |Chain(BLAKE2S, h0, data, n - 1)| == 8
              && Chain(BLAKE2S, h0, data, n) ==
                 Compress(Chain(BLAKE2S, h0, data, n - 1), (64 * n) % 0x1_0000_0000, (64 * n) / 0x1_0000_0000 % 0x1_0000_0000,
                          false, false, data[64 * (n - 1)..64 * n])
  {
    ChainLength(h0, data, n);
    if n > 0 {
      ChainLength(h0, data, n - 1);
      ChainStep(h0, data, n);
      CompressWords(Chain(BLAKE2S, h0, data, n - 1), CounterLow(64 * n), CounterHigh(64 * n), false, false,
                    Block(data, n - 1));
    }
  }

  /** The last compression, and the bytes of its words. */
  function HashOfWords(p: Param, data: seq<byte>, lastNode: bool): (s: seq<byte>)
    ensures |s| == 32
  {
    var h0 := InitialValue(p);
    var n := FullBlocks(|data|);
    ChainOfWords(h0, data, n);
    Flatten(Compress(Chain(BLAKE2S, h0, data, n), CounterLow(|data|), CounterHigh(|data|), true, lastNode,
                     Pad(Tail(data))))
  }

  lemma WordsAreHashed(p: Param, data: seq<byte>, lastNode: bool)
    ensures Hash(BLAKE2S, BLAKE2S.init(p), data, lastNode) == HashOfWords(p, data, lastNode)
  {
    var h0, n := InitialValue(p), FullBlocks(|data|);
    ChainOfWords(h0, data, n);
    CompressWords(Chain(BLAKE2S, h0, data, n), CounterLow(|data|), CounterHigh(|data|), true, lastNode, Pad(Tail(data)));
  }

  /** BLAKE2s of a message in chunks: the key block goes first. */
  method StreamedBlake2s(outlen: nat, chunks: seq<seq<byte>>, key: seq<byte>) returns (out: Option<seq<byte>>)
    ensures out.Some? <==> 1 <= outlen <= 32 && |key| <= 32
    ensures out.Some? ==>
              out.value == HashOfWords(Sequential(outlen, |key|), KeyBlock(key) + Concat(chunks), false)[..outlen]
  {
    out := Streamed(BLAKE2S, outlen, chunks, key);
    if out.Some? {
      WordsAreHashed(Sequential(outlen, |key|), KeyBlock(key) + Concat(chunks), false);
    }
  }
}
