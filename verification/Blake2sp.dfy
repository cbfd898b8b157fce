/** BLAKE2sp: eight BLAKE2s leaves over an eight-way striped message, and a
    root over their hashes. Streaming and one-shot both give the digest below.
    A block is 64 bytes, a superblock is eight blocks, one for each leaf. */
module Blake2sp {
  import opened Wrappers
  import opened Blake2s

  // ----- the stripes of a message -----

  /** The number of 64-byte blocks of a message, the last perhaps short. */
  function Blocks(len: nat): nat {
    if len == 0 then 0 else FullBlocks(len) + 1
  }

  /** Block `b` of a message. */
  function Piece(d: seq<byte>, b: nat): seq<byte> {
    if 64 * b >= |d| then []
    else if 64 * (b + 1) <= |d| then d[64 * b..64 * (b + 1)]
    else d[64 * b..]
  }

  /** The blocks with index `i` modulo 8, among the first `n`, in order. */
  function Stripe(d: seq<byte>, i: nat, n: nat): seq<byte> {
    if n == 0 then []
    else Stripe(d, i, n - 1) + (if (n - 1) % 8 == i then Piece(d, n - 1) else [])
  }

  function LeafParam(outlen: byte, keylen: byte, i: nat): Param
    requires i < 8
  {
    Param(outlen, keylen, 8, 2, 0, i, 0, 32)
  }

  function RootParam(outlen: byte, keylen: byte): Param {
    Param(outlen, keylen, 8, 2, 0, 0, 1, 32)
  }

  function LeafHash<W>(c: Core<W>, outlen: byte, key: seq<byte>, d: seq<byte>, i: nat): seq<byte>
    requires |key| <= 32 && i < 8
  {
    Truncate(Hash(c, c.init(LeafParam(outlen, |key|, i)), KeyBlock(key) + Stripe(d, i, Blocks(|d|)), i == 8 - 1),
             32)
  }

  function LeafHashes<W>(c: Core<W>, outlen: byte, key: seq<byte>, d: seq<byte>): seq<seq<byte>>
    requires |key| <= 32
  {
    seq(8, i requires 0 <= i < 8 => LeafHash(c, outlen, key, d, i))
  }

  function TreeDigest<W>(c: Core<W>, outlen: byte, key: seq<byte>, d: seq<byte>): seq<byte>
    requires |key| <= 32
  {
    Truncate(Hash(c, c.init(RootParam(outlen, |key|)), Concat(LeafHashes(c, outlen, key, d)), true), outlen)
  }

  // ----- the stripes are a partition -----

  /** More blocks only add to the end of a stripe. */
  lemma {:induction false} StripeExtends(d: seq<byte>, i: nat, k: nat, n: nat)
    requires k <= n
    ensures Stripe(d, i, k) <= Stripe(d, i, n)
  {
    if k < n {
      StripeExtends(d, i, k, n - 1);
    }
  }

  lemma StripeLast(d: seq<byte>, m: nat, i: nat)
    requires i < 8 && 512 * m + 64 * i < |d|
    ensures |Stripe(d, i, 8 * m)| == 64 * m
    ensures Stripe(d, i, 8 * m + i + 1) == Stripe(d, i, 8 * m) + Piece(d, 8 * m + i)
  {
    WholeStripe(d, i, m);
    StripeGrows(d, i, m, i + 1);
  }

  lemma PieceAt(d: seq<byte>, b: nat, r: nat)
    requires r < 64 && 64 * b + r < |d|
    ensures r < |Piece(d, b)| && Piece(d, b)[r] == d[64 * b + r]
  {
  }

  lemma {:induction false} IndexInPrefix<T>(a: seq<T>, b: seq<T>, s: seq<T>, r: nat)
    requires a + b <= s && r < |b|
    ensures |a| + r < |s| && s[|a| + r] == b[r]
  {
    assert (a + b)[|a| + r] == b[r];
  }

  /** Byte `r` of block `8 * m + i` is byte `64 * m + r` of stripe `i`. */
  lemma {:induction false} StripeAt(d: seq<byte>, m: nat, i: nat, r: nat, n: nat)
    requires i < 8 && r < 64 && 8 * m + i < n
    requires 512 * m + 64 * i + r < |d|
    ensures 64 * m + r < |Stripe(d, i, n)|
    ensures Stripe(d, i, n)[64 * m + r] == d[512 * m + 64 * i + r]
  {
    StripeLast(d, m, i);
    PieceAt(d, 8 * m + i, r);
    StripeExtends(d, i, 8 * m + i + 1, n);
    IndexInPrefix(Stripe(d, i, 8 * m), Piece(d, 8 * m + i), Stripe(d, i, n), r);
  }

  lemma {:induction false} WholeStripe(d: seq<byte>, i: nat, m: nat)
    requires i < 8 && 512 * m <= |d|
    ensures |Stripe(d, i, 8 * m)| == 64 * m
  {
    if m > 0 {
      WholeStripe(d, i, m - 1);
      StripeGrows(d, i, m - 1, 8);
    }
  }

  function StripeLengths(d: seq<byte>, n: nat, leaves: nat): nat {
    if leaves == 0 then 0 else StripeLengths(d, n, leaves - 1) + |Stripe(d, leaves - 1, n)|
  }

  lemma {:induction false} StripeLengthsGrow(d: seq<byte>, n: nat, leaves: nat)
    requires leaves <= 8
    ensures StripeLengths(d, n + 1, leaves) ==
            StripeLengths(d, n, leaves) + if n % 8 < leaves then |Piece(d, n)| else 0
  {
    if leaves > 0 {
      StripeLengthsGrow(d, n, leaves - 1);
    }
  }

  /** The eight stripes have exactly the bytes of the message between them. */
  lemma {:induction false} StripesCoverMessage(d: seq<byte>, n: nat)
    ensures StripeLengths(d, n, 8) == if 64 * n <= |d| then 64 * n else |d|
  {
    if n > 0 {
      StripesCoverMessage(d, n - 1);
      StripeLengthsGrow(d, n - 1, 8);
    } else {
      NoBlocks(d, 8);
    }
  }

  lemma {:induction false} NoBlocks(d: seq<byte>, leaves: nat)
    ensures StripeLengths(d, 0, leaves) == 0
  {
    if leaves > 0 {
      NoBlocks(d, leaves - 1);
    }
  }

  // ----- stripes grow by one block a superblock -----

  lemma {:induction false} StripePrefix(d: seq<byte>, more: seq<byte>, i: nat, n: nat)
    requires 64 * n <= |d|
    ensures Stripe(d + more, i, n) == Stripe(d, i, n)
  {
    if n > 0 {
      StripePrefix(d, more, i, n - 1);
      assert Piece(d + more, n - 1) == Piece(d, n - 1);
    }
  }

  lemma RemainderOfEight(m: nat, k: nat)
    requires k < 8
    ensures (8 * m + k) % 8 == k
  {
  }

  /** The part of a superblock that falls to stripe `i`, after its first `k` blocks. */
  lemma {:induction false} StripeGrows(d: seq<byte>, i: nat, m: nat, k: nat)
    requires i < 8 && k <= 8
    ensures Stripe(d, i, 8 * m + k) ==
            Stripe(d, i, 8 * m) + if i < k then Piece(d, 8 * m + i) else []
  {
    if k > 0 {
      StripeGrows(d, i, m, k - 1);
      RemainderOfEight(m, k - 1);
    }
  }

  /** The number of whole superblocks. */
  function Supers(len: nat): (m: nat)
    ensures 512 * m <= len < 512 * (m + 1)
  {
    if len < 512 then 0 else 1 + Supers(len - 512)
  }

  /** Stripe `i` of the first `m` superblocks. */
  function Striped(d: seq<byte>, i: nat, m: nat): seq<byte> {
    Stripe(d, i, 8 * m)
  }

  lemma StripedGrows(d: seq<byte>, i: nat, m: nat)
    requires i < 8 && 512 * (m + 1) <= |d|
    ensures Striped(d, i, m + 1) ==
            Striped(d, i, m) + d[512 * m + 64 * i..512 * m + 64 * (i + 1)]
  {
    StripeGrows(d, i, m, 8);
  }

  /** The bytes of the last, partial superblock `r` that fall to leaf `i`. */
  function Share(r: seq<byte>, i: nat): seq<byte> {
    if |r| <= 64 * i then []
    else if |r| - 64 * i > 64 then r[64 * i..64 * (i + 1)]
    else r[64 * i..]
  }

  lemma {:induction false} SubSlice<T>(s: seq<T>, a: nat, b: nat, c: nat, d: nat)
    requires a <= b <= |s| && c <= d <= b - a
    ensures s[a..b][c..d] == s[a + c..a + d]
  {
    var x, y := s[a..b][c..d], s[a + c..a + d];
    assert |x| == |y| && forall k :: 0 <= k < |x| ==> x[k] == y[k];
  }

  lemma ShareIsPiece(d: seq<byte>, i: nat, m: nat)
    requires 512 * m <= |d| < 512 * (m + 1)
    ensures Share(d[512 * m..], i) == Piece(d, 8 * m + i)
  {
    var at := 512 * m + 64 * i;
    assert 64 * (8 * m + i) == at;
    if at + 64 <= |d| {
      SubSlice(d, 512 * m, |d|, 64 * i, 64 * (i + 1));
    } else if at <= |d| {
      SubSlice(d, 512 * m, |d|, 64 * i, |d| - 512 * m);
    }
  }

  /** Whole superblocks, then a share of the rest: the whole stripe. */
  lemma StripeEnds(d: seq<byte>, i: nat, m: nat)
    requires i < 8 && 512 * m <= |d| < 512 * (m + 1)
    ensures Stripe(d, i, Blocks(|d|)) == Striped(d, i, m) + Share(d[512 * m..], i)
  {
    var k := Blocks(|d|) - 8 * m;
    assert 0 <= k <= 8;
    StripeGrows(d, i, m, k);
    ShareIsPiece(d, i, m);
    assert i >= k ==> Piece(d, 8 * m + i) == [];
  }

  // ----- the streaming state -----

  /** Leaf `i` has absorbed the key and stripe `i` of `m` superblocks of `d`. */
  ghost predicate LeafOk<W>(s: State<W>, c: Core<W>, outlen: byte, key: seq<byte>, i: nat, absorbed: seq<byte>)
    requires |key| <= 32 && i < 8
    reads s, s.buf
  {
    && s.Valid() && s.c == c && s.h0 == c.init(LeafParam(outlen, |key|, i))
    && s.outlen == 32 && s.lastNode == (i == 8 - 1)
    && s.data == KeyBlock(key) + absorbed
  }

  /** Give leaf `i` the blocks of `input` that are its own, superblock by superblock. */
  method FeedLeaf<W>(s: State<W>, ghost outlen: byte, ghost key: seq<byte>, i: nat,
                     input: seq<byte>, ghost d: seq<byte>, ghost m: nat)
    requires |key| <= 32 && i < 8
    requires if |input| < 512 then m == Supers(|d|) else 512 * m <= |d| && input == d[512 * m..]
    requires LeafOk(s, s.c, outlen, key, i, Striped(d, i, m))
    modifies s`t0, s`t1, s`h, s`buflen, s`data, s.buf
    ensures LeafOk(s, s.c, outlen, key, i, Striped(d, i, Supers(|d|)))
  {
    var left := |input|;
    var at := 64 * i;
    ghost var k := m;
    while left >= 512
      invariant k >= m && at == 512 * (k - m) + 64 * i
      invariant left >= 0 && left == |input| - 512 * (k - m)
      invariant LeafOk(s, s.c, outlen, key, i, Striped(d, i, k))
    {
      var block := input[at..at + 64];
      StripedGrows(d, i, k);
      assert block == d[512 * k + 64 * i..512 * k + 64 * (i + 1)];
      LeafUpdate(s, outlen, key, i, Striped(d, i, k), block);
      at := at + 512;
      left := left - 512;
      k := k + 1;
    }
    assert k == Supers(|d|);
  }

  method LeafUpdate<W>(s: State<W>, ghost outlen: byte, ghost key: seq<byte>, ghost i: nat,
                       ghost absorbed: seq<byte>, block: seq<byte>)
    requires |key| <= 32 && i < 8 && LeafOk(s, s.c, outlen, key, i, absorbed)
    modifies s`t0, s`t1, s`h, s`buflen, s`data, s.buf
    ensures LeafOk(s, s.c, outlen, key, i, absorbed + block)
  {
    s.Update(block);
  }

  /** Eight leaves that share no memory. */
  ghost predicate Apart<W>(ls: seq<State<W>>) {
    && |ls| == 8
    && forall i, j :: 0 <= i < j < 8 ==> ls[i] != ls[j] && ls[i].buf != ls[j].buf
  }

  ghost function Bufs<W>(ls: seq<State<W>>): set<array<byte>> {
    set l | l in ls :: l.buf
  }

  /** Every leaf has its stripe of the first `m` superblocks of `d`. */
  ghost predicate LeavesOk<W>(ls: seq<State<W>>, c: Core<W>, outlen: byte, key: seq<byte>, d: seq<byte>, m: nat)
    requires |ls| == 8 && |key| <= 32
    reads ls, Bufs(ls)
  {
    forall i :: 0 <= i < 8 ==> LeafOk(ls[i], c, outlen, key, i, Striped(d, i, m))
  }

  method MakeLeaves<W>(c: Core<W>, outlen: byte, key: seq<byte>) returns (ls: seq<State<W>>)
    requires |key| <= 32
    ensures Apart(ls) && forall l <- ls :: fresh(l) && fresh(l.buf)
    ensures LeavesOk(ls, c, outlen, key, [], 0)
  {
    ls := [];
    for i := 0 to 8
      invariant |ls| == i && forall l <- ls :: fresh(l) && fresh(l.buf)
      invariant forall j, k :: 0 <= j < k < i ==> ls[j] != ls[k] && ls[j].buf != ls[k].buf
      invariant forall j :: 0 <= j < i ==> LeafOk(ls[j], c, outlen, key, j, [])
    {
      var s := MakeLeaf(c, outlen, key, i);
      ls := ls + [s];
    }
  }

  method MakeLeaf<W>(c: Core<W>, outlen: byte, key: seq<byte>, i: nat) returns (s: State<W>)
    requires |key| <= 32 && i < 8
    ensures fresh(s) && fresh(s.buf) && LeafOk(s, c, outlen, key, i, [])
  {
    s := new State(c, LeafParam(outlen, |key|, i), 32);
    if i == 8 - 1 {
      s.SetLastNode();
    }
    if |key| > 0 {
      s.Update(Pad(key));
    }
    assert s.data == KeyBlock(key) + [];
  }

  /** Feed every leaf its blocks of all whole superblocks of `input`. */
  method FeedLeaves<W>(ls: seq<State<W>>, ghost c: Core<W>, ghost outlen: byte, ghost key: seq<byte>,
                       input: seq<byte>, ghost d: seq<byte>, ghost m: nat)
    requires Apart(ls) && |key| <= 32 && LeavesOk(ls, c, outlen, key, d, m)
    requires if |input| < 512 then m == Supers(|d|) else 512 * m <= |d| && input == d[512 * m..]
    modifies ls, Bufs(ls)
    ensures LeavesOk(ls, c, outlen, key, d, Supers(|d|))
  {
    for i := 0 to 8
      invariant forall j :: 0 <= j < i ==> LeafOk(ls[j], c, outlen, key, j, Striped(d, j, Supers(|d|)))
      invariant forall j :: i <= j < 8 ==> LeafOk(ls[j], c, outlen, key, j, Striped(d, j, m))
    {
      FeedLeaf(ls[i], outlen, key, i, input, d, m);
    }
  }

  /** Hand the eight blocks of one superblock to the eight leaves. */
  method FeedSuper<W>(ls: seq<State<W>>, ghost c: Core<W>, ghost outlen: byte, ghost key: seq<byte>,
                      block: seq<byte>, ghost d: seq<byte>, ghost m: nat)
    requires Apart(ls) && |key| <= 32 && LeavesOk(ls, c, outlen, key, d, m)
    requires 512 * (m + 1) <= |d| && block == d[512 * m..512 * (m + 1)]
    modifies ls, Bufs(ls)
    ensures LeavesOk(ls, c, outlen, key, d, m + 1)
  {
    for i := 0 to 8
      invariant forall j :: 0 <= j < i ==> LeafOk(ls[j], c, outlen, key, j, Striped(d, j, m + 1))
      invariant forall j :: i <= j < 8 ==> LeafOk(ls[j], c, outlen, key, j, Striped(d, j, m))
    {
      FeedPart(ls[i], outlen, key, i, block, d, m);
    }
  }

  method FeedPart<W>(s: State<W>, ghost outlen: byte, ghost key: seq<byte>, i: nat,
                     block: seq<byte>, ghost d: seq<byte>, ghost m: nat)
    requires |key| <= 32 && i < 8
    requires 512 * (m + 1) <= |d| && block == d[512 * m..512 * (m + 1)]
    requires LeafOk(s, s.c, outlen, key, i, Striped(d, i, m))
    modifies s`t0, s`t1, s`h, s`buflen, s`data, s.buf
    ensures LeafOk(s, s.c, outlen, key, i, Striped(d, i, m + 1))
  {
    var part := block[64 * i..64 * (i + 1)];
    StripedGrows(d, i, m);
    SubSlice(d, 512 * m, 512 * (m + 1), 64 * i, 64 * (i + 1));
    LeafUpdate(s, outlen, key, i, Striped(d, i, m), part);
  }

  /** Give every leaf its share of the rest and collect the eight hashes. */
  method FinishLeaves<W>(ls: seq<State<W>>, c: Core<W>, ghost outlen: byte, ghost key: seq<byte>,
                         rest: seq<byte>, ghost d: seq<byte>) returns (hashes: seq<seq<byte>>)
    requires Apart(ls) && |key| <= 32 && LeavesOk(ls, c, outlen, key, d, Supers(|d|))
    requires rest == d[512 * Supers(|d|)..]
    modifies ls, Bufs(ls)
    ensures hashes == LeafHashes(c, outlen, key, d)
  {
    hashes := [];
    for i := 0 to 8
      invariant |hashes| == i && forall j :: 0 <= j < i ==> hashes[j] == LeafHash(c, outlen, key, d, j)
      invariant forall j :: i <= j < 8 ==> LeafOk(ls[j], c, outlen, key, j, Striped(d, j, Supers(|d|)))
    {
      var h := FinishLeaf(ls[i], outlen, key, i, rest, d);
      hashes := hashes + [h];
    }
  }

  method FinishLeaf<W>(s: State<W>, ghost outlen: byte, ghost key: seq<byte>, i: nat,
                       rest: seq<byte>, ghost d: seq<byte>) returns (hash: seq<byte>)
    requires |key| <= 32 && i < 8
    requires LeafOk(s, s.c, outlen, key, i, Striped(d, i, Supers(|d|)))
    requires rest == d[512 * Supers(|d|)..]
    modifies s, s.buf
    ensures hash == LeafHash(s.c, outlen, key, d, i)
  {
    StripeEnds(d, i, Supers(|d|));
    if |rest| > 64 * i {
      var left := |rest| - 64 * i;
      if left > 64 {
        left := 64;
      }
      var part := rest[64 * i..64 * i + left];
      assert part == Share(rest, i);
      LeafUpdate(s, outlen, key, i, Striped(d, i, Supers(|d|)), part);
    } else {
      assert Striped(d, i, Supers(|d|)) + [] == Striped(d, i, Supers(|d|));
    }
    var out := s.Final(32);
    hash := out.value;
  }

  /** Hash the eight leaf hashes at the root. */
  method FinishRoot<W>(root: State<W>, ghost outlen: byte, room: nat, ghost key: seq<byte>, hashes: seq<seq<byte>>)
    returns (out: Option<seq<byte>>)
    requires |key| <= 32 && RootOk(root, root.c, outlen, key) && room >= outlen
    modifies root, root.buf
    ensures out == Some(Truncate(Hash(root.c, root.c.init(RootParam(outlen, |key|)), Concat(hashes), true), room))
  {
    for i := 0 to |hashes|
      invariant root.Valid() && root.h0 == root.c.init(RootParam(outlen, |key|))
      invariant root.outlen == outlen && root.lastNode
      invariant root.data == Concat(hashes[..i])
    {
      root.Update(hashes[i]);
      assert hashes[..i + 1][..i] == hashes[..i];
    }
    assert hashes[..|hashes|] == hashes;
    out := root.Final(room);
  }

  ghost predicate RootOk<W>(root: State<W>, c: Core<W>, outlen: byte, key: seq<byte>)
    requires |key| <= 32
    reads root, root.buf
  {
    && root.Valid() && root.c == c && root.h0 == c.init(RootParam(outlen, |key|))
    && root.outlen == outlen && root.lastNode && root.data == []
  }

  method MakeRoot<W>(c: Core<W>, outlen: byte, keylen: nat, ghost key: seq<byte>) returns (root: State<W>)
    requires keylen == |key| <= 32
    ensures fresh(root) && fresh(root.buf) && RootOk(root, c, outlen, key)
  {
    root := new State(c, RootParam(outlen, keylen), outlen);
    root.SetLastNode();
  }

  /** The one-shot hash. */
  method OneShotTree<W>(c: Core<W>, outlen: nat, input: seq<byte>, key: seq<byte>) returns (out: Option<seq<byte>>)
    ensures out == if 1 <= outlen <= 32 && |key| <= 32 then Some(TreeDigest(c, outlen, key, input)) else None
  {
    if outlen == 0 || outlen > 32 {
      return None;
    }
    if |key| > 32 {
      return None;
    }
    var ls := MakeLeaves(c, outlen, key);
    FeedLeaves(ls, c, outlen, key, input, input, 0);
    var hashes := FinishLeaves(ls, c, outlen, key, input[512 * Supers(|input|)..], input);
    var root := MakeRoot(c, outlen, |key|, key);
    out := FinishRoot(root, outlen, outlen, key, hashes);
  }

  /** Completing the buffered superblock takes just the bytes that are missing. */
  lemma FlushSlices(data: seq<byte>, input: seq<byte>, m: nat)
    requires 512 * m <= |data| < 512 * (m + 1) <= |data| + |input|
    ensures var fill := 512 * (m + 1) - |data|;
            && data[512 * m..] + input[..fill] == (data + input)[512 * m..512 * (m + 1)]
            && input[fill..] == (data + input)[512 * (m + 1)..]
  {
  }

  lemma SupersIs(len: nat, m: nat)
    requires 512 * m <= len < 512 * (m + 1)
    ensures Supers(len) == m
  {
  }

  lemma WholePart(len: nat)
    ensures len - len % 512 == 512 * Supers(len)
  {
  }

  /** What is left over after the whole superblocks. */
  lemma {:induction false} RestSlices(d: seq<byte>, m: nat, held: seq<byte>, rest: seq<byte>)
    requires 512 * m <= |d| && held + rest == d[512 * m..]
    requires |held| > 0 ==> |held| + |rest| < 512
    ensures held + rest[512 * Supers(|rest|)..] == d[512 * Supers(|d|)..]
  {
    if held == [] {
      assert held + rest == rest;
      SupersAfter(|d|, m);
      SliceOfSlice(d, 512 * m, 512 * Supers(|rest|));
    } else {
      SupersIs(|rest|, 0);
      SupersIs(|d|, m);
    }
  }

  lemma SupersAfter(len: nat, m: nat)
    requires 512 * m <= len
    ensures 512 * Supers(len) == 512 * m + 512 * Supers(len - 512 * m)
  {
    SupersIs(len, m + Supers(len - 512 * m));
  }

  lemma {:induction false} SliceOfSlice<T>(s: seq<T>, a: nat, b: nat)
    requires a + b <= |s|
    ensures s[a..][b..] == s[a + b..]
  {
  }

  /** The streaming state. */
  class TreeState<W> {
    const leaves: seq<State<W>>
    const root: State<W>
    const buf: array<byte>
    var buflen: nat
    var outlen: byte

    ghost var key: seq<byte>
    ghost var data: seq<byte>

    /** No two parts of the state share memory. */
    ghost predicate Separate() {
      && Apart(leaves) && buf.Length == 512
      && root !in leaves && root.buf !in Bufs(leaves) && buf !in Bufs(leaves) && root.buf != buf
    }

    ghost predicate Buffered()
      requires buf.Length == 512
      reads this, buf
    {
      && buflen == |data| - 512 * Supers(|data|)
      && buf[..buflen] == data[512 * Supers(|data|)..]
    }

    ghost predicate Valid()
      reads this, buf, leaves, Bufs(leaves), root, root.buf
    {
      && Separate() && |key| <= 32 && 0 < outlen <= 32
      && forall ask {:trigger InspectInner(ask)} :: InspectInner(ask) ==>
           && LeavesOk(leaves, root.c, outlen, key, data, Supers(|data|))
           && RootOk(root, root.c, outlen, key)
           && Buffered()
    }

    constructor (leaves: seq<State<W>>, root: State<W>, outlen: byte, ghost key: seq<byte>)
      requires Apart(leaves) && |key| <= 32 && 0 < outlen <= 32
      requires root !in leaves && root.buf !in Bufs(leaves)
      requires LeavesOk(leaves, root.c, outlen, key, [], 0) && RootOk(root, root.c, outlen, key)
      ensures Valid() && fresh(buf) && data == [] && this.key == key && this.outlen == outlen
      ensures this.leaves == leaves && this.root == root
    {
      this.leaves, this.root, this.outlen := leaves, root, outlen;
      buf := new byte[512](_ => 0);
      buflen := 0;
      this.key, data := key, [];
    }

    /** Put bytes into the buffer after those it holds. */
    method Fill(left: nat, bytes: seq<byte>)
      requires buf.Length == 512 && left + |bytes| <= 512
      modifies buf
      ensures buf[..left + |bytes|] == old(buf[..left]) + bytes
    {
      forall i | 0 <= i < |bytes| {
        buf[left + i] := bytes[i];
      }
    }

    /** Fill the buffer up. */
    method FillUp(bytes: seq<byte>)
      requires buf.Length == 512 && buflen + |bytes| == 512
      modifies buf
      ensures buf[..] == old(buf[..buflen]) + bytes
    {
      Fill(buflen, bytes);
      assert buf[..] == buf[..512];
    }

    /** The input completes the buffered superblock: hand it to the leaves. */
    method Flush(input: seq<byte>, ghost d: seq<byte>, ghost m: nat) returns (rest: seq<byte>)
      requires Separate() && |key| <= 32 && d == data + input && m == Supers(|data|)
      requires LeavesOk(leaves, root.c, outlen, key, d, m) && Buffered()
      requires buflen + |input| >= 512
      modifies buf, leaves, Bufs(leaves)
      ensures 512 * (m + 1) <= |d| && rest == d[512 * (m + 1)..]
      ensures LeavesOk(leaves, root.c, outlen, key, d, m + 1)
    {
      var fill := 512 - buflen;
      FlushSlices(data, input, m);
      FillUp(input[..fill]);
      FeedSuper(leaves, root.c, outlen, key, buf[..], d, m);
      rest := input[fill..];
    }

    /** Keep bytes in the buffer after those it holds. */
    method Keep(left: nat, tail: seq<byte>, ghost d: seq<byte>)
      requires buf.Length == 512 && left + |tail| <= 512 && buf[..left] + tail == d[512 * Supers(|d|)..]
      modifies this`buflen, this`data, buf
      ensures data == d && Buffered()
    {
      Fill(left, tail);
      buflen := left + |tail|;
      data := d;
    }

    /** Hand whole superblocks to the leaves and keep the rest in the buffer. */
    method Store(left: nat, rest: seq<byte>, ghost d: seq<byte>, ghost m: nat)
      requires Separate() && |key| <= 32 && LeavesOk(leaves, root.c, outlen, key, d, m)
      requires left < 512 && 512 * m + left <= |d| && buf[..left] + rest == d[512 * m..]
      requires left > 0 ==> left + |rest| < 512
      modifies this`buflen, this`data, buf, leaves, Bufs(leaves)
      ensures LeavesOk(leaves, root.c, outlen, key, d, Supers(|d|)) && data == d && Buffered()
    {
      RestSlices(d, m, buf[..left], rest);
      WholePart(|rest|);
      FeedLeaves(leaves, root.c, outlen, key, rest, d, m);
      Keep(left, rest[|rest| - |rest| % 512..], d);
    }

    method Absorb(input: seq<byte>, ghost d: seq<byte>, ghost m: nat)
      requires Separate() && |key| <= 32 && d == data + input && m == Supers(|data|)
      requires LeavesOk(leaves, root.c, outlen, key, d, m) && Buffered()
      modifies this`buflen, this`data, buf, leaves, Bufs(leaves)
      ensures LeavesOk(leaves, root.c, outlen, key, d, Supers(|d|)) && data == d && Buffered()
    {
      if buflen > 0 && |input| >= 512 - buflen {
        var rest := Flush(input, d, m);
        assert buf[..0] + rest == rest;
        Store(0, rest, d, m + 1);
      } else {
        assert data[512 * m..] + input == d[512 * m..];
        Store(buflen, input, d, m);
      }
    }

    method Update(input: seq<byte>)
      requires Valid()
      modifies this`buflen, this`data, buf, leaves, Bufs(leaves)
      ensures Valid() && data == old(data) + input && key == old(key) && outlen == old(outlen)
    {
      assert InspectInner(true);
      MoreData(leaves, root.c, outlen, key, data, input, Supers(|data|));
      Absorb(input, data + input, Supers(|data|));
    }

    /** The digest, or nothing when there is too little room for it. */
    method Final(room: nat) returns (out: Option<seq<byte>>)
      requires Valid()
      modifies buf, leaves, Bufs(leaves), root, root.buf
      ensures out == if room < outlen then None else Some(TreeDigest(root.c, outlen, key, data))
    {
      if room < outlen {
        return None;
      }
      assert InspectInner(true);
      var hashes := FinishLeaves(leaves, root.c, outlen, key, buf[..buflen], data);
      out := FinishRoot(root, outlen, outlen, key, hashes);
    }
  }

  lemma {:induction false} MoreData<W>(ls: seq<State<W>>, c: Core<W>, outlen: byte, key: seq<byte>, d: seq<byte>, more: seq<byte>, m: nat)
    requires |ls| == 8 && |key| <= 32 && 512 * m <= |d|
    requires LeavesOk(ls, c, outlen, key, d, m)
    ensures LeavesOk(ls, c, outlen, key, d + more, m)
  {
    forall i | 0 <= i < 8
      ensures Striped(d + more, i, m) == Striped(d, i, m)
    {
      StripePrefix(d, more, i, 8 * m);
    }
  }

  /** Start a streaming hash, with a key or without one. */
  method InitTree<W>(c: Core<W>, outlen: nat, key: seq<byte>) returns (s: Option<TreeState<W>>)
    ensures s.Some? <==> 1 <= outlen <= 32 && |key| <= 32
    ensures s.Some? ==>
      && s.value.Valid() && s.value.root.c == c && s.value.key == key && s.value.data == [] && s.value.outlen == outlen
      && fresh(s.value) && fresh(s.value.buf) && fresh(s.value.root) && fresh(s.value.root.buf)
      && (forall l <- s.value.leaves :: fresh(l) && fresh(l.buf))
  {
    if outlen == 0 || outlen > 32 {
      return None;
    }
    if |key| > 32 {
      return None;
    }
    var root := MakeRoot(c, outlen, |key|, key);
    var leaves := MakeLeaves(c, outlen, key);
    var state := new TreeState(leaves, root, outlen, key);
    s := Some(state);
  }

  method UpdateTree<W>(s: TreeState<W>, chunks: seq<seq<byte>>)
    requires s.Valid()
    modifies s`buflen, s`data, s.buf, s.leaves, Bufs(s.leaves)
    ensures s.Valid() && s.data == old(s.data) + Concat(chunks) && s.key == old(s.key) && s.outlen == old(s.outlen)
    decreases |chunks|
  {
    if chunks == [] {
      assert s.data + [] == s.data;
    } else {
      var n := |chunks| - 1;
      UpdateTree(s, chunks[..n]);
      s.Update(chunks[n]);
    }
  }

  /** However the message is cut, streaming gives the one-shot digest. */
  method StreamedTree<W>(c: Core<W>, outlen: nat, chunks: seq<seq<byte>>, key: seq<byte>)
    returns (out: Option<seq<byte>>)
    ensures out == if 1 <= outlen <= 32 && |key| <= 32
                   then Some(TreeDigest(c, outlen, key, Concat(chunks))) else None
  {
    var s := InitTree(c, outlen, key);
    if s == None {
      return None;
    }
    assert forall b <- Bufs(s.value.leaves) :: fresh(b);
    UpdateTree(s.value, chunks);
    assert s.value.data == Concat(chunks);
    out := s.value.Final(outlen);
  }
}
