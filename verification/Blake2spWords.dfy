/** BLAKE2sp on 32-bit words: the tree over the compression function. */
module Blake2spWords {
  import opened Wrappers
  import opened Blake2s
  import opened Blake2sWords
  import opened Blake2sp

  /** The parameter block of a leaf of the tree: fanout 8, depth 2, its place, the
      lowest level, inner hashes of 32 bytes, and neither salt nor person. */
  lemma {:induction false} LeafParameters(outlen: byte, keylen: byte, i: nat)
    requires i < 8
    ensures ParamBytes(LeafParam(outlen, keylen, i)) ==
            [outlen, keylen, 8, 2, 0, 0, 0, 0, i, 0, 0, 0, 0, 0, 0, 32] + seq(16, _ => 0)
  {
    StoredZero();
    StoredOffset(i);
  }

  /** That of the root is one level up. */
  lemma {:induction false} RootParameters(outlen: byte, keylen: byte)
    ensures ParamBytes(RootParam(outlen, keylen)) ==
            [outlen, keylen, 8, 2, 0, 0, 0, 0, 0, 0, 0, 0, 0, 0, 1, 32] + seq(16, _ => 0)
  {
    StoredZero();
  }

  lemma {:induction false} StoredZero()
    ensures Store32(0) == [0, 0, 0, 0]
  {
  }

  lemma {:induction false} StoredOffset(i: nat)
    requires i < 8
    ensures Store32(i as word) == [i, 0, 0, 0]
  {
    match i
    case 0 =>
    case 1 =>
    case 2 =>
    case 3 =>
    case 4 =>
    case 5 =>
    case 6 =>
    case _ =>
  }

  /** Leaf `i` hashes its stripe behind the key block; the last one is marked. */
  function LeafOfWords(outlen: byte, key: seq<byte>, d: seq<byte>, i: nat): (s: seq<byte>)
    requires |key| <= 32 && i < 8
    ensures |s| == 32
  {
    HashOfWords(LeafParam(outlen, |key|, i), KeyBlock(key) + Stripe(d, i, Blocks(|d|)), i == 7)
  }

  function LeavesOfWords(outlen: byte, key: seq<byte>, d: seq<byte>): (ls: seq<seq<byte>>)
    requires |key| <= 32
    ensures |ls| == 8
  {
    seq(8, i requires 0 <= i < 8 => LeafOfWords(outlen, key, d, i))
  }

  lemma LeafIsHashed(outlen: byte, key: seq<byte>, d: seq<byte>, i: nat)
    requires |key| <= 32 && i < 8
    ensures LeafHash(BLAKE2S, outlen, key, d, i) == LeafOfWords(outlen, key, d, i)
  {
    WordsAreHashed(LeafParam(outlen, |key|, i), KeyBlock(key) + Stripe(d, i, Blocks(|d|)), i == 7);
  }

  lemma LeavesAreHashed(outlen: byte, key: seq<byte>, d: seq<byte>)
    requires |key| <= 32
    ensures LeafHashes(BLAKE2S, outlen, key, d) == LeavesOfWords(outlen, key, d)
  {
    var a, b := LeafHashes(BLAKE2S, outlen, key, d), LeavesOfWords(outlen, key, d);
    forall i | 0 <= i < 8
      ensures a[i] == b[i]
    {
      LeafIsHashed(outlen, key, d, i);
    }
    SameElements(a, b);
  }

  lemma {:induction false} SameElements<T>(a: seq<T>, b: seq<T>)
    requires |a| == |b| && forall i :: 0 <= i < |a| ==> a[i] == b[i]
    ensures a == b
  {
  }

  /** BLAKE2sp of a message in chunks: the root hashes the eight leaf hashes, 32
      bytes each, and is the last node of its level. */
  method StreamedBlake2sp(outlen: nat, chunks: seq<seq<byte>>, key: seq<byte>) returns (out: Option<seq<byte>>)
    ensures out.Some? <==> 1 <= outlen <= 32 && |key| <= 32
    ensures out.Some? ==>
              out.value == HashOfWords(RootParam(outlen, |key|),
                                       Concat(LeavesOfWords(outlen, key, Concat(chunks))), true)[..outlen]
  {
    out := StreamedTree(BLAKE2S, outlen, chunks, key);
    if out.Some? {
      var d := Concat(chunks);
      LeavesAreHashed(outlen, key, d);
      WordsAreHashed(RootParam(outlen, |key|), Concat(LeavesOfWords(outlen, key, d)), true);
    }
  }
}
