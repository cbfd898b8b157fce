/** The list of data extents of a sparse file. */
module Sparse {
  import opened Wrappers

  const INT64_MAX: int := 0x7fff_ffff_ffff_ffff

  type int64 = n: int | -INT64_MAX - 1 <= n <= INT64_MAX

  datatype Extent = Extent(offset: int, length: int) {
    function End(): int {
      offset + length
    }
  }

  // ----- what an add does -----

  predicate Within(e: Extent, size: int64) {
    0 <= e.offset && 0 <= e.length && e.End() <= size
  }

  /** An extent is taken if it lies in the file and behind what is there. */
  predicate Accepted(xs: seq<Extent>, size: int64, e: Extent) {
    Within(e, size) && (xs != [] ==> xs[|xs| - 1].End() <= e.offset)
  }

  function Added(xs: seq<Extent>, size: int64, e: Extent): seq<Extent> {
    if !Accepted(xs, size, e) then xs
    else if xs != [] && xs[|xs| - 1].End() == e.offset then
      var last := xs[|xs| - 1];
      xs[..|xs| - 1] + [last.(length := last.length + e.length)]
    else xs + [e]
  }

  function AddedAll(size: int64, es: seq<Extent>): seq<Extent> {
    if es == [] then [] else Added(AddedAll(size, es[..|es| - 1]), size, es[|es| - 1])
  }

  // ----- the normal form -----

  /** Extents in order, with gaps between them. */
  ghost predicate Normal(xs: seq<Extent>) {
    && (forall i :: 0 <= i < |xs| ==> 0 <= xs[i].offset && 0 <= xs[i].length)
    && (forall i, j :: 0 <= i < j < |xs| ==> xs[i].End() < xs[j].offset)
  }

  ghost predicate AllWithin(xs: seq<Extent>, size: int64) {
    forall x <- xs :: Within(x, size)
  }

  /** Every run of adds leaves a normal list within the file; so no end of an
      extent overflows. */
  lemma {:induction false} RunIsNormal(size: int64, es: seq<Extent>)
    ensures Normal(AddedAll(size, es)) && AllWithin(AddedAll(size, es), size)
  {
    if es != [] {
      RunIsNormal(size, es[..|es| - 1]);
      AddKeepsNormal(AddedAll(size, es[..|es| - 1]), size, size, es[|es| - 1]);
    }
  }

  /** The file may have been larger before. */
  lemma AddKeepsNormal(xs: seq<Extent>, size: int64, most: int64, e: Extent)
    requires Normal(xs)
    ensures Normal(Added(xs, size, e))
    ensures AllWithin(xs, most) && size <= most ==> AllWithin(Added(xs, size, e), most)
  {
  }

  // ----- what is covered -----

  ghost predicate Covers(xs: seq<Extent>, p: int) {
    exists x <- xs :: x.offset <= p < x.End()
  }

  /** An extent in the file that does not begin before the end of the last one
      adds its places to what is covered. Any other add changes nothing. */
  lemma AddCovers(xs: seq<Extent>, size: int64, e: Extent, p: int)
    requires Normal(xs)
    ensures if 0 <= e.offset && 0 <= e.length && e.offset + e.length <= size && Behind(xs, e.offset)
            then Covers(Added(xs, size, e), p) <==> Covers(xs, p) || e.offset <= p < e.offset + e.length
            else Added(xs, size, e) == xs
  {
    var ys := Added(xs, size, e);
    if Accepted(xs, size, e) {
      if xs != [] && xs[|xs| - 1].End() == e.offset {
        var n := |xs| - 1;
        assert forall i :: 0 <= i < n ==> xs[i] == ys[i];
        assert xs[n] in xs && ys[n] in ys;
      } else {
        assert ys[|xs|] == e;
        assert forall x <- xs :: x in ys;
      }
    }
  }

  /** All extents end at or before a place. */
  predicate Behind(xs: seq<Extent>, at: int) {
    forall x <- xs :: x.offset + x.length <= at
  }

  /** An extent that begins where the last one ends is joined to it; one behind a
      gap is a new last one. */
  lemma WhereAddGoes(xs: seq<Extent>, size: int64, e: Extent)
    requires Normal(xs) && 0 <= e.offset && 0 <= e.length && e.offset + e.length <= size && Behind(xs, e.offset)
    ensures Added(xs, size, e) ==
            if xs != [] && xs[|xs| - 1].offset + xs[|xs| - 1].length == e.offset
            then xs[..|xs| - 1] + [Extent(xs[|xs| - 1].offset, xs[|xs| - 1].length + e.length)]
            else xs + [e]
  {
    if xs != [] {
      assert xs[|xs| - 1] in xs;
    }
  }

  /** Extent `i` of a run is taken: it lies in the file and begins behind all that
      have been taken before. */
  predicate TakenAt(size: int64, es: seq<Extent>, i: nat)
    requires i < |es|
  {
    && 0 <= es[i].offset && 0 <= es[i].length && es[i].offset + es[i].length <= size
    && forall j :: 0 <= j < i && TakenAt(size, es, j) ==> es[j].offset + es[j].length <= es[i].offset
  }

  /** Some extent that is taken covers a place. */
  ghost predicate Taken(size: int64, es: seq<Extent>, p: int) {
    exists i :: 0 <= i < |es| && TakenAt(size, es, i) && es[i].offset <= p < es[i].offset + es[i].length
  }

  lemma {:induction false} TakenBefore(size: int64, es: seq<Extent>, n: nat, i: nat)
    requires i < n <= |es|
    ensures TakenAt(size, es[..n], i) <==> TakenAt(size, es, i)
    decreases i
  {
    forall j | 0 <= j < i
      ensures TakenAt(size, es[..n], j) <==> TakenAt(size, es, j)
    {
      TakenBefore(size, es, n, j);
    }
  }

  /** All that is taken ends at or before a place. */
  predicate TakenEndBy(size: int64, es: seq<Extent>, at: int) {
    forall i :: 0 <= i < |es| && TakenAt(size, es, i) ==> es[i].offset + es[i].length <= at
  }

  lemma {:induction false} TakenEndStep(size: int64, es: seq<Extent>, at: int)
    requires es != []
    ensures var n := |es| - 1;
            TakenEndBy(size, es, at) <==>
            TakenEndBy(size, es[..n], at) && (TakenAt(size, es, n) ==> es[n].offset + es[n].length <= at)
  {
    var n := |es| - 1;
    forall i | 0 <= i < n
      ensures TakenAt(size, es[..n], i) <==> TakenAt(size, es, i)
      ensures es[..n][i] == es[i]
    {
      TakenBefore(size, es, n, i);
    }
  }

  /** The list ends where what is taken does. */
  lemma {:induction false} RunEnds(size: int64, es: seq<Extent>, at: int)
    ensures Behind(AddedAll(size, es), at) <==> TakenEndBy(size, es, at)
    decreases |es|, 1
  {
    if es != [] {
      var n := |es| - 1;
      RunEnds(size, es[..n], at);
      RunIsNormal(size, es[..n]);
      TakenIsAdded(size, es);
      TakenEndStep(size, es, at);
      AddEnds(AddedAll(size, es[..n]), size, es[n], at);
    }
  }

  /** What is taken is what the add accepts. */
  lemma {:induction false} TakenIsAdded(size: int64, es: seq<Extent>)
    requires es != []
    ensures var n := |es| - 1; TakenAt(size, es, n) <==> Accepted(AddedAll(size, es[..n]), size, es[n])
    decreases |es|, 0
  {
    var n, at := |es| - 1, es[|es| - 1].offset;
    RunEnds(size, es[..n], at);
    RunIsNormal(size, es[..n]);
    TakenFirst(size, es, n);
    LastIsEnd(AddedAll(size, es[..n]), at);
  }

  lemma {:induction false} TakenFirst(size: int64, es: seq<Extent>, n: nat)
    requires n < |es|
    ensures TakenAt(size, es, n) <==>
            && 0 <= es[n].offset && 0 <= es[n].length && es[n].offset + es[n].length <= size
            && TakenEndBy(size, es[..n], es[n].offset)
  {
    forall i | 0 <= i < n
      ensures TakenAt(size, es[..n], i) <==> TakenAt(size, es, i)
      ensures es[..n][i] == es[i]
    {
      TakenBefore(size, es, n, i);
    }
  }

  lemma LastIsEnd(xs: seq<Extent>, at: int)
    requires Normal(xs)
    ensures Behind(xs, at) <==> xs == [] || xs[|xs| - 1].End() <= at
  {
    if xs != [] {
      assert xs[|xs| - 1] in xs;
    }
  }

  lemma AddEnds(xs: seq<Extent>, size: int64, e: Extent, at: int)
    requires Normal(xs)
    ensures Behind(Added(xs, size, e), at) <==> Behind(xs, at) && (Accepted(xs, size, e) ==> e.End() <= at)
  {
    if Accepted(xs, size, e) {
      var ys := Added(xs, size, e);
      LastIsEnd(xs, e.offset);
      LastIsEnd(xs, at);
      AddKeepsNormal(xs, size, size, e);
      LastIsEnd(ys, at);
    }
  }

  lemma TakenStep(size: int64, es: seq<Extent>, p: int)
    requires es != []
    ensures var n := |es| - 1;
            Taken(size, es, p) <==> Taken(size, es[..n], p) || (TakenAt(size, es, n) && es[n].offset <= p < es[n].End())
  {
    var n := |es| - 1;
    if Taken(size, es[..n], p) {
      var i :| 0 <= i < n && TakenAt(size, es[..n], i) && es[..n][i].offset <= p < es[..n][i].End();
      TakenBefore(size, es, n, i);
      assert es[i] == es[..n][i];
    }
    if i :| 0 <= i < n && TakenAt(size, es, i) && es[i].offset <= p < es[i].End() {
      TakenBefore(size, es, n, i);
      assert es[..n][i] == es[i];
    }
  }

  /** The list covers exactly the union of the extents that are taken. */
  lemma {:induction false} RunCovers(size: int64, es: seq<Extent>, p: int)
    ensures Covers(AddedAll(size, es), p) <==> Taken(size, es, p)
  {
    if es != [] {
      var n := |es| - 1;
      RunCovers(size, es[..n], p);
      RunIsNormal(size, es[..n]);
      AddCovers(AddedAll(size, es[..n]), size, es[n], p);
      LastIsEnd(AddedAll(size, es[..n]), es[n].offset);
      TakenIsAdded(size, es);
      TakenStep(size, es, p);
    }
  }

  // ----- copying -----

  /** Adding the extents of a normal list again, as cloning does, gives the same
      list exactly when all lie in the file. */
  lemma CloneIsExact(xs: seq<Extent>, size: int64)
    requires Normal(xs)
    ensures AddedAll(size, xs) == xs <==> AllWithin(xs, size)
  {
    if AddedAll(size, xs) == xs {
      RunIsNormal(size, xs);
    }
    if AllWithin(xs, size) {
      ReaddAll(xs, size, |xs|);
      assert xs[..|xs|] == xs;
    }
  }

  /** For one, two bytes of data are lost when the size has become one. */
  lemma ShrunkSizeLoses()
    ensures Normal([Extent(0, 2)]) && !AllWithin([Extent(0, 2)], 1) && AddedAll(1, [Extent(0, 2)]) == []
  {
    var e := Extent(0, 2);
    assert [e][..0] == [] && e in [e];
    assert AddedAll(1, [e]) == Added([], 1, e);
  }

  lemma {:induction false} ReaddAll(xs: seq<Extent>, size: int64, n: nat)
    requires Normal(xs) && AllWithin(xs, size) && n <= |xs|
    ensures AddedAll(size, xs[..n]) == xs[..n]
  {
    if n > 0 {
      ReaddAll(xs, size, n - 1);
      assert xs[..n][..n - 1] == xs[..n - 1];
      assert n > 1 ==> xs[n - 2].End() < xs[n - 1].offset;
    }
  }

  // ----- the normal form is unique -----

  ghost predicate SameCover(xs: seq<Extent>, ys: seq<Extent>) {
    forall p :: Covers(xs, p) <==> Covers(ys, p)
  }

  ghost predicate NoneEmpty(xs: seq<Extent>) {
    forall x <- xs :: x.length > 0
  }

  lemma FirstExtent(xs: seq<Extent>)
    requires Normal(xs) && NoneEmpty(xs) && xs != []
    ensures forall p :: xs[0].offset <= p < xs[0].End() ==> Covers(xs, p)
    ensures forall p :: p < xs[0].offset || p == xs[0].End() ==> !Covers(xs, p)
    ensures forall p :: Covers(xs[1..], p) <==> Covers(xs, p) && p > xs[0].End()
  {
    assert xs[0] in xs;
    forall p | Covers(xs, p) && p > xs[0].End()
      ensures Covers(xs[1..], p)
    {
      var x :| x in xs && x.offset <= p < x.End();
      var i :| 0 <= i < |xs| && xs[i] == x;
      assert xs[1..][i - 1] == x;
    }
    forall p | Covers(xs[1..], p)
      ensures Covers(xs, p) && p > xs[0].End()
    {
      var x :| x in xs[1..] && x.offset <= p < x.End();
      var i :| 0 <= i < |xs[1..]| && xs[1..][i] == x;
      assert xs[i + 1] == x;
    }
  }

  lemma CoversFirst(xs: seq<Extent>)
    requires Normal(xs) && NoneEmpty(xs)
    ensures xs != [] ==> Covers(xs, xs[0].offset)
  {
    if xs != [] {
      FirstExtent(xs);
    }
  }

  lemma SameFirst(xs: seq<Extent>, ys: seq<Extent>)
    requires Normal(xs) && Normal(ys) && NoneEmpty(xs) && NoneEmpty(ys) && SameCover(xs, ys) && xs != [] && ys != []
    ensures xs[0] == ys[0] && SameCover(xs[1..], ys[1..])
  {
    FirstExtent(xs);
    FirstExtent(ys);
    assert Covers(xs, xs[0].offset) && Covers(ys, ys[0].offset);
    assert xs[0].offset == ys[0].offset;
    assert !Covers(ys, xs[0].End()) && !Covers(xs, ys[0].End());
  }

  /** Two normal lists without empty extents that cover the same are the same. */
  lemma {:induction false} NormalFormIsUnique(xs: seq<Extent>, ys: seq<Extent>)
    requires Normal(xs) && Normal(ys) && NoneEmpty(xs) && NoneEmpty(ys) && SameCover(xs, ys)
    ensures xs == ys
    decreases |xs|
  {
    if xs == [] {
      CoversFirst(ys);
    } else if ys == [] {
      CoversFirst(xs);
    } else {
      SameFirst(xs, ys);
      NormalFormIsUnique(xs[1..], ys[1..]);
      assert xs == [xs[0]] + xs[1..] && ys == [ys[0]] + ys[1..];
    }
  }

  // ----- the linked list -----

  class Block {
    var offset: int64
    var length: int64
    var next: Option<Block>

    constructor (offset: int64, length: int64)
      ensures this.offset == offset && this.length == length && next == None
    {
      this.offset, this.length, next := offset, length, None;
    }
  }

  class SparseList {
    var head: Option<Block>
    var tail: Option<Block>
    ghost var chain: seq<Block>

    ghost predicate Shape()
      reads this, chain
    {
      && (forall i, j :: 0 <= i < j < |chain| ==> chain[i] != chain[j])
      && (head == if chain == [] then None else Some(chain[0]))
      && (tail == if chain == [] then None else Some(chain[|chain| - 1]))
      && forall i {:trigger chain[i].next} :: 0 <= i < |chain| ==>
           chain[i].next == if i + 1 < |chain| then Some(chain[i + 1]) else None
    }

    ghost function Extents(): (xs: seq<Extent>)
      reads this, chain
      ensures |xs| == |chain|
    {
      seq(|chain|, i requires 0 <= i < |chain| reads this, chain => Extent(chain[i].offset, chain[i].length))
    }

    /** No end overflows; but the file may be smaller than it was. */
    ghost predicate Valid()
      reads this, chain
    {
      Shape() && Normal(Extents()) && AllWithin(Extents(), INT64_MAX)
    }

    constructor ()
      ensures Shape() && chain == [] && Extents() == []
    {
      head, tail, chain := None, None, [];
    }

    method Clear()
      modifies this
      ensures Shape() && chain == []
    {
      head, tail, chain := None, None, [];
    }

    method Add(size: int64, offset: int64, length: int64)
      requires Valid()
      modifies this, chain
      ensures Valid() && Extents() == Added(old(Extents()), size, Extent(offset, length))
      ensures forall j :: 0 <= j < |chain| ==> chain[j] in old(chain) || fresh(chain[j])
    {
      AddKeepsNormal(Extents(), size, INT64_MAX, Extent(offset, length));
      if offset < 0 || length < 0 {
        return;
      }
      if offset > INT64_MAX - length || offset + length > size {
        return;
      }
      Place(offset, length, size);
    }

    /** An extent in the file: behind what is there, or not at all. */
    method Place(offset: int64, length: int64, ghost size: int64)
      requires Shape() && Within(Extent(offset, length), size)
      requires chain != [] ==> 0 <= chain[|chain| - 1].offset
      modifies this, chain
      ensures Shape() && Extents() == Added(old(Extents()), size, Extent(offset, length))
      ensures forall j :: 0 <= j < |chain| ==> chain[j] in old(chain) || fresh(chain[j])
    {
      ghost var xs := Extents();
      if tail.Some? {
        var sp := tail.value;
        assert xs[|xs| - 1] == Extent(sp.offset, sp.length);
        if sp.offset + sp.length > offset {
          return;
        }
        if sp.offset + sp.length == offset {
          Extend(length);
          return;
        }
      }
      Append(offset, length);
    }

    /** The last block grows. */
    method Extend(length: int64)
      requires Shape() && chain != [] && 0 <= length && chain[|chain| - 1].length + length <= INT64_MAX
      modifies chain[|chain| - 1]
      ensures Shape() && chain == old(chain)
      ensures var n := |chain| - 1;
              Extents() == old(Extents())[..n] + [old(Extents())[n].(length := old(Extents())[n].length + length)]
    {
      tail.value.length := tail.value.length + length;
    }

    /** A new last block. */
    method Append(offset: int64, length: int64)
      requires Shape()
      modifies this, chain
      ensures Shape() && Extents() == old(Extents()) + [Extent(offset, length)]
      ensures forall j :: 0 <= j < |chain| ==> chain[j] in old(chain) || fresh(chain[j])
    {
      var sp := new Block(offset, length);
      if head.None? {
        head := Some(sp);
      } else {
        tail.value.next := Some(sp);
      }
      tail := Some(sp);
      chain := chain + [sp];
    }

    method CopyNext(size: int64, sp: Block, ghost xs: seq<Extent>, ghost i: nat)
      requires Shape() && i < |xs| && xs[i] == Extent(sp.offset, sp.length)
      requires Extents() == AddedAll(size, xs[..i])
      modifies this, chain
      ensures Shape() && Extents() == AddedAll(size, xs[..i + 1])
      ensures forall j :: 0 <= j < |chain| ==> chain[j] in old(chain) || fresh(chain[j])
    {
      assert xs[..i + 1][..i] == xs[..i];
      RunIsNormal(size, xs[..i]);
      Add(size, sp.offset, sp.length);
    }

    /** Add the extents of another list, for a file of this size. */
    method CloneOf(size: int64, src: SparseList)
      requires Shape() && chain == [] && src.Valid() && src != this
      modifies this
      ensures Valid() && Extents() == AddedAll(size, src.Extents())
      ensures Extents() == src.Extents() <==> AllWithin(src.Extents(), size)
      ensures forall j :: 0 <= j < |chain| ==> fresh(chain[j])
    {
      ghost var xs := src.Extents();
      ghost var i := 0;
      var sp := src.head;
      while sp.Some?
        invariant 0 <= i <= |src.chain| && sp == if i < |src.chain| then Some(src.chain[i]) else None
        invariant Shape() && Extents() == AddedAll(size, xs[..i]) && forall j :: 0 <= j < |chain| ==> fresh(chain[j])
        decreases |src.chain| - i
      {
        assert xs[i] == Extent(sp.value.offset, sp.value.length);
        CopyNext(size, sp.value, xs, i);
        sp := sp.value.next;
        i := i + 1;
      }
      assert xs[..i] == xs;
      CloneIsExact(xs, size);
      RunIsNormal(size, xs);
    }
  }
}
