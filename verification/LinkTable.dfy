/** The resolver's chained hash table with doubly linked buckets, and the
    calls that archivers make on it. */
module LinkTable {
  import opened Wrappers
  import opened LinkSpec
  import opened Bits
  import opened LinkHash

  /** An archive entry, reduced to what the resolver touches. */
  class Entry {
    const attrs: Attrs
    var size: int
    var sizeSet: bool
    var hardlink: Option<string>

    constructor (attrs: Attrs, size: int)
      ensures this.attrs == attrs && this.size == size && sizeSet && hardlink == None
    {
      this.attrs := attrs;
      this.size, sizeSet, hardlink := size, true, None;
    }

    method UnsetSize()
      modifies this
      ensures size == 0 && !sizeSet && hardlink == old(hardlink)
    {
      size, sizeSet := 0, false;
    }

    method CopyHardlink(target: string)
      modifies this
      ensures hardlink == Some(target) && size == old(size) && sizeSet == old(sizeSet)
    {
      hardlink := Some(target);
    }
  }

  /** `e` went from the old to the current state the way `act` says. */
  twostate predicate Applied(e: Entry, act: Action)
    reads e
  {
    match act
    case Keep => e.size == old(e.size) && e.sizeSet == old(e.sizeSet) && e.hardlink == old(e.hardlink)
    case Link(t) => e.size == old(e.size) && e.sizeSet == old(e.sizeSet) && e.hardlink == Some(t)
    case LinkNoBody(t) => e.size == 0 && !e.sizeSet && e.hardlink == Some(t)
  }

  function HashOf(k: Key): nat {
    Xor(k.dev, k.ino)
  }

  /** A record of the cache. `canonical` is the copy of the first entry. */
  class LinksEntry {
    var next: LinksEntry?
    var previous: LinksEntry?
    const canonical: Attrs
    var entry: Entry?
    const hash: nat := HashOf(canonical.key)
    var links: nat

    constructor (canonical: Attrs)
      ensures this.canonical == canonical
      ensures next == null && previous == null && entry == null && links == LinksLeft(canonical.nlink)
    {
      this.canonical := canonical;
      next, previous, entry, links := null, null, null, LinksLeft(canonical.nlink);
    }

    ghost function Record(): Rec<Entry>
      reads this`links, this`entry
    {
      Rec(canonical.path, links, if entry == null then None else Some(entry))
    }
  }

  const SIZE_RANGE := 0x1_0000_0000_0000_0000
  const INITIAL_SIZE := 1024

  /** `home` is the source's bucket number in a table of `n` buckets. */
  ghost predicate IsHome(home: Key -> nat, n: nat) {
    && PowerOfTwo(n)
    && forall k {:trigger BucketOf(HashOf(k), n)} :: home(k) == BucketOf(HashOf(k), n)
  }

  /** The records `s` are found by their keys. */
  ghost predicate Indexed(s: set<LinksEntry>, index: map<Key, LinksEntry>) {
    && (forall k <- index :: index[k] in s && index[k].canonical.key == k)
    && (forall l <- s :: l.canonical.key in index && index[l.canonical.key] == l)
  }

  /** A snapshot of the pointers, with a rank that grows along `next`. */
  datatype Shape = Shape(
    next: LinksEntry -> LinksEntry?,
    previous: LinksEntry -> LinksEntry?,
    rank: LinksEntry -> int,
    heads: seq<LinksEntry?>)

  ghost predicate Agrees(s: set<LinksEntry>, shape: Shape, buckets: array<LinksEntry?>)
    reads s`next, s`previous, buckets
  {
    && shape.heads == buckets[..]
    && (forall l {:trigger l.next} :: l in s ==> l.next == shape.next(l))
    && (forall l {:trigger l.previous} :: l in s ==> l.previous == shape.previous(l))
  }

  ghost function HomeOf(l: LinksEntry, home: Key -> nat): nat {
    home(l.canonical.key)
  }

  /** From the head of each bucket, `next` runs by increasing rank through
      exactly the records of `s` that belong in that bucket. */
  ghost predicate Forward(s: set<LinksEntry>, shape: Shape, home: Key -> nat) {
    && (forall b :: 0 <= b < |shape.heads| && shape.heads[b] != null ==>
          shape.heads[b] in s && HomeOf(shape.heads[b], home) == b)
    && (forall l {:trigger HomeOf(l, home)} :: l in s ==>
          var h := HomeOf(l, home);
          h < |shape.heads| && shape.heads[h] != null && shape.rank(shape.heads[h]) <= shape.rank(l))
    && (forall l {:trigger shape.next(l)} :: l in s && shape.next(l) != null ==>
          && shape.next(l) in s
          && HomeOf(shape.next(l), home) == HomeOf(l, home)
          && shape.rank(l) < shape.rank(shape.next(l)))
    && NoGaps(s, shape, home)
  }

  /** A term by which proofs ask for the order of two records. */
  ghost predicate Compare(l: LinksEntry, x: LinksEntry) {
    true
  }

  ghost predicate NoGaps(s: set<LinksEntry>, shape: Shape, home: Key -> nat) {
    forall l, x {:trigger Compare(l, x)} :: Compare(l, x) ==>
      l in s && x in s && l != x && HomeOf(l, home) == HomeOf(x, home) && shape.rank(l) <= shape.rank(x) ==>
        shape.next(l) != null && shape.rank(shape.next(l)) <= shape.rank(x)
  }

  /** `previous` undoes `next`, and is null at the head of a bucket. */
  ghost predicate Backward(s: set<LinksEntry>, shape: Shape, home: Key -> nat) {
    && (forall l {:trigger shape.previous(l)} :: l in s ==>
          var h := HomeOf(l, home);
          && h < |shape.heads|
          && (shape.previous(l) == null <==> shape.heads[h] == l)
          && (shape.previous(l) != null ==> shape.previous(l) in s && shape.next(shape.previous(l)) == l))
    && (forall l {:trigger shape.next(l)} :: l in s && shape.next(l) != null ==>
          shape.next(l) in s && shape.previous(shape.next(l)) == l)
  }

  /** The ghost state of a resolver: what the cache means, its records by key,
      the bucket of each key, and the shape of the chains. */
  datatype Layout = Layout(
    table: Table<Entry>,
    index: map<Key, LinksEntry>,
    home: Key -> nat,
    repr: set<LinksEntry>,
    shape: Shape)

  /** The layout of a table of `n` buckets. Kept out of a proof until it says `Inspect`. */
  ghost predicate WellFormed(g: Layout, n: nat) {
    forall ask {:trigger Inspect(ask)} :: Inspect(ask) ==>
      && Indexed(g.repr, g.index)
      && Forward(g.repr, g.shape, g.home)
      && Backward(g.repr, g.shape, g.home)
      && IsHome(g.home, n)
      && |g.shape.heads| == n
      && g.table.Keys == g.index.Keys
  }

  /** The pointers after record `le` of bucket `b` has been bypassed. */
  ghost function Bypassed(shape: Shape, le: LinksEntry, b: nat): Shape
    requires b < |shape.heads|
  {
    Shape(
      l => if shape.previous(le) == l then shape.next(le) else shape.next(l),
      l => if shape.next(le) == l then shape.previous(le) else shape.previous(l),
      shape.rank,
      if shape.heads[b] == le then shape.heads[b := shape.next(le)] else shape.heads)
  }

  lemma BypassedForward(s: set<LinksEntry>, shape: Shape, home: Key -> nat, le: LinksEntry, b: nat)
    requires Forward(s, shape, home) && Backward(s, shape, home)
    requires le in s && b == HomeOf(le, home) && b < |shape.heads|
    ensures Forward(s - {le}, Bypassed(shape, le, b), home)
  {
    var s', shape' := s - {le}, Bypassed(shape, le, b);
    assert shape.previous(le) != null || shape.heads[b] == le;
    assert forall l <- s' :: Compare(le, l);
    forall l, x | l in s' && x in s' && l != x && HomeOf(l, home) == HomeOf(x, home) && shape.rank(l) <= shape.rank(x)
      ensures shape'.next(l) != null && shape.rank(shape'.next(l)) <= shape.rank(x)
    {
      assert Compare(l, x) && Compare(le, x);
    }
  }

  lemma BypassedBackward(s: set<LinksEntry>, shape: Shape, home: Key -> nat, le: LinksEntry, b: nat)
    requires Forward(s, shape, home) && Backward(s, shape, home)
    requires le in s && b == HomeOf(le, home) && b < |shape.heads|
    ensures Backward(s - {le}, Bypassed(shape, le, b), home)
  {
  }

  /** The layout after record `le` of bucket `b` has been taken out. */
  ghost function Removed(g: Layout, le: LinksEntry, b: nat): Layout
    requires b < |g.shape.heads|
  {
    Layout(g.table - {le.canonical.key}, g.index - {le.canonical.key}, g.home, g.repr - {le}, Bypassed(g.shape, le, b))
  }

  lemma RemovedWellFormed(g: Layout, n: nat, le: LinksEntry, b: nat)
    requires WellFormed(g, n)
    requires le in g.repr && b == HomeOf(le, g.home) && b < |g.shape.heads|
    ensures var s := g.shape; s.previous(le) != null ==> s.previous(le) in g.repr && s.next(s.previous(le)) == le
    ensures var s := g.shape; s.next(le) != null ==> s.next(le) in g.repr && s.previous(s.next(le)) == le
    ensures g.shape.next(le) != le
    ensures WellFormed(Removed(g, le, b), n)
  {
    assert Inspect(true);
    BypassedForward(g.repr, g.shape, g.home, le, b);
    BypassedBackward(g.repr, g.shape, g.home, le, b);
  }

  /** The pointers after `le` has been put at the head of bucket `b`. */
  ghost function Pushed(shape: Shape, le: LinksEntry, b: nat): Shape
    requires b < |shape.heads|
  {
    var head := shape.heads[b];
    Shape(
      (l: LinksEntry) => if l == le then head else shape.next(l),
      (l: LinksEntry) => if l == le then null else if l == head then le else shape.previous(l),
      (l: LinksEntry) =>
        if l == le then (if head == null then 0 else shape.rank(head) - 1) else shape.rank(l),
      shape.heads[b := le])
  }

  lemma PushedForward(s: set<LinksEntry>, shape: Shape, home: Key -> nat, le: LinksEntry, b: nat)
    requires Forward(s, shape, home)
    requires le !in s && b == HomeOf(le, home) && b < |shape.heads|
    ensures Forward(s + {le}, Pushed(shape, le, b), home)
  {
    var s', shape' := s + {le}, Pushed(shape, le, b);
    forall l, x | l in s' && x in s' && l != x && HomeOf(l, home) == HomeOf(x, home) && shape'.rank(l) <= shape'.rank(x)
      ensures shape'.next(l) != null && shape'.rank(shape'.next(l)) <= shape'.rank(x)
    {
      assert Compare(l, x);
    }
  }

  lemma PushedBackward(s: set<LinksEntry>, shape: Shape, home: Key -> nat, le: LinksEntry, b: nat)
    requires Forward(s, shape, home) && Backward(s, shape, home)
    requires le !in s && b == HomeOf(le, home) && b < |shape.heads|
    ensures Backward(s + {le}, Pushed(shape, le, b), home)
  {
  }

  /** The layout after `le`, a record of a new key, is put into bucket `b`. */
  ghost function Inserted(g: Layout, le: LinksEntry, b: nat, rec: Rec<Entry>): Layout
    requires b < |g.shape.heads|
  {
    var k := le.canonical.key;
    Layout(g.table[k := rec], g.index[k := le], g.home, g.repr + {le}, Pushed(g.shape, le, b))
  }

  lemma InsertedWellFormed(g: Layout, n: nat, le: LinksEntry, b: nat, rec: Rec<Entry>)
    requires WellFormed(g, n)
    requires le !in g.repr && le.canonical.key !in g.table && b == HomeOf(le, g.home) && b < n
    ensures |g.shape.heads| == n && WellFormed(Inserted(g, le, b, rec), n)
    ensures g.shape.heads[b] != null ==> g.shape.heads[b] in g.repr
  {
    assert Inspect(true);
    PushedForward(g.repr, g.shape, g.home, le, b);
    PushedBackward(g.repr, g.shape, g.home, le, b);
  }

  /** The pointers after the head of bucket `b` has been dropped. */
  ghost function Popped(shape: Shape, b: nat): Shape
    requires b < |shape.heads| && shape.heads[b] != null
  {
    shape.(heads := shape.heads[b := shape.next(shape.heads[b])])
  }

  lemma PoppedForward(s: set<LinksEntry>, shape: Shape, home: Key -> nat, b: nat)
    requires Forward(s, shape, home) && b < |shape.heads| && shape.heads[b] != null
    ensures Forward(s - {shape.heads[b]}, Popped(shape, b), home)
  {
    var le := shape.heads[b];
    assert forall l <- s :: Compare(le, l);
    forall l, x | l in s - {le} && x in s - {le} && l != x && HomeOf(l, home) == HomeOf(x, home) && shape.rank(l) <= shape.rank(x)
      ensures shape.next(l) != null && shape.rank(shape.next(l)) <= shape.rank(x)
    {
      assert Compare(l, x);
    }
  }

  /** Records still to be moved: only their `next` pointers matter. */
  ghost predicate OneWay(s: set<LinksEntry>, shape: Shape, home: Key -> nat) {
    forall ask {:trigger Inspect(ask)} :: Inspect(ask) ==> Forward(s, shape, home)
  }

  /** Records already moved. */
  ghost predicate TwoWay(s: set<LinksEntry>, shape: Shape, home: Key -> nat) {
    forall ask {:trigger Inspect(ask)} :: Inspect(ask) ==> Forward(s, shape, home) && Backward(s, shape, home)
  }

  /** One step of growing the table: the head of bucket `i` moves to the head of its new bucket. */
  lemma MovedHead(from: set<LinksEntry>, fromShape: Shape, home: Key -> nat, i: nat,
                  to: set<LinksEntry>, toShape: Shape, newHome: Key -> nat)
    requires OneWay(from, fromShape, home) && TwoWay(to, toShape, newHome) && from !! to
    requires i < |fromShape.heads| && fromShape.heads[i] != null
    requires HomeOf(fromShape.heads[i], newHome) < |toShape.heads|
    ensures var le := fromShape.heads[i];
            var b := HomeOf(le, newHome);
            && le in from
            && OneWay(from - {le}, Popped(fromShape, i), home)
            && TwoWay(to + {le}, Pushed(toShape, le, b), newHome)
            && (toShape.heads[b] != null ==> toShape.heads[b] in to)
  {
    assert Inspect(true);
    var le := fromShape.heads[i];
    PoppedForward(from, fromShape, home, i);
    PushedForward(to, toShape, newHome, le, HomeOf(le, newHome));
    PushedBackward(to, toShape, newHome, le, HomeOf(le, newHome));
  }

  lemma NoHeadsNoRecords(s: set<LinksEntry>, shape: Shape, home: Key -> nat)
    requires OneWay(s, shape, home)
    requires forall b :: 0 <= b < |shape.heads| ==> shape.heads[b] == null
    ensures s == {}
  {
    assert Inspect(true);
    assert forall l <- s :: HomeOf(l, home) < |shape.heads|;
  }

  /** Walking bucket `b`, the search has reached `cur`, and every record of the
      bucket that is wanted is still ahead. */
  ghost predicate Passed(g: Layout, b: nat, cur: LinksEntry?, wanted: set<LinksEntry>) {
    if cur == null then
      forall x <- wanted :: HomeOf(x, g.home) != b
    else
      && cur in g.repr && HomeOf(cur, g.home) == b
      && forall x <- wanted :: HomeOf(x, g.home) == b ==> g.shape.rank(cur) <= g.shape.rank(x)
  }

  ghost function Ahead(g: Layout, cur: LinksEntry?): set<LinksEntry> {
    if cur == null then {} else set x | x in g.repr && g.shape.rank(cur) <= g.shape.rank(x)
  }

  lemma PassedStart(g: Layout, n: nat, b: nat, wanted: set<LinksEntry>)
    requires WellFormed(g, n) && b < n && wanted <= g.repr
    ensures |g.shape.heads| == n && Passed(g, b, g.shape.heads[b], wanted)
  {
    assert Inspect(true);
  }

  lemma PassedNext(g: Layout, n: nat, b: nat, cur: LinksEntry, wanted: set<LinksEntry>)
    requires WellFormed(g, n) && wanted <= g.repr
    requires Passed(g, b, cur, wanted) && cur !in wanted
    ensures Passed(g, b, g.shape.next(cur), wanted)
    ensures Ahead(g, g.shape.next(cur)) < Ahead(g, cur)
  {
    assert Inspect(true);
    assert forall x <- g.repr :: Compare(cur, x);
    assert cur in Ahead(g, cur);
  }

  lemma NotWanted(g: Layout, n: nat, k: Key)
    requires WellFormed(g, n)
    requires forall l <- g.repr :: l.canonical.key == k ==> HomeOf(l, g.home) != g.home(k)
    ensures k !in g.table
  {
    assert Inspect(true);
  }

  lemma HomeBucketOf(home: Key -> nat, n: nat, k: Key)
    requires IsHome(home, n)
    ensures n > 0 && home(k) == BucketOf(HashOf(k), n) < n
  {
    MaskIsRemainder(HashOf(k), n);
  }

  lemma HomeBucket(g: Layout, n: nat, k: Key)
    requires WellFormed(g, n)
    ensures n > 0 && g.home(k) == BucketOf(HashOf(k), n) < n
  {
    assert Inspect(true);
    MaskIsRemainder(HashOf(k), n);
  }

  ghost predicate Structured(g: Layout, buckets: array<LinksEntry?>)
    reads g.repr`next, g.repr`previous, buckets
  {
    && Agrees(g.repr, g.shape, buckets)
    && WellFormed(g, buckets.Length)
    && buckets.Length < SIZE_RANGE
  }

  ghost predicate GoodRecord(l: LinksEntry, table: Table<Entry>, strategy: Strategy)
    reads l`links, l`entry
  {
    && l.canonical.key in table && table[l.canonical.key] == l.Record()
    && 0 < l.links < UINT_RANGE
    && (l.entry != null <==> strategy == LikeNewCpio)
    && (l.entry != null ==> l.entry.attrs.key == l.canonical.key)
  }

  ghost predicate GoodRecords(s: set<LinksEntry>, table: Table<Entry>, strategy: Strategy)
    reads s`links, s`entry
  {
    forall l <- s :: GoodRecord(l, table, strategy)
  }

  /** At most two records a bucket when one more is about to go in, as long as
      the table can still grow. */
  ghost predicate Sized(numberEntries: nat, n: nat, table: Table<Entry>) {
    && numberEntries == |table|
    && (2 * n < SIZE_RANGE ==> numberEntries <= 2 * n + 1)
  }

  /** The cache and the entries handed back after a call under the new cpio strategy. */
  ghost predicate Rotated(t: Table<Entry>, t': Table<Entry>, e: Entry, first: Entry?, second: Entry?) {
    var k := e.attrs.key;
    if k in t then
      && t[k].held == Some(first) && t[k].links > 0
      && (if t[k].links == 1 then second == e && t' == t - {k}
          else second == null && t' == t[k := Rec(t[k].path, t[k].links - 1, Some(e))])
    else
      first == null && second == null && t' == AfterInsert(t, e.attrs, Some(e))
  }

  class Resolver {
    var buckets: array<LinksEntry?>
    var spare: LinksEntry?
    var numberEntries: nat
    var strategy: Strategy
    ghost var g: Layout

    ghost predicate Valid()
      reads this`buckets, this`numberEntries, this`strategy, this`g, buckets, g.repr
    {
      forall ask {:trigger InspectInner(ask)} :: InspectInner(ask) ==>
        && Structured(g, buckets)
        && GoodRecords(g.repr, g.table, strategy)
        && Sized(numberEntries, buckets.Length, g.table)
    }

    /** `Valid` but for the contents of one record. */
    ghost predicate ValidBut(le: LinksEntry)
      reads this`buckets, this`numberEntries, this`strategy, this`g, buckets, g.repr
    {
      && le in g.repr && le.canonical.key in g.table
      && forall ask {:trigger InspectInner(ask)} :: InspectInner(ask) ==>
           && Structured(g, buckets) && Sized(numberEntries, buckets.Length, g.table)
           && GoodRecords(g.repr - {le}, g.table, strategy)
    }

    lemma {:induction false} NowValid(le: LinksEntry)
      requires ValidBut(le) && GoodRecord(le, g.table, strategy)
      ensures Valid()
    {
      assert InspectInner(true);
    }

    /** What `Valid` says of one record. */
    lemma {:induction false} RecordIsGood(le: LinksEntry)
      requires Valid() && le in g.repr
      ensures GoodRecord(le, g.table, strategy)
    {
      assert InspectInner(true);
    }

    lemma {:induction false} TableIsOk()
      requires Valid()
      ensures TableOk(strategy, g.table)
    {
      assert InspectInner(true);
      assert Inspect(true);
      forall k <- g.table
        ensures 0 < g.table[k].links < UINT_RANGE && (g.table[k].held.Some? <==> strategy == LikeNewCpio)
      {
        assert GoodRecord(g.index[k], g.table, strategy);
      }
    }

    /** What `Valid` says of the records: one for each key of the map. */
    lemma {:induction false} TableRecords()
      requires Valid()
      ensures PowerOfTwo(buckets.Length) && numberEntries == |g.table|
      ensures 2 * buckets.Length < SIZE_RANGE ==> numberEntries <= 2 * buckets.Length + 1
      ensures forall k <- g.table :: exists l <- g.repr :: l.canonical.key == k && l.Record() == g.table[k]
      ensures forall l, x :: l in g.repr && x in g.repr && l.canonical.key == x.canonical.key ==> l == x
    {
      assert InspectInner(true);
      assert Inspect(true);
      forall k <- g.table
        ensures exists l <- g.repr :: l.canonical.key == k && l.Record() == g.table[k]
      {
        assert GoodRecord(g.index[k], g.table, strategy);
      }
    }

    /** What `Valid` says of the chains: doubly linked, in the bucket of the masked hash. */
    lemma {:induction false} TableChains(l: LinksEntry)
      requires Valid() && l in g.repr
      ensures l.next != null ==> l.next in g.repr && l.next.previous == l
      ensures l.previous != null ==> l.previous in g.repr && l.previous.next == l
      ensures buckets.Length > 0
      ensures var b := And(Xor(l.canonical.key.dev, l.canonical.key.ino), buckets.Length - 1);
              b < buckets.Length && buckets[b] != null && (l.previous == null <==> buckets[b] == l)
    {
      assert InspectInner(true);
      HomeBucket(g, buckets.Length, l.canonical.key);
      assert Inspect(true);
    }

    constructor (strategy: Strategy)
      ensures Valid() && fresh(buckets) && this.strategy == strategy
      ensures g.table == map[] && g.repr == {}
    {
      var b := new LinksEntry?[INITIAL_SIZE](_ => null);
      buckets := b;
      spare, numberEntries := null, 0;
      this.strategy := strategy;
      g := Layout(
        map[],
        map[],
        (k: Key) => BucketOf(HashOf(k), INITIAL_SIZE),
        {},
        Shape(_ => null, _ => null, _ => 0, seq(INITIAL_SIZE, _ => null)));
      new;
      assert PowerOfTwo(INITIAL_SIZE) by {
        assert PowerOfTwo(8) && PowerOfTwo(64) && PowerOfTwo(512);
      }
    }

    /** The search loop shared by every lookup. */
    method Lookup(e: Entry) returns (le: LinksEntry?)
      requires Structured(g, buckets) && GoodRecords(g.repr, g.table, strategy)
      ensures le == null <==> e.attrs.key !in g.table
      ensures le != null ==> le in g.repr && le.canonical.key == e.attrs.key
    {
      var hash := HashOf(e.attrs.key);
      HomeBucket(g, buckets.Length, e.attrs.key);
      var bucket := BucketOf(hash, buckets.Length);
      le := buckets[bucket];
      ghost var wanted := set l | l in g.repr && l.canonical.key == e.attrs.key;
      PassedStart(g, buckets.Length, bucket, wanted);
      while le != null
        invariant Passed(g, bucket, le, wanted)
        decreases Ahead(g, le)
      {
        assert GoodRecord(le, g.table, strategy);
        if le.hash == hash && le.canonical.key == e.attrs.key {
          return;
        }
        PassedNext(g, buckets.Length, bucket, le, wanted);
        le := le.next;
      }
      NotWanted(g, buckets.Length, e.attrs.key);
    }

    /** Take record `le` of bucket `b` out of its chain and hold it in `spare`. */
    method Unchain(le: LinksEntry, b: nat)
      requires Structured(g, buckets)
      requires le in g.repr && b == HomeOf(le, g.home) && b < buckets.Length
      requires numberEntries > 0
      modifies this, buckets, g.repr`next, g.repr`previous
      ensures Structured(g, buckets) && buckets == old(buckets) && strategy == old(strategy)
      ensures g == Removed(old(g), le, b)
      ensures numberEntries == old(numberEntries) - 1 && spare == le
    {
      RemovedWellFormed(g, buckets.Length, le, b);
      Bypass(le, g.repr, g.shape, buckets, b);
      numberEntries := numberEntries - 1;
      spare := le;
      g := Removed(g, le, b);
    }

    /** Take out a record whose links have all been seen, or that is handed back. */
    method Detach(le: LinksEntry)
      requires ValidBut(le)
      modifies this, buckets, g.repr`next, g.repr`previous
      ensures Valid() && buckets == old(buckets) && strategy == old(strategy) && g.repr == old(g.repr) - {le}
      ensures g.table == old(g.table) - {le.canonical.key}
      ensures spare == le
    {
      assert InspectInner(true);
      HomeBucket(g, buckets.Length, le.canonical.key);
      RecordsApart(g, buckets.Length, le, strategy);
      Unchain(le, BucketOf(le.hash, buckets.Length));
    }

    /** Let the map follow a record that was changed. */
    method Note(le: LinksEntry)
      requires ValidBut(le)
      modifies this`g
      ensures ValidBut(le) && g == old(g).(table := old(g.table)[le.canonical.key := le.Record()])
      ensures GoodRecord(le, g.table, strategy) ==> Valid()
    {
      assert InspectInner(true);
      RecordRewritten(g, buckets.Length, le, strategy);
      g := g.(table := g.table[le.canonical.key := le.Record()]);
    }

    /** A record may be changed. */
    lemma {:induction false} Without(le: LinksEntry)
      requires Valid() && le in g.repr
      ensures ValidBut(le) && GoodRecord(le, g.table, strategy)
    {
      assert InspectInner(true);
    }

    /** Count one more link of a record. At zero the record is about to go. */
    method CountLink(le: LinksEntry)
      requires Valid() && le in g.repr
      modifies this`g, le`links
      ensures ValidBut(le) && g.repr == old(g.repr)
      ensures le.canonical.key in old(g.table) && old(g.table)[le.canonical.key] == old(le.Record())
      ensures le.links == old(le.links) - 1
      ensures g.table == old(g.table)[le.canonical.key := le.Record()]
      ensures le.links > 0 ==> Valid()
    {
      Without(le);
      le.links := le.links - 1;
      assert InspectInner(true);
      Note(le);
    }

    method Consume(le: LinksEntry)
      requires Valid() && le in g.repr
      modifies this, buckets, g.repr
      ensures Valid() && buckets == old(buckets) && strategy == old(strategy) && g.repr <= old(g.repr)
      ensures le.canonical.key in old(g.table) && old(g.table)[le.canonical.key] == old(le.Record())
      ensures le.links == old(le.links) - 1 && le.entry == old(le.entry)
      ensures g.table == AfterFind(old(g.table), le.canonical.key)
      ensures le in g.repr <==> le.links > 0
    {
      CountLink(le);
      if le.links == 0 {
        Detach(le);
      }
    }

    method FindEntry(e: Entry) returns (le: LinksEntry?)
      requires Valid()
      modifies this, buckets, g.repr
      ensures Valid() && buckets == old(buckets) && strategy == old(strategy) && g.repr <= old(g.repr)
      ensures g.table == AfterFind(old(g.table), e.attrs.key)
      ensures le == null <==> e.attrs.key !in old(g.table)
      ensures le != null ==>
        && le in old(g.repr) && le.canonical.key == e.attrs.key
        && old(g.table)[e.attrs.key] == old(le.Record())
        && le.links == old(le.links) - 1 && le.entry == old(le.entry)
        && (le in g.repr <==> le.links > 0)
    {
      assert InspectInner(true);
      spare := null;
      le := Lookup(e);
      if le != null {
        Consume(le);
      }
    }

    /** Move every record to its bucket in a table twice the size. */
    method GrowHash()
      requires Structured(g, buckets)
      modifies this, buckets, g.repr`next, g.repr`previous
      ensures Structured(g, buckets) && strategy == old(strategy) && numberEntries == old(numberEntries)
      ensures g.table == old(g.table) && g.index == old(g.index) && g.repr == old(g.repr)
      ensures buckets == old(buckets) || fresh(buckets)
      ensures var n := old(buckets.Length); buckets.Length == if 2 * n < SIZE_RANGE then 2 * n else n
    {
      HomeBucket(g, buckets.Length, Key(0, 0));
      var newSize := (buckets.Length * 2) % SIZE_RANGE;
      if newSize < buckets.Length {
        return;
      }
      var newBuckets := new LinksEntry?[newSize](_ => null);
      ghost var newHome := (k: Key) => BucketOf(HashOf(k), newSize);
      ghost var newShape := MoveAll(g, buckets, newBuckets, newHome);
      buckets := newBuckets;
      g := g.(home := newHome, shape := newShape);
    }

    method InsertEntry(e: Entry) returns (le: LinksEntry)
      requires Valid() && e.attrs.key !in g.table && MayHaveLinks(e.attrs)
      modifies this, buckets, g.repr`next, g.repr`previous
      ensures ValidBut(le) && strategy == old(strategy) && (buckets == old(buckets) || fresh(buckets))
      ensures fresh(le) && g.repr == old(g.repr) + {le}
      ensures le.canonical == e.attrs && le.entry == null && le.links == LinksLeft(e.attrs.nlink)
      ensures g.table == AfterInsert(old(g.table), e.attrs, None)
    {
      assert InspectInner(true);
      le := new LinksEntry(e.attrs);
      MakeRoom();
      PlaceFirst(le);
    }

    /** Grow the table when a bucket has more than two records on average. */
    method MakeRoom()
      requires Structured(g, buckets) && Sized(numberEntries, buckets.Length, g.table)
      modifies this, buckets, g.repr`next, g.repr`previous
      ensures Structured(g, buckets) && strategy == old(strategy) && (buckets == old(buckets) || fresh(buckets))
      ensures numberEntries == |g.table| && (2 * buckets.Length < SIZE_RANGE ==> numberEntries <= 2 * buckets.Length)
      ensures g.table == old(g.table) && g.repr == old(g.repr)
    {
      HomeBucket(g, buckets.Length, Key(0, 0));
      if numberEntries > buckets.Length * 2 {
        GrowHash();
      }
    }

    /** Put a record of a new key at the head of its bucket. */
    method PlaceFirst(le: LinksEntry)
      requires Structured(g, buckets) && GoodRecords(g.repr, g.table, strategy)
      requires numberEntries == |g.table|
      requires 2 * buckets.Length < SIZE_RANGE ==> numberEntries <= 2 * buckets.Length
      requires le !in g.repr && le.canonical.key !in g.table
      modifies this, buckets, le`next, le`previous, g.repr`previous
      ensures ValidBut(le) && strategy == old(strategy) && buckets == old(buckets) && g.repr == old(g.repr) + {le}
      ensures g.table == old(g.table)[le.canonical.key := le.Record()]
    {
      RecordAdded(g, le, strategy);
      g := PutIn(buckets, le, g);
      numberEntries := numberEntries + 1;
      assert g.repr - {le} == old(g.repr);
    }

    /** Let a record hold back an entry, its own or the next of its group. */
    method Hold(le: LinksEntry, e: Entry)
      requires ValidBut(le)
      requires strategy == LikeNewCpio && 0 < le.links < UINT_RANGE && e.attrs.key == le.canonical.key
      modifies this`g, le`entry
      ensures Valid() && g.repr == old(g.repr)
      ensures g.table == old(g.table)[le.canonical.key := Rec(le.canonical.path, le.links, Some(e))]
      ensures le.entry == e
    {
      le.entry := e;
      assert InspectInner(true);
      Note(le);
    }

    /** Hand out a record that is deferred (holds an entry) or partial (holds none). */
    method NextEntry(deferred: bool, partial: bool) returns (le: LinksEntry?)
      requires Valid()
      modifies this, buckets, g.repr
      ensures Valid() && buckets == old(buckets) && strategy == old(strategy) && g.repr <= old(g.repr)
      ensures spare == le
      ensures le == null ==>
        && g.table == old(g.table)
        && forall k <- g.table :: if g.table[k].held.Some? then !deferred else !partial
      ensures le != null ==>
        && le in old(g.repr) && le !in g.repr
        && (if le.entry != null then deferred else partial)
        && le.canonical.key in old(g.table)
        && old(g.table)[le.canonical.key] == le.Record()
        && g.table == old(g.table) - {le.canonical.key}
    {
      spare := null;
      le := Search(deferred, partial);
      if le != null {
        Detach(le);
      }
    }

    /** The first record of the wanted sort, by bucket and then along the chain. */
    method Search(deferred: bool, partial: bool) returns (le: LinksEntry?)
      requires Valid()
      ensures le == null ==> forall k <- g.table :: if g.table[k].held.Some? then !deferred else !partial
      ensures le != null ==>
        && le in g.repr && (if le.entry != null then deferred else partial)
        && le.canonical.key in g.table && g.table[le.canonical.key] == le.Record()
    {
      assert InspectInner(true);
      ghost var wanted := set l | l in g.repr && if l.entry != null then deferred else partial;
      var bucket := 0;
      while bucket < buckets.Length
        invariant 0 <= bucket <= buckets.Length
        invariant forall x <- wanted :: HomeOf(x, g.home) >= bucket
      {
        le := buckets[bucket];
        PassedStart(g, buckets.Length, bucket, wanted);
        while le != null
          invariant Passed(g, bucket, le, wanted)
          decreases Ahead(g, le)
        {
          if !(le.entry != null && !deferred) && !(le.entry == null && !partial) {
            assert GoodRecord(le, g.table, strategy);
            return;
          }
          PassedNext(g, buckets.Length, bucket, le, wanted);
          le := le.next;
        }
        bucket := bucket + 1;
      }
      le := null;
      NoneWanted(g, buckets.Length, wanted);
      forall k <- g.table
        ensures if g.table[k].held.Some? then !deferred else !partial
      {
        assert Inspect(true);
        assert GoodRecord(g.index[k], g.table, strategy);
        assert g.index[k] !in wanted;
      }
    }

    /** The missing links of one name at the end of a run: its copy and how many. */
    method PartialLinks() returns (canonical: Option<Attrs>, links: nat)
      requires Valid()
      modifies this, buckets, g.repr
      ensures Valid() && strategy == old(strategy)
      ensures canonical == None ==> links == 0 && g.table == old(g.table) && forall k <- g.table :: g.table[k].held.Some?
      ensures canonical.Some? ==>
        && canonical.value.key in old(g.table)
        && old(g.table)[canonical.value.key] == Rec(canonical.value.path, links, None)
        && g.table == old(g.table) - {canonical.value.key}
    {
      spare := null;
      var le := NextEntry(false, true);
      if le != null {
        canonical, links := Some(le.canonical), le.links;
      } else {
        canonical, links := None, 0;
      }
    }

    /** The entry that a call with `e` may release, besides `e` itself. */
    ghost function Released(e: Entry): set<Entry>
      reads this
    {
      if MayHaveLinks(e.attrs) && e.attrs.key in g.table && g.table[e.attrs.key].held.Some?
      then {g.table[e.attrs.key].held.value} else {}
    }

    /** The tar and mtree strategies: a later link refers to the first one. */
    method LinkToFirst(e: Entry, dropBody: bool)
      requires Valid() && strategy != LikeNewCpio && MayHaveLinks(e.attrs)
      modifies this, buckets, g.repr, e
      ensures Valid() && strategy == old(strategy)
      ensures (buckets == old(buckets) || fresh(buckets)) && fresh(g.repr - old(g.repr))
      ensures var k := e.attrs.key;
              if k in old(g.table) then
                && g.table == AfterFind(old(g.table), k)
                && Applied(e, if dropBody then LinkNoBody(old(g.table)[k].path) else Link(old(g.table)[k].path))
              else
                g.table == AfterInsert(old(g.table), e.attrs, None) && Applied(e, Keep)
    {
      var le := FindEntry(e);
      if le != null {
        if dropBody {
          e.UnsetSize();
        }
        e.CopyHardlink(le.canonical.path);
      } else {
        AdmitPlain(e);
      }
    }

    /** Remember the first entry of a group, which goes out at once. */
    method AdmitPlain(e: Entry)
      requires Valid() && strategy != LikeNewCpio && MayHaveLinks(e.attrs) && e.attrs.key !in g.table
      modifies this, buckets, g.repr`next, g.repr`previous
      ensures Valid() && strategy == old(strategy)
      ensures (buckets == old(buckets) || fresh(buckets)) && fresh(g.repr - old(g.repr))
      ensures g.table == AfterInsert(old(g.table), e.attrs, None)
    {
      var le := InsertEntry(e);
      NowValid(le);
    }

    /** The new cpio strategy: the newest link waits in the cache, the one before it goes out. */
    method Rotate(e: Entry) returns (first: Entry?, second: Entry?)
      requires Valid() && strategy == LikeNewCpio && MayHaveLinks(e.attrs)
      requires forall k <- g.table :: g.table[k].held != Some(e)
      modifies this, buckets, g.repr, e, Released(e)
      ensures Valid() && strategy == old(strategy)
      ensures (buckets == old(buckets) || fresh(buckets)) && fresh(g.repr - old(g.repr))
      ensures Applied(e, Keep)
      ensures Rotated(old(g.table), g.table, e, first, second)
      ensures first != null ==> old(allocated(first)) && Applied(first, LinkNoBody(old(g.table)[e.attrs.key].path))
    {
      TableIsOk();
      var le := FindEntry(e);
      if le != null {
        first, second := Swap(le, e, old(g.table));
      } else {
        Admit(e);
        first, second := null, null;
      }
    }

    /** A later entry of a group takes the place of the one that waits; `t` was
        the cache before the record was found. */
    method Swap(le: LinksEntry, e: Entry, ghost t: Table<Entry>) returns (first: Entry, second: Entry?)
      requires Valid() && strategy == LikeNewCpio && le.canonical.key == e.attrs.key && e.attrs.key in t
      requires t[e.attrs.key] == Rec(le.canonical.path, le.links + 1, Some(le.entry)) && le.entry != null && le.entry != e
      requires g.table == AfterFind(t, e.attrs.key) && (le in g.repr <==> le.links > 0)
      modifies this, le, le.entry
      ensures Valid() && strategy == old(strategy) && buckets == old(buckets) && g.repr == old(g.repr)
      ensures first == old(le.entry) && Applied(first, LinkNoBody(le.canonical.path))
      ensures Rotated(t, g.table, e, first, second)
    {
      RewriteTwice(t, e.attrs.key, le.links, e);
      first, second := Exchange(le, e);
    }

    /** Tuck the first entry of a group away. */
    method Admit(e: Entry)
      requires Valid() && strategy == LikeNewCpio && MayHaveLinks(e.attrs) && e.attrs.key !in g.table
      modifies this, buckets, g.repr`next, g.repr`previous
      ensures Valid() && strategy == old(strategy)
      ensures (buckets == old(buckets) || fresh(buckets)) && fresh(g.repr - old(g.repr))
      ensures g.table == AfterInsert(old(g.table), e.attrs, Some(e))
    {
      var le := InsertEntry(e);
      Hold(le, e);
    }

    /** Put the new entry in the record, hand back the old one as a hard link. */
    method Exchange(le: LinksEntry, e: Entry) returns (first: Entry, second: Entry?)
      requires Valid() && strategy == LikeNewCpio && le.canonical.key == e.attrs.key
      requires le.entry != null && le.entry != e && (le in g.repr <==> le.links > 0)
      modifies this, le, le.entry
      ensures Valid() && strategy == old(strategy)
      ensures buckets == old(buckets) && g.repr == old(g.repr)
      ensures first == old(le.entry) && Applied(first, LinkNoBody(le.canonical.path))
      ensures second == if old(le.links) > 0 then null else e
      ensures g.table ==
        if old(le.links) > 0 then old(g.table)[e.attrs.key := Rec(le.canonical.path, old(le.links), Some(e))]
        else old(g.table)
    {
      if le in g.repr {
        RecordIsGood(le);
      }
      first, second := le.entry, null;
      if le.links > 0 {
        Hold(le, e);
      } else {
        le.entry := e;
      }
      first.UnsetSize();
      first.CopyHardlink(le.canonical.path);
      if le.links == 0 {
        second := le.entry;
        le.entry := null;
      }
    }

    /** One call with no entry, at the end of a run: hand back any one entry still
        waiting, and forget it in its record. */
    method Drain() returns (first: Entry?)
      requires Valid()
      modifies this, buckets, g.repr
      ensures Valid() && strategy == old(strategy)
      ensures buckets == old(buckets) && g.repr <= old(g.repr)
      ensures spare != null ==> spare.entry == null
      ensures first == null ==>
        g.table == old(g.table) && forall k <- g.table :: g.table[k].held == None
      ensures first != null ==>
        exists k <- old(g.table) :: old(g.table)[k].held == Some(first) && g.table == old(g.table) - {k}
    {
      var le := NextEntry(true, false);
      if le == null {
        return null;
      }
      first := le.entry;
      ghost var k := le.canonical.key;
      assert k in old(g.table) && old(g.table)[k].held == Some(first) && g.table == old(g.table) - {k};
      le.entry := null;
    }

    /** One call of the protocol: hand in `e`, get back up to two entries. */
    method Linkify(e: Entry) returns (first: Entry?, second: Entry?)
      requires Valid()
      requires forall k <- g.table :: g.table[k].held != Some(e)
      modifies this, buckets, g.repr, e, Released(e)
      ensures Valid() && strategy == old(strategy)
      ensures (buckets == old(buckets) || fresh(buckets)) && fresh(g.repr - old(g.repr))
      ensures
        && TableOk(strategy, old(g.table))
        && var (t, outs) := Step(strategy, old(g.table), e, e.attrs);
        && g.table == t
        && first == (if |outs| > 0 then outs[0].handle else null)
        && second == (if |outs| > 1 then outs[1].handle else null)
        && (first != null ==> old(allocated(first)) && Applied(first, outs[0].action))
        && (second != null ==> old(allocated(second)) && Applied(second, outs[1].action))
      ensures strategy == LikeNewCpio ==> Applied(e, Keep)
      // what has no links, or may not have any, is left alone
      ensures e.attrs.nlink == 1 || e.attrs.filetype in {Directory, BlockDevice, CharDevice} ==>
                first == e && second == null && Applied(e, Keep) && g.table == old(g.table)
      // the first name of anything else is remembered, and for new cpio held back
      ensures e.attrs.nlink != 1 && e.attrs.filetype in {Regular, Other} && e.attrs.key !in old(g.table) ==>
                && (strategy != LikeOldCpio ==> e.attrs.key in g.table)
                && first == (if strategy == LikeNewCpio then null else e) && second == null
    {
      TableIsOk();
      first, second := e, null;
      if e.attrs.nlink == 1 {
        return;
      }
      if e.attrs.filetype == Directory || e.attrs.filetype == BlockDevice || e.attrs.filetype == CharDevice {
        return;
      }
      match strategy {
        case LikeTar => LinkToFirst(e, true);
        case LikeMtree => LinkToFirst(e, false);
        case LikeOldCpio =>
        case LikeNewCpio => first, second := Rotate(e);
      }
    }
  }

  lemma RewriteTwice(t: Table<Entry>, k: Key, links: nat, e: Entry)
    requires k in t && t[k].links == links + 1
    ensures AfterFind(t, k) == if links == 0 then t - {k} else t[k := t[k].(links := links)]
    ensures links > 0 ==> AfterFind(t, k)[k := Rec(t[k].path, links, Some(e))] == t[k := Rec(t[k].path, links, Some(e))]
  {
  }

  /** Dropping one key does not touch the meaning of the other records. */
  lemma RecordsApart(g: Layout, n: nat, le: LinksEntry, strategy: Strategy)
    requires WellFormed(g, n) && le in g.repr
    requires GoodRecords(g.repr - {le}, g.table, strategy)
    ensures GoodRecords(g.repr - {le}, g.table - {le.canonical.key}, strategy)
    ensures |g.table - {le.canonical.key}| == |g.table| - 1
  {
    assert Inspect(true);
    var rest := g.table - {le.canonical.key};
    assert g.table == rest[le.canonical.key := g.table[le.canonical.key]];
    forall l <- g.repr - {le}
      ensures GoodRecord(l, rest, strategy)
    {
      assert GoodRecord(l, g.table, strategy);
    }
  }

  lemma RecordRewritten(g: Layout, n: nat, le: LinksEntry, strategy: Strategy)
    requires WellFormed(g, n) && le in g.repr
    requires GoodRecords(g.repr - {le}, g.table, strategy)
    ensures var table := g.table[le.canonical.key := le.Record()];
            && GoodRecords(g.repr - {le}, table, strategy)
            && (GoodRecord(le, table, strategy) ==> GoodRecords(g.repr, table, strategy))
            && WellFormed(g.(table := table), n)
            && |table| == |g.table|
  {
    assert Inspect(true);
    var table := g.table[le.canonical.key := le.Record()];
    forall l <- g.repr - {le}
      ensures GoodRecord(l, table, strategy)
    {
      assert GoodRecord(l, g.table, strategy);
    }
    assert forall l <- g.repr :: l == le || l in g.repr - {le};
    assert table.Keys == g.table.Keys;
  }

  /** The state of the table in the middle of growing: `from` is still threaded
      through the old buckets, `to` is already in the new ones. */
  ghost predicate Growing(g: Layout, from: set<LinksEntry>, fromShape: Shape, buckets: array<LinksEntry?>,
                          to: set<LinksEntry>, toShape: Shape, newBuckets: array<LinksEntry?>, newHome: Key -> nat)
    reads from`next, to`next, to`previous, buckets, newBuckets
  {
    && from !! to && from + to == g.repr
    && fromShape.heads == buckets[..]
    && (forall l {:trigger l.next} :: l in from ==> l.next == fromShape.next(l))
    && OneWay(from, fromShape, g.home)
    && Agrees(to, toShape, newBuckets)
    && TwoWay(to, toShape, newHome)
  }

  lemma GrowthStarts(g: Layout, n: nat, newHome: Key -> nat, newShape: Shape)
    requires WellFormed(g, n) && n > 0
    requires forall k :: newHome(k) == BucketOf(HashOf(k), 2 * n)
    requires newShape.heads == seq(2 * n, _ => null)
    ensures |g.shape.heads| == n && OneWay(g.repr, g.shape, g.home) && TwoWay({}, newShape, newHome)
    ensures IsHome(newHome, 2 * n)
  {
    assert Inspect(true);
  }

  lemma GrowthEnds(g: Layout, n: nat, newHome: Key -> nat, newShape: Shape)
    requires WellFormed(g, n) && IsHome(newHome, 2 * n)
    requires TwoWay(g.repr, newShape, newHome) && |newShape.heads| == 2 * n
    ensures WellFormed(g.(home := newHome, shape := newShape), 2 * n)
  {
    assert Inspect(true);
  }

  /** Move the head of an old bucket to its new one. */
  method MoveOne(ghost g: Layout, i: nat, buckets: array<LinksEntry?>, ghost from: set<LinksEntry>, ghost shape: Shape,
                 newBuckets: array<LinksEntry?>, ghost to: set<LinksEntry>, ghost newShape: Shape,
                 ghost newHome: Key -> nat)
    returns (ghost from': set<LinksEntry>, ghost shape': Shape, ghost to': set<LinksEntry>, ghost newShape': Shape)
    requires i < buckets.Length && buckets[i] != null && buckets != newBuckets
    requires newBuckets.Length > 0 && forall k :: newHome(k) == BucketOf(HashOf(k), newBuckets.Length)
    requires IsHome(newHome, newBuckets.Length)
    requires Growing(g, from, shape, buckets, to, newShape, newBuckets, newHome)
    modifies buckets, newBuckets, g.repr`next, g.repr`previous
    ensures Growing(g, from', shape', buckets, to', newShape', newBuckets, newHome) && from' < from
    ensures forall j :: 0 <= j < buckets.Length && j != i ==> buckets[j] == old(buckets[j])
  {
    var le := buckets[i];
    HomeBucketOf(newHome, newBuckets.Length, le.canonical.key);
    MovedHead(from, shape, g.home, i, to, newShape, newHome);
    buckets[i] := le.next;
    var bucket := BucketOf(le.hash, newBuckets.Length);
    PushFront(newBuckets, bucket, le, to, newShape);
    from', shape' := from - {le}, Popped(shape, i);
    to', newShape' := to + {le}, Pushed(newShape, le, bucket);
  }

  /** The loops of the source's growth step: empty each old bucket from its head. */
  method MoveAll(ghost g: Layout, buckets: array<LinksEntry?>, newBuckets: array<LinksEntry?>, ghost newHome: Key -> nat)
    returns (ghost newShape: Shape)
    requires buckets != newBuckets && Agrees(g.repr, g.shape, buckets) && WellFormed(g, buckets.Length)
    requires newBuckets.Length == 2 * buckets.Length
    requires forall b :: 0 <= b < newBuckets.Length ==> newBuckets[b] == null
    requires newBuckets.Length > 0 && forall k :: newHome(k) == BucketOf(HashOf(k), newBuckets.Length)
    modifies buckets, newBuckets, g.repr`next, g.repr`previous
    ensures Agrees(g.repr, newShape, newBuckets)
    ensures WellFormed(g.(home := newHome, shape := newShape), newBuckets.Length)
  {
    ghost var from: set<LinksEntry>, shape := g.repr, g.shape;
    ghost var to: set<LinksEntry> := {};
    newShape := Shape(_ => null, _ => null, _ => 0, seq(newBuckets.Length, _ => null));
    GrowthStarts(g, buckets.Length, newHome, newShape);
    var i := 0;
    while i < buckets.Length
      invariant 0 <= i <= buckets.Length
      invariant forall j :: 0 <= j < i ==> buckets[j] == null
      invariant Growing(g, from, shape, buckets, to, newShape, newBuckets, newHome)
    {
      while buckets[i] != null
        invariant forall j :: 0 <= j < i ==> buckets[j] == null
        invariant Growing(g, from, shape, buckets, to, newShape, newBuckets, newHome)
        decreases from
      {
        from, shape, to, newShape := MoveOne(g, i, buckets, from, shape, newBuckets, to, newShape, newHome);
      }
      i := i + 1;
    }
    NoHeadsNoRecords(from, shape, g.home);
    GrowthEnds(g, buckets.Length, newHome, newShape);
  }

  method PutIn(buckets: array<LinksEntry?>, le: LinksEntry, ghost g: Layout) returns (ghost g': Layout)
    requires Structured(g, buckets) && le !in g.repr && le.canonical.key !in g.table
    modifies buckets, le`next, le`previous, g.repr`previous
    ensures Structured(g', buckets)
    ensures g'.repr == g.repr + {le} && g'.table == g.table[le.canonical.key := le.Record()]
  {
    HomeBucket(g, buckets.Length, le.canonical.key);
    var bucket := BucketOf(le.hash, buckets.Length);
    InsertedWellFormed(g, buckets.Length, le, bucket, le.Record());
    PushFront(buckets, bucket, le, g.repr, g.shape);
    g' := Inserted(g, le, bucket, le.Record());
  }

  method PushFront(buckets: array<LinksEntry?>, b: nat, le: LinksEntry, ghost s: set<LinksEntry>, ghost shape: Shape)
    requires b < buckets.Length && Agrees(s, shape, buckets) && le !in s
    requires shape.heads[b] != null ==> shape.heads[b] in s
    modifies buckets, le`next, le`previous, s`previous
    ensures Agrees(s + {le}, Pushed(shape, le, b), buckets)
  {
    if buckets[b] != null {
      buckets[b].previous := le;
    }
    le.next := buckets[b];
    le.previous := null;
    buckets[b] := le;
  }

  lemma RecordAdded(g: Layout, le: LinksEntry, strategy: Strategy)
    requires GoodRecords(g.repr, g.table, strategy) && le.canonical.key !in g.table
    ensures var table := g.table[le.canonical.key := le.Record()];
            GoodRecords(g.repr, table, strategy) && |table| == |g.table| + 1
  {
    forall l <- g.repr
      ensures GoodRecord(l, g.table[le.canonical.key := le.Record()], strategy)
    {
      assert GoodRecord(l, g.table, strategy);
    }
  }

  lemma NoneWanted(g: Layout, n: nat, wanted: set<LinksEntry>)
    requires WellFormed(g, n) && wanted <= g.repr
    requires forall x <- wanted :: HomeOf(x, g.home) >= n
    ensures wanted == {}
  {
    assert Inspect(true);
  }

  method Bypass(le: LinksEntry, ghost s: set<LinksEntry>, ghost shape: Shape, buckets: array<LinksEntry?>, b: nat)
    requires le in s && b < buckets.Length && Agrees(s, shape, buckets)
    requires shape.previous(le) != null ==> shape.previous(le) in s && shape.next(shape.previous(le)) == le
    requires shape.next(le) != null ==> shape.next(le) in s && shape.previous(shape.next(le)) == le
    requires shape.next(le) != le
    modifies buckets, s`next, s`previous
    ensures Agrees(s, Bypassed(shape, le, b), buckets)
  {
    if le.previous != null {
      le.previous.next := le.next;
    }
    if le.next != null {
      le.next.previous := le.previous;
    }
    if buckets[b] == le {
      buckets[b] := le.next;
    }
  }
}
