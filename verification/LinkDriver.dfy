/** A whole run of the resolver on entries: feed them all, then drain the cache.
    What the run does to the objects follows from the input alone. */
module LinkDriver {
  import opened Wrappers
  import opened LinkSpec
  import opened LinkTable
  import opened LinkRuns

  function Items(entries: seq<Entry>): (es: seq<Item<Entry>>)
    ensures |es| == |entries|
  {
    seq(|entries|, i requires 0 <= i < |entries| => Item(entries[i], entries[i].attrs))
  }

  ghost predicate Distinct(entries: seq<Entry>) {
    forall i, j :: 0 <= i < j < |entries| ==> entries[i] != entries[j]
  }

  function Handles<H>(outs: seq<Out<H>>): (hs: seq<H>)
    ensures |hs| == |outs|
  {
    seq(|outs|, i requires 0 <= i < |outs| => outs[i].handle)
  }

  function Without<T>(b: seq<T>, j: nat): (r: seq<T>)
    requires j < |b|
    ensures |r| == |b| - 1
  {
    b[..j] + b[j + 1..]
  }

  lemma {:induction false} WithoutOne<T>(b: seq<T>, j: nat)
    requires j < |b|
    ensures multiset(Without(b, j)) == multiset(b) - multiset{b[j]} && b[j] in multiset(b)
  {
    assert b == b[..j] + [b[j]] + b[j + 1..];
  }

  lemma {:induction false} HandlesWithoutOne<H>(b: seq<Out<H>>, j: nat)
    requires j < |b|
    ensures multiset(Handles(Without(b, j))) == multiset(Handles(b)) - multiset{b[j].handle}
    ensures b[j].handle in multiset(Handles(b))
  {
    WithoutOne(Handles(b), j);
    assert Without(Handles(b), j) == Handles(Without(b, j));
  }

  lemma {:induction false} FindIn<T>(x: T, b: seq<T>) returns (j: nat)
    requires x in multiset(b)
    ensures j < |b| && b[j] == x
  {
    j :| j < |b| && b[j] == x;
  }

  lemma {:induction false} SameHandles<H>(a: seq<Out<H>>, b: seq<Out<H>>)
    requires multiset(a) == multiset(b)
    ensures multiset(Handles(a)) == multiset(Handles(b))
    decreases |a|
  {
    if a == [] {
      assert |b| == |multiset(b)| == 0;
    } else {
      var x := a[0];
      WithoutOne(a, 0);
      var j := FindIn(x, b);
      WithoutOne(b, j);
      HandlesWithoutOne(a, 0);
      HandlesWithoutOne(b, j);
      SameHandles(Without(a, 0), Without(b, j));
      PutBack(multiset(Handles(a)), multiset(Handles(b)), x.handle);
    }
  }

  lemma {:induction false} PutBack<T>(a: multiset<T>, b: multiset<T>, x: T)
    requires x in a && x in b && a - multiset{x} == b - multiset{x}
    ensures a == b
  {
    assert a == (a - multiset{x}) + multiset{x};
    assert b == (b - multiset{x}) + multiset{x};
  }

  // ----- the state of the entries -----

  datatype Init = Init(size: int, sizeSet: bool, hardlink: Option<string>)

  /** The entry as it was at the start, but for the action. */
  ghost predicate IsAs(e: Entry, act: Action, init: Init)
    reads e
  {
    match act
    case Keep => Init(e.size, e.sizeSet, e.hardlink) == init
    case Link(t) => Init(e.size, e.sizeSet, e.hardlink) == init.(hardlink := Some(t))
    case LinkNoBody(t) => e.size == 0 && !e.sizeSet && e.hardlink == Some(t)
  }

  /** What has been done to an entry after `m` calls: its fate, once it is settled. */
  ghost function ActionSoFar<H>(es: seq<Item<H>>, m: nat, i: nat): Action
    requires i < |es| && m <= |es|
  {
    if i < m && !Waiting(es, m, i) then Fate(es, m, i).action else Keep
  }

  ghost predicate Progress(entries: seq<Entry>, m: nat, inits: seq<Init>)
    requires m <= |entries| == |inits|
    reads entries
  {
    forall i :: 0 <= i < |entries| ==> IsAs(entries[i], ActionSoFar(Items(entries), m, i), inits[i])
  }

  /** A call settles the entry that waits for the file of the new one, and the
      new one unless it waits now; it changes no other. */
  lemma {:induction false} OthersStay<H>(es: seq<Item<H>>, m: nat, i: nat)
    requires i < |es| && m < |es| && i != m
    requires !(i < m && MayHaveLinks(es[m].attrs) && Waiting(es, m, i) && es[i].attrs.key == es[m].attrs.key)
    ensures ActionSoFar(es, m + 1, i) == ActionSoFar(es, m, i)
  {
    if i < m {
      FateGrows(es, m, i);
    }
  }

  /** Whom a call releases: the entry that waits for the file. */
  lemma {:induction false} WhoIsReleased<H>(es: seq<Item<H>>, m: nat)
    requires m < |es|
    ensures var t, k := Run(LikeNewCpio, es, m).0, es[m].attrs.key;
            var outs := Step(LikeNewCpio, t, es[m].handle, es[m].attrs).1;
            if MayHaveLinks(es[m].attrs) && k in t then
              var p := LastBefore(es, k, m);
              && p >= 0 && Waiting(es, m, p) && t[k].held == Some(es[p].handle)
              && !Waiting(es, m + 1, p)
              && outs == (if Waiting(es, m + 1, m) then [Fate(es, m + 1, p)] else [Fate(es, m + 1, p), Fate(es, m + 1, m)])
            else
              outs == (if Waiting(es, m + 1, m) then [] else [Fate(es, m + 1, m)])
  {
    var t, k := Run(LikeNewCpio, es, m).0, es[m].attrs.key;
    CacheIsOpenGroups(LikeNewCpio, es, m, k);
    if MayHaveLinks(es[m].attrs) && k in t {
      JoinOuts(es, m, t);
    } else {
      StartOuts(es, m, t);
    }
  }

  /** The newcomer is never changed by its own call. */
  lemma {:induction false} NewcomerKept<H>(es: seq<Item<H>>, m: nat)
    requires m < |es|
    ensures Fate(es, m + 1, m) == Out(es[m].handle, Keep) && ActionSoFar(es, m + 1, m) == Keep
  {
  }

  lemma OnlyEarlierHeld(entries: seq<Entry>, m: nat)
    requires Distinct(entries) && m < |entries|
    ensures forall k <- Run(LikeNewCpio, Items(entries), m).0 ::
              Run(LikeNewCpio, Items(entries), m).0[k].held != Some(entries[m])
  {
    var es := Items(entries);
    forall k <- Run(LikeNewCpio, es, m).0
      ensures Run(LikeNewCpio, es, m).0[k].held != Some(entries[m])
    {
      CacheIsOpenGroups(LikeNewCpio, es, m, k);
      assert es[LastBefore(es, k, m)].handle == entries[LastBefore(es, k, m)];
    }
  }

  /** The position that call `m` releases, if there is one, or else `m`. */
  ghost function ReleasedAt<H>(es: seq<Item<H>>, m: nat): (p: nat)
    requires m < |es|
    ensures p <= m
  {
    if MayHaveLinks(es[m].attrs) && Open(es, m, es[m].attrs.key) then LastBefore(es, es[m].attrs.key, m) else m
  }

  /** One call, with what it hands back. */
  method Handover(r: Resolver, e: Entry) returns (back: seq<Entry>)
    requires r.Valid() && r.strategy == LikeNewCpio
    requires forall k <- r.g.table :: r.g.table[k].held != Some(e)
    modifies r, r.buckets, r.g.repr, e, r.Released(e)
    ensures r.Valid() && r.strategy == LikeNewCpio && Applied(e, Keep)
    ensures (r.buckets == old(r.buckets) || fresh(r.buckets)) && (forall l <- r.g.repr :: l in old(r.g.repr) || fresh(l))
    ensures TableOk(LikeNewCpio, old(r.g.table))
            && var (t, outs) := Step(LikeNewCpio, old(r.g.table), e, e.attrs);
            && r.g.table == t && back == Handles(outs)
            && (outs != [] ==> old(allocated(outs[0].handle)) && Applied(outs[0].handle, outs[0].action))
  {
    r.TableIsOk();
    ghost var outs := Step(LikeNewCpio, r.g.table, e, e.attrs).1;
    var first, second := r.Linkify(e);
    back := NonNull(first) + NonNull(second);
    PairOf(outs, first, second);
  }

  function NonNull(e: Entry?): seq<Entry> {
    if e == null then [] else [e]
  }

  lemma PairOf(outs: seq<Out<Entry>>, first: Entry?, second: Entry?)
    requires |outs| <= 2
    requires first == (if |outs| > 0 then outs[0].handle else null)
    requires second == (if |outs| > 1 then outs[1].handle else null)
    ensures NonNull(first) + NonNull(second) == Handles(outs)
  {
  }

  /** One call, with what it hands back: who is changed, and how. Only entry
      `p` may be waiting for the file of entry `m`. */
  method Call(r: Resolver, entries: seq<Entry>, m: nat, ghost p: nat, ghost act: Action, ghost outs: seq<Out<Entry>>)
      returns (back: seq<Entry>)
    requires r.Valid() && r.strategy == LikeNewCpio && Distinct(entries) && p <= m < |entries|
    requires TableOk(LikeNewCpio, r.g.table) && outs == Step(LikeNewCpio, r.g.table, entries[m], entries[m].attrs).1
    requires (forall k <- r.g.table :: r.g.table[k].held != Some(entries[m])) && r.Released(entries[m]) <= {entries[p]}
    requires forall o <- outs :: o == Out(entries[m], Keep) || (p != m && o == Out(entries[p], act))
    requires p != m ==> |outs| > 0 && outs[0] == Out(entries[p], act)
    modifies r, r.buckets, r.g.repr, entries
    ensures r.Valid() && r.strategy == LikeNewCpio
    ensures (r.buckets == old(r.buckets) || fresh(r.buckets)) && (forall l <- r.g.repr :: l in old(r.g.repr) || fresh(l))
    ensures r.g.table == Step(LikeNewCpio, old(r.g.table), entries[m], entries[m].attrs).0
    ensures back == Handles(outs)
    ensures forall i :: 0 <= i < |entries| && i != p ==> Applied(entries[i], Keep)
    ensures Applied(entries[p], if p == m then Keep else act)
  {
    back := Handover(r, entries[m]);
  }

  /** What call `m` of a run hands back. */
  ghost function OutsOf(entries: seq<Entry>, m: nat): seq<Out<Entry>>
    requires m < |entries|
  {
    Step(LikeNewCpio, Run(LikeNewCpio, Items(entries), m).0, entries[m], entries[m].attrs).1
  }

  lemma CallShape(entries: seq<Entry>, m: nat)
    requires m < |entries|
    ensures var es, t := Items(entries), Run(LikeNewCpio, Items(entries), m).0;
            var p := ReleasedAt(es, m);
            var act := Fate(es, m + 1, p).action;
            && (forall o <- OutsOf(entries, m) :: o == Out(entries[m], Keep) || (p != m && o == Out(entries[p], act)))
            && (p != m ==> |OutsOf(entries, m)| > 0 && OutsOf(entries, m)[0] == Out(entries[p], act))
            && (MayHaveLinks(entries[m].attrs) && entries[m].attrs.key in t ==>
                  t[entries[m].attrs.key].held == Some(entries[p]))
  {
    var es := Items(entries);
    WhoIsReleased(es, m);
    NewcomerKept(es, m);
    CacheIsOpenGroups(LikeNewCpio, es, m, es[m].attrs.key);
  }

  /** Feeding entry `m`. */
  method FeedOne(r: Resolver, entries: seq<Entry>, m: nat, ghost inits: seq<Init>) returns (back: seq<Entry>)
    requires r.Valid() && r.strategy == LikeNewCpio && Distinct(entries) && m < |entries| == |inits|
    requires r.g.table == Run(LikeNewCpio, Items(entries), m).0 && Progress(entries, m, inits)
    modifies r, r.buckets, r.g.repr, entries
    ensures r.Valid() && r.strategy == LikeNewCpio
    ensures (r.buckets == old(r.buckets) || fresh(r.buckets)) && (forall l <- r.g.repr :: l in old(r.g.repr) || fresh(l))
    ensures r.g.table == Run(LikeNewCpio, Items(entries), m + 1).0 && Progress(entries, m + 1, inits)
    ensures back == Handles(OutsOf(entries, m))
  {
    ghost var es := Items(entries);
    ghost var p := ReleasedAt(es, m);
    ghost var act := Fate(es, m + 1, p).action;
    CallShape(entries, m);
    OnlyEarlierHeld(entries, m);
    ActionsAfter(es, m);
    back := Call(r, entries, m, p, act, OutsOf(entries, m));
    forall i | 0 <= i < |entries|
      ensures IsAs(entries[i], ActionSoFar(es, m + 1, i), inits[i])
    {
    }
  }

  /** How a call changes what has been done so far. */
  lemma {:induction false} ActionsAfter<H>(es: seq<Item<H>>, m: nat)
    requires m < |es|
    ensures var p := ReleasedAt(es, m);
            && (forall i :: 0 <= i < |es| && i != p ==> ActionSoFar(es, m + 1, i) == ActionSoFar(es, m, i))
            && (if p == m then ActionSoFar(es, m + 1, m) == ActionSoFar(es, m, m) == Keep
                else ActionSoFar(es, m, p) == Keep && ActionSoFar(es, m + 1, p) == Fate(es, m + 1, p).action
                     && Fate(es, m + 1, p).action.LinkNoBody?)
  {
    var p := ReleasedAt(es, m);
    NewcomerKept(es, m);
    WhoIsReleased(es, m);
    forall i | 0 <= i < |es| && i != p
      ensures ActionSoFar(es, m + 1, i) == ActionSoFar(es, m, i)
    {
      if i != m {
        OthersStay(es, m, i);
      }
    }
  }

  lemma {:induction false} HandlesConcat<H>(a: seq<Out<H>>, b: seq<Out<H>>)
    ensures Handles(a + b) == Handles(a) + Handles(b)
  {
  }

  lemma RunStep(entries: seq<Entry>, m: nat)
    requires m < |entries|
    ensures Run(LikeNewCpio, Items(entries), m + 1).1 == Run(LikeNewCpio, Items(entries), m).1 + OutsOf(entries, m)
  {
  }

  /** The cache, the entries handed back and the state of all after `m` calls. */
  ghost predicate Fed(r: Resolver, outs: seq<Entry>, entries: seq<Entry>, m: nat, inits: seq<Init>)
    requires m <= |entries| == |inits|
    reads r, r.buckets, r.g.repr, entries
  {
    forall ask {:trigger Inspect(ask)} :: Inspect(ask) ==>
      && r.Valid() && r.strategy == LikeNewCpio && Progress(entries, m, inits)
      && r.g.table == Run(LikeNewCpio, Items(entries), m).0 && outs == Handles(Run(LikeNewCpio, Items(entries), m).1)
  }

  method FeedNext(r: Resolver, entries: seq<Entry>, m: nat, outs: seq<Entry>, ghost inits: seq<Init>)
      returns (outs': seq<Entry>)
    requires Distinct(entries) && m < |entries| == |inits| && Fed(r, outs, entries, m, inits)
    modifies r, r.buckets, r.g.repr, entries
    ensures (r.buckets == old(r.buckets) || fresh(r.buckets)) && (forall l <- r.g.repr :: l in old(r.g.repr) || fresh(l))
    ensures Fed(r, outs', entries, m + 1, inits)
  {
    assert Inspect(true);
    RunStep(entries, m);
    HandlesConcat(Run(LikeNewCpio, Items(entries), m).1, OutsOf(entries, m));
    var back := FeedOne(r, entries, m, inits);
    outs' := outs + back;
  }

  function Left(t: Table<Entry>, order: seq<Key>): Table<Entry> {
    map k | k in t && k !in order :: t[k]
  }

  /** The files in `order` are drained, of those in `t`; `rest` is left. */
  ghost predicate Emptied(rest: Table<Entry>, t: Table<Entry>, order: seq<Key>, outs: seq<Entry>) {
    forall ask {:trigger Inspect(ask)} :: Inspect(ask) ==>
      && rest == Left(t, order)
      && (forall i, j :: 0 <= i < j < |order| ==> order[i] != order[j])
      && (forall k <- order :: k in t && t[k].held.Some?)
      && outs == Handles(Drained(t, order))
  }

  lemma NothingDrained(t: Table<Entry>)
    ensures Emptied(t, t, [], [])
  {
    assert t == Left(t, []);
  }

  lemma OneDrained(rest: Table<Entry>, t: Table<Entry>, order: seq<Key>, outs: seq<Entry>, k: Key)
    requires Emptied(rest, t, order, outs) && k in rest && rest[k].held.Some?
    ensures Emptied(rest - {k}, t, order + [k], outs + [rest[k].held.value]) && |rest - {k}| < |rest|
  {
    assert Inspect(true);
    assert Left(t, order) - {k} == Left(t, order + [k]);
    assert Left(t, order).Keys == Left(t, order + [k]).Keys + {k};
    assert Drained(t, order + [k]) == Drained(t, order) + [Out(t[k].held.value, Keep)];
    assert Handles(Drained(t, order + [k])) == Handles(Drained(t, order)) + [t[k].held.value];
  }

  /** In the end the order was one of all files. */
  lemma DrainedAll(t: Table<Entry>, order: seq<Key>, outs: seq<Entry>)
    requires Emptied(map[], t, order, outs)
    ensures Enumerates(order, t.Keys) && (forall k <- order :: k in t && t[k].held.Some?)
    ensures outs == Handles(Drained(t, order))
  {
    assert Inspect(true);
    forall k | k in t
      ensures k in order
    {
      assert k !in Left(t, order);
    }
  }

  /** One call without an entry. */
  method DrainOnce(r: Resolver) returns (back: seq<Entry>, ghost ks: seq<Key>)
    requires r.Valid() && r.strategy == LikeNewCpio
    modifies r, r.buckets, r.g.repr
    ensures r.Valid() && r.strategy == LikeNewCpio && r.buckets == old(r.buckets) && r.g.repr <= old(r.g.repr)
    ensures if back == [] then r.g.table == old(r.g.table) == map[]
            else exists k, e :: ks == [k] && back == [e] && k in old(r.g.table)
                   && old(r.g.table)[k].held == Some(e) && r.g.table == old(r.g.table) - {k}
  {
    r.TableIsOk();
    ghost var before := r.g.table;
    var first := r.Drain();
    back, ks := NonNull(first), [];
    if first == null {
      assert r.g.table == map[];
    } else {
      ghost var k :| k in before && before[k].held == Some(first) && r.g.table == before - {k};
      ks := [k];
    }
  }

  /** Calls without an entry, until nothing comes back. */
  method DrainAll(r: Resolver) returns (outs: seq<Entry>, ghost order: seq<Key>)
    requires r.Valid() && r.strategy == LikeNewCpio
    modifies r, r.buckets, r.g.repr
    ensures Emptied(map[], old(r.g.table), order, outs)
  {
    ghost var t := r.g.table;
    outs, order := [], [];
    NothingDrained(t);
    var more := true;
    while more
      invariant r.Valid() && r.strategy == LikeNewCpio && r.buckets == old(r.buckets) && r.g.repr <= old(r.g.repr)
      invariant Emptied(if more then r.g.table else map[], t, order, outs)
      decreases more, |r.g.table|
    {
      ghost var before := r.g.table;
      var back, ks := DrainOnce(r);
      more := back != [];
      if more {
        OneDrained(before, t, order, outs, ks[0]);
        outs := outs + back;
        order := order + ks;
      }
    }
  }

  lemma {:induction false} FinalAction<H>(es: seq<Item<H>>, i: nat)
    requires i < |es|
    ensures ActionSoFar(es, |es|, i) == Fate(es, |es|, i).action
  {
  }

  /** All that a run hands back are the entries that went in. */
  lemma {:induction false} AllComeBack(entries: seq<Entry>, outs: seq<Entry>, rest: seq<Entry>, order: seq<Key>)
    requires Enumerates(order, Run(LikeNewCpio, Items(entries), |entries|).0.Keys)
    requires outs == Handles(Run(LikeNewCpio, Items(entries), |entries|).1)
    requires rest == Handles(Drained(Run(LikeNewCpio, Items(entries), |entries|).0, order))
    ensures multiset(outs + rest) == multiset(entries)
  {
    var es := Items(entries);
    var t, run := Run(LikeNewCpio, es, |es|).0, Run(LikeNewCpio, es, |es|).1;
    var fates := Fates(es);
    NewCpioConservation(es, order);
    SameHandles(run + Drained(t, order), fates);
    HandlesConcat(run, Drained(t, order));
    assert Handles(fates) == entries;
  }

  function InitOf(e: Entry): Init
    reads e
  {
    Init(e.size, e.sizeSet, e.hardlink)
  }

  /** The calls without an entry, after all entries are fed. */
  method Finish(r: Resolver, entries: seq<Entry>, outs: seq<Entry>, ghost inits: seq<Init>) returns (all: seq<Entry>)
    requires |entries| == |inits| && Fed(r, outs, entries, |entries|, inits)
    modifies r, r.buckets, r.g.repr
    ensures multiset(all) == multiset(entries) && Progress(entries, |entries|, inits)
  {
    assert Inspect(true);
    ghost var t := r.g.table;
    var rest, order := DrainAll(r);
    DrainedAll(t, order, rest);
    AllComeBack(entries, outs, rest, order);
    all := outs + rest;
  }

  /** The entries are as they were at the start. */
  ghost predicate AtStart(entries: seq<Entry>, inits: seq<Init>)
    requires |entries| == |inits|
    reads entries
  {
    forall ask {:trigger Inspect(ask)} :: Inspect(ask) ==>
      forall i :: 0 <= i < |entries| ==> inits[i] == InitOf(entries[i])
  }

  /** A new resolver, fed with the first `m` entries. */
  method FeedFirst(entries: seq<Entry>, m: nat, ghost inits: seq<Init>) returns (r: Resolver, outs: seq<Entry>)
    requires Distinct(entries) && m <= |entries| == |inits|
    requires AtStart(entries, inits)
    modifies entries
    ensures fresh(r) && fresh(r.buckets) && (forall l <- r.g.repr :: fresh(l)) && Fed(r, outs, entries, m, inits)
  {
    if m == 0 {
      r := Begin(entries, inits);
      outs := [];
    } else {
      r, outs := FeedFirst(entries, m - 1, inits);
      outs := FeedNext(r, entries, m - 1, outs, inits);
    }
  }

  /** A whole run on distinct entries. Every entry comes back exactly once; in
      the end each is changed as its fate says and not otherwise: with its size
      if it is the last of its group, and without, as a hard link to the pathname
      of the first, if it is not. */
  method WholeRun(entries: seq<Entry>) returns (outs: seq<Entry>)
    requires Distinct(entries)
    modifies entries
    ensures multiset(outs) == multiset(entries)
    ensures forall i :: 0 <= i < |entries| ==>
              IsAs(entries[i], Fate(Items(entries), |entries|, i).action, old(InitOf(entries[i])))
    ensures forall i :: 0 <= i < |entries| && LeftAlone(entries[i].attrs) ==>
              IsAs(entries[i], Keep, old(InitOf(entries[i])))
  {
    var n := |entries|;
    ghost var inits := seq(n, i requires 0 <= i < n reads entries => InitOf(entries[i]));
    var r, fed := FeedFirst(entries, n, inits);
    outs := Finish(r, entries, fed, inits);
    FinalActions(entries, inits);
    AloneAreKept(Items(entries));
  }

  lemma {:induction false} AloneAreKept<H>(es: seq<Item<H>>)
    ensures forall i :: 0 <= i < |es| && LeftAlone(es[i].attrs) ==> Fate(es, |es|, i).action == Keep
  {
  }

  method Begin(entries: seq<Entry>, ghost inits: seq<Init>) returns (r: Resolver)
    requires |inits| == |entries| && AtStart(entries, inits)
    ensures fresh(r) && fresh(r.buckets) && r.g.repr == {} && Fed(r, [], entries, 0, inits)
  {
    assert Inspect(true);
    r := new Resolver(LikeNewCpio);
  }

  lemma FinalActions(entries: seq<Entry>, inits: seq<Init>)
    requires |inits| == |entries| && Progress(entries, |entries|, inits)
    ensures forall i :: 0 <= i < |entries| ==> IsAs(entries[i], Fate(Items(entries), |entries|, i).action, inits[i])
  {
    forall i | 0 <= i < |entries|
      ensures IsAs(entries[i], Fate(Items(entries), |entries|, i).action, inits[i])
    {
      FinalAction(Items(entries), i);
    }
  }
}
