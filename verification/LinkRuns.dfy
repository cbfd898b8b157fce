/** Whole runs of the link resolver, for every strategy: which entries come
    back, and in what form, said by the input sequence alone. */
module LinkRuns {
  import opened Wrappers
  import opened LinkSpec

  datatype Item<+H> = Item(handle: H, attrs: Attrs)

  // ----- groups of links, by position in the input -----

  predicate Member<H>(it: Item<H>, k: Key) {
    MayHaveLinks(it.attrs) && it.attrs.key == k
  }

  /** The last position before `m` of a link to file `k`, or -1. */
  function LastBefore<H>(es: seq<Item<H>>, k: Key, m: nat): (p: int)
    requires m <= |es|
    ensures -1 <= p < m
    ensures p >= 0 ==> Member(es[p], k)
    ensures forall i :: p < i < m ==> !Member(es[i], k)
  {
    if m == 0 then -1 else if Member(es[m - 1], k) then m - 1 else LastBefore(es, k, m - 1)
  }

  /** How many links to file `k` there are at positions `lo` up to `hi`. */
  function Count<H>(es: seq<Item<H>>, k: Key, lo: nat, hi: nat): (n: nat)
    requires lo <= hi <= |es|
    decreases hi
  {
    if lo == hi then 0 else Count(es, k, lo, hi - 1) + (if Member(es[hi - 1], k) then 1 else 0)
  }

  /** The number of links a group may have, by its first member; no limit in
      practice when the link count is unknown. */
  function Capacity(a: Attrs): nat {
    if a.nlink == 0 then UINT_RANGE else a.nlink
  }

  /** The position of the first member of the group that position `i` joins: a
      new group starts when there is none, or when the last one is complete. */
  function Leader<H>(es: seq<Item<H>>, i: nat): (l: nat)
    requires i < |es| && MayHaveLinks(es[i].attrs)
    ensures l <= i && Member(es[l], es[i].attrs.key)
    decreases i, 0
  {
    var p := LastBefore(es, es[i].attrs.key, i);
    if p < 0 || Complete(es, p) then i else Leader(es, p)
  }

  /** The group of position `p` has all its members once `p` is in. */
  predicate Complete<H>(es: seq<Item<H>>, p: nat)
    requires p < |es| && MayHaveLinks(es[p].attrs)
    decreases p, 1
  {
    var l := Leader(es, p);
    Count(es, es[p].attrs.key, l, p + 1) == Capacity(es[l].attrs)
  }

  // ----- the cache after a prefix of the input -----

  predicate Open<H>(es: seq<Item<H>>, m: nat, k: Key)
    requires m <= |es|
  {
    LastBefore(es, k, m) >= 0 && !Complete(es, LastBefore(es, k, m))
  }

  function RecordFor<H>(s: Strategy, es: seq<Item<H>>, m: nat, k: Key): Rec<H>
    requires m <= |es| && Open(es, m, k)
  {
    var p := LastBefore(es, k, m);
    var l := Leader(es, p);
    var missing := Capacity(es[l].attrs) - Count(es, k, l, p + 1);
    Rec(es[l].attrs.path, if missing < 0 then 0 else missing, if s == LikeNewCpio then Some(es[p].handle) else None)
  }

  /** The cache after feeding the first `m` entries, and everything handed back. */
  function Run<H>(s: Strategy, es: seq<Item<H>>, m: nat): (r: (Table<H>, seq<Out<H>>))
    requires m <= |es|
    ensures TableOk(s, r.0)
  {
    if m == 0 then (map[], [])
    else
      var (t, outs) := Run(s, es, m - 1);
      var (t', more) := Step(s, t, es[m - 1].handle, es[m - 1].attrs);
      (t', outs + more)
  }

  lemma {:induction false} CountGap<H>(es: seq<Item<H>>, k: Key, lo: nat, mid: nat, hi: nat)
    requires lo <= mid <= hi <= |es|
    requires forall i :: mid <= i < hi ==> !Member(es[i], k)
    ensures Count(es, k, lo, hi) == Count(es, k, lo, mid)
  {
    if mid < hi {
      CountGap(es, k, lo, mid, hi - 1);
    }
  }

  lemma {:induction false} GroupNotOver<H>(es: seq<Item<H>>, p: nat)
    requires p < |es| && MayHaveLinks(es[p].attrs)
    ensures var l := Leader(es, p); 1 <= Count(es, es[p].attrs.key, l, p + 1) <= Capacity(es[l].attrs)
  {
    var k := es[p].attrs.key;
    var q := LastBefore(es, k, p);
    if q >= 0 && !Complete(es, q) {
      GroupNotOver(es, q);
      CountGap(es, k, Leader(es, q), q + 1, p);
    } else {
      assert Count(es, k, p, p + 1) == Count(es, k, p, p) + 1;
    }
  }

  /** What the input says the cache holds about file `k`. */
  ghost predicate Agrees<H>(s: Strategy, t: Table<H>, es: seq<Item<H>>, m: nat, k: Key)
    requires m <= |es|
  {
    && (k in t <==> Open(es, m, k))
    && (k in t ==> t[k] == RecordFor(s, es, m, k))
  }

  /** The cache is exactly what the input says it should be: one record per open
      group, with the first pathname, the links still missing and, under the new
      cpio strategy, the newest entry held back. */
  lemma {:induction false} CacheIsOpenGroups<H>(s: Strategy, es: seq<Item<H>>, m: nat, k: Key)
    requires m <= |es| && s != LikeOldCpio
    ensures Agrees(s, Run(s, es, m).0, es, m, k)
  {
    if m > 0 {
      CacheIsOpenGroups(s, es, m - 1, k);
      var t := Run(s, es, m - 1).0;
      if Member(es[m - 1], k) {
        StepOnOwnFile(s, t, es, m);
      } else {
        StepOnOtherFile(s, t, es, m, k);
      }
    }
  }

  lemma {:induction false} StepOnOtherFile<H>(s: Strategy, t: Table<H>, es: seq<Item<H>>, m: nat, k: Key)
    requires 0 < m <= |es| && TableOk(s, t)
    requires !Member(es[m - 1], k)
    ensures var t' := Step(s, t, es[m - 1].handle, es[m - 1].attrs).0;
            && (k in t <==> k in t') && (k in t ==> t[k] == t'[k])
            && (Open(es, m, k) <==> Open(es, m - 1, k))
            && (Open(es, m, k) ==> RecordFor(s, es, m, k) == RecordFor(s, es, m - 1, k))
  {
  }

  lemma {:induction false} StepOnOpenFile<H>(s: Strategy, t: Table<H>, es: seq<Item<H>>, i: nat)
    requires i < |es| && TableOk(s, t) && s != LikeOldCpio
    requires MayHaveLinks(es[i].attrs) && es[i].attrs.key in t && Agrees(s, t, es, i, es[i].attrs.key)
    ensures Agrees(s, Step(s, t, es[i].handle, es[i].attrs).0, es, i + 1, es[i].attrs.key)
  {
    JoinGroup(es, i);
    StepJoins(s, t, es[i]);
  }

  lemma {:induction false} StepOnNewFile<H>(s: Strategy, t: Table<H>, es: seq<Item<H>>, i: nat)
    requires i < |es| && TableOk(s, t) && s != LikeOldCpio
    requires MayHaveLinks(es[i].attrs) && es[i].attrs.key !in t && Agrees(s, t, es, i, es[i].attrs.key)
    ensures Agrees(s, Step(s, t, es[i].handle, es[i].attrs).0, es, i + 1, es[i].attrs.key)
  {
    JoinGroup(es, i);
    assert Step(s, t, es[i].handle, es[i].attrs).0 ==
           AfterInsert(t, es[i].attrs, if s == LikeNewCpio then Some(es[i].handle) else None);
  }

  lemma {:induction false} StepOnOwnFile<H>(s: Strategy, t: Table<H>, es: seq<Item<H>>, m: nat)
    requires 0 < m <= |es| && TableOk(s, t) && s != LikeOldCpio
    requires MayHaveLinks(es[m - 1].attrs) && Agrees(s, t, es, m - 1, es[m - 1].attrs.key)
    ensures Agrees(s, Step(s, t, es[m - 1].handle, es[m - 1].attrs).0, es, m, es[m - 1].attrs.key)
  {
    if es[m - 1].attrs.key in t {
      StepOnOpenFile(s, t, es, m - 1);
    } else {
      StepOnNewFile(s, t, es, m - 1);
    }
  }

  /** A later link of a cached file: one link fewer is missing, or the record goes. */
  lemma {:induction false} StepJoins<H>(s: Strategy, t: Table<H>, it: Item<H>)
    requires TableOk(s, t) && s != LikeOldCpio && MayHaveLinks(it.attrs) && it.attrs.key in t
    ensures var t' := Step(s, t, it.handle, it.attrs).0;
            var k := it.attrs.key;
            if t[k].links == 1 then k !in t'
            else k in t' && t'[k] == Rec(t[k].path, t[k].links - 1, if s == LikeNewCpio then Some(it.handle) else None)
  {
  }

  lemma {:induction false} JoinGroup<H>(es: seq<Item<H>>, i: nat)
    requires i < |es| && MayHaveLinks(es[i].attrs)
    ensures var k := es[i].attrs.key;
            var p := LastBefore(es, k, i);
            && LastBefore(es, k, i + 1) == i
            && (if Open(es, i, k) then
                  && Leader(es, i) == Leader(es, p)
                  && Count(es, k, Leader(es, p), i + 1) == Count(es, k, Leader(es, p), p + 1) + 1
                  && Count(es, k, Leader(es, p), p + 1) < Capacity(es[Leader(es, p)].attrs)
                else
                  Leader(es, i) == i && Count(es, k, i, i + 1) == 1 && !Complete(es, i))
  {
    var k := es[i].attrs.key;
    var p := LastBefore(es, k, i);
    if Open(es, i, k) {
      GroupNotOver(es, p);
      CountGap(es, k, Leader(es, p), p + 1, i);
    } else {
      assert Count(es, k, i, i + 1) == Count(es, k, i, i) + 1;
    }
  }

  /** It has only one name, or is of a kind that never has several. */
  predicate LeftAlone(a: Attrs) {
    a.nlink == 1 || a.filetype in {Directory, BlockDevice, CharDevice}
  }

  // ----- tar and mtree: every entry comes straight back -----

  function LinkAction(s: Strategy, path: string): Action {
    if s == LikeMtree then Link(path) else LinkNoBody(path)
  }

  /** Each call hands its own entry back: untouched when it is the first of its
      group, and otherwise as a hard link to the pathname of that first one. */
  ghost function TarFate<H>(s: Strategy, es: seq<Item<H>>, i: nat): Out<H>
    requires i < |es|
  {
    Out(es[i].handle,
        if MayHaveLinks(es[i].attrs) && Leader(es, i) != i then LinkAction(s, es[Leader(es, i)].attrs.path) else Keep)
  }

  lemma {:induction false} TarRun<H>(s: Strategy, es: seq<Item<H>>, m: nat)
    requires m <= |es| && (s == LikeTar || s == LikeMtree)
    ensures var outs := Run(s, es, m).1; |outs| == m && forall i :: 0 <= i < m ==> outs[i] == TarFate(s, es, i)
    ensures forall i :: 0 <= i < m && LeftAlone(es[i].attrs) ==> Run(s, es, m).1[i] == Out(es[i].handle, Keep)
  {
    if m > 0 {
      TarRun(s, es, m - 1);
      CacheIsOpenGroups(s, es, m - 1, es[m - 1].attrs.key);
      TarStep(s, es, m - 1, Run(s, es, m - 1).0);
    }
  }

  lemma {:induction false} TarStep<H>(s: Strategy, es: seq<Item<H>>, i: nat, t: Table<H>)
    requires i < |es| && (s == LikeTar || s == LikeMtree)
    requires TableOk(s, t) && Agrees(s, t, es, i, es[i].attrs.key)
    ensures Step(s, t, es[i].handle, es[i].attrs).1 == [TarFate(s, es, i)]
  {
    if MayHaveLinks(es[i].attrs) {
      JoinGroup(es, i);
    }
  }

  lemma {:induction false} OldCpioRun<H>(es: seq<Item<H>>, m: nat)
    requires m <= |es|
    ensures Run(LikeOldCpio, es, m).1 == seq(m, i requires 0 <= i < m => Out(es[i].handle, Keep))
    ensures Run(LikeOldCpio, es, m).0 == map[]
  {
    if m > 0 {
      OldCpioRun(es, m - 1);
    }
  }

  // ----- new cpio: entries wait in the cache -----

  /** A later member of the group of position `i` has come in. */
  ghost predicate Followed<H>(es: seq<Item<H>>, m: nat, i: nat)
    requires i < m <= |es| && MayHaveLinks(es[i].attrs)
  {
    exists j :: i < j < m && Member(es[j], es[i].attrs.key) && Leader(es, j) == Leader(es, i)
  }

  /** What becomes of position `i` in the end, when `m` entries are handed in. */
  ghost function Fate<H>(es: seq<Item<H>>, m: nat, i: nat): Out<H>
    requires i < m <= |es|
  {
    if MayHaveLinks(es[i].attrs) && Followed(es, m, i)
    then Out(es[i].handle, LinkNoBody(es[Leader(es, i)].attrs.path))
    else Out(es[i].handle, Keep)
  }

  /** Position `i` is the entry its file's record holds back. */
  ghost predicate Waiting<H>(es: seq<Item<H>>, m: nat, i: nat)
    requires i < m <= |es|
  {
    MayHaveLinks(es[i].attrs) && LastBefore(es, es[i].attrs.key, m) == i && !Complete(es, i)
  }

  /** The fates already handed back, by position. */
  ghost function Settled<H>(es: seq<Item<H>>, m: nat): (r: seq<Option<Out<H>>>)
    requires m <= |es|
    ensures |r| == m
  {
    seq(m, i requires 0 <= i < m => if Waiting(es, m, i) then None else Some(Fate(es, m, i)))
  }

  ghost function Collect<T>(s: seq<Option<T>>): multiset<T> {
    if s == [] then multiset{}
    else Collect(s[..|s| - 1]) + (if s[|s| - 1].Some? then multiset{s[|s| - 1].value} else multiset{})
  }

  lemma {:induction false} CollectSettle<T>(s: seq<Option<T>>, p: nat, x: T)
    requires p < |s| && s[p] == None
    ensures Collect(s[p := Some(x)]) == Collect(s) + multiset{x}
  {
    var n := |s| - 1;
    if p == n {
      assert s[p := Some(x)][..n] == s[..n];
    } else {
      CollectSettle(s[..n], p, x);
      assert s[p := Some(x)][..n] == s[..n][p := Some(x)];
    }
  }

  lemma {:induction false} CollectAppend<T>(s: seq<Option<T>>, x: Option<T>)
    ensures Collect(s + [x]) == Collect(s) + if x.Some? then multiset{x.value} else multiset{}
  {
    assert (s + [x])[..|s|] == s;
  }

  lemma {:induction false} CollectAll<T>(s: seq<Option<T>>, v: seq<T>)
    requires |s| == |v| && forall i :: 0 <= i < |s| ==> s[i] == Some(v[i])
    ensures Collect(s) == multiset(v)
  {
    var n := |s| - 1;
    if s != [] {
      CollectAll(s[..n], v[..n]);
      assert v == v[..n] + [v[n]];
    }
  }

  /** A newcomer changes the fate of nobody but the entry waiting for its file. */
  lemma {:induction false} FateGrows<H>(es: seq<Item<H>>, m: nat, i: nat)
    requires i < m < |es|
    requires !(MayHaveLinks(es[m].attrs) && Waiting(es, m, i) && es[i].attrs.key == es[m].attrs.key)
    ensures Fate(es, m + 1, i) == Fate(es, m, i)
    ensures Waiting(es, m + 1, i) == Waiting(es, m, i)
  {
    if MayHaveLinks(es[i].attrs) && Member(es[m], es[i].attrs.key) {
      var p := LastBefore(es, es[i].attrs.key, m);
      if Leader(es, m) == Leader(es, i) {
        assert Leader(es, p) == Leader(es, i);
        assert i < p < m;
      }
    }
  }

  /** Everything handed back so far is the settled fates, each exactly once. */
  lemma {:induction false} NewCpioFeed<H>(es: seq<Item<H>>, m: nat)
    requires m <= |es|
    ensures multiset(Run(LikeNewCpio, es, m).1) == Collect(Settled(es, m))
  {
    FeedUpTo(es, m);
    assert Inspect(true);
  }

  ghost predicate AllSettled<H>(es: seq<Item<H>>, m: nat)
    requires m <= |es|
  {
    forall ask {:trigger Inspect(ask)} :: Inspect(ask) ==> multiset(Run(LikeNewCpio, es, m).1) == Collect(Settled(es, m))
  }

  lemma {:induction false} FeedUpTo<H>(es: seq<Item<H>>, m: nat)
    requires m <= |es|
    ensures AllSettled(es, m)
  {
    if m == 0 {
      assert Settled(es, 0) == [];
    } else {
      FeedUpTo(es, m - 1);
      FeedGrows(es, m - 1);
    }
  }

  lemma {:induction false} FeedGrows<H>(es: seq<Item<H>>, i: nat)
    requires i < |es| && AllSettled(es, i)
    ensures AllSettled(es, i + 1)
  {
    assert Inspect(true);
    RunGrows(es, i);
    SettledGrows(es, i);
  }

  /** What call `i` adds to what is handed back. */
  ghost function HandedBy<H>(es: seq<Item<H>>, i: nat): multiset<Out<H>>
    requires i < |es|
  {
    multiset(Step(LikeNewCpio, Run(LikeNewCpio, es, i).0, es[i].handle, es[i].attrs).1)
  }

  lemma {:induction false} RunGrows<H>(es: seq<Item<H>>, i: nat)
    requires i < |es|
    ensures multiset(Run(LikeNewCpio, es, i + 1).1) == multiset(Run(LikeNewCpio, es, i).1) + HandedBy(es, i)
  {
  }

  lemma {:induction false} SettledGrows<H>(es: seq<Item<H>>, i: nat)
    requires i < |es|
    ensures Collect(Settled(es, i + 1)) == Collect(Settled(es, i)) + HandedBy(es, i)
  {
    CacheIsOpenGroups(LikeNewCpio, es, i, es[i].attrs.key);
    NewCpioStep(es, i, Run(LikeNewCpio, es, i).0);
  }

  /** The newcomer settles the entry that waits for its file, and perhaps itself. */
  lemma {:induction false} JoinSettles<H>(es: seq<Item<H>>, i: nat)
    requires i < |es| && MayHaveLinks(es[i].attrs) && Open(es, i, es[i].attrs.key)
    ensures var released := Fate(es, i + 1, LastBefore(es, es[i].attrs.key, i));
            var last := Settled(es, i + 1)[i];
            Collect(Settled(es, i + 1)) ==
            Collect(Settled(es, i)) + multiset{released} + if last.Some? then multiset{last.value} else multiset{}
  {
    var p := LastBefore(es, es[i].attrs.key, i);
    var before, released := Settled(es, i), Fate(es, i + 1, p);
    SettleOne(es, i, p);
    CollectSettle(before, p, released);
    CollectAppend(before[p := Some(released)], Settled(es, i + 1)[i]);
  }

  lemma {:induction false} StartSettles<H>(es: seq<Item<H>>, i: nat)
    requires i < |es| && (MayHaveLinks(es[i].attrs) ==> !Open(es, i, es[i].attrs.key))
    ensures var last := Settled(es, i + 1)[i];
            Collect(Settled(es, i + 1)) ==
            Collect(Settled(es, i)) + if last.Some? then multiset{last.value} else multiset{}
  {
    SettleNone(es, i);
    CollectAppend(Settled(es, i), Settled(es, i + 1)[i]);
  }

  lemma {:induction false} NewCpioStep<H>(es: seq<Item<H>>, i: nat, t: Table<H>)
    requires i < |es| && TableOk(LikeNewCpio, t) && Agrees(LikeNewCpio, t, es, i, es[i].attrs.key)
    ensures Collect(Settled(es, i + 1)) ==
            Collect(Settled(es, i)) + multiset(Step(LikeNewCpio, t, es[i].handle, es[i].attrs).1)
  {
    if MayHaveLinks(es[i].attrs) && Open(es, i, es[i].attrs.key) {
      JoinSettles(es, i);
      JoinOuts(es, i, t);
    } else {
      StartSettles(es, i);
      StartOuts(es, i, t);
    }
  }

  lemma {:induction false} JoinOuts<H>(es: seq<Item<H>>, i: nat, t: Table<H>)
    requires i < |es| && TableOk(LikeNewCpio, t) && Agrees(LikeNewCpio, t, es, i, es[i].attrs.key)
    requires MayHaveLinks(es[i].attrs) && Open(es, i, es[i].attrs.key)
    ensures var released := Fate(es, i + 1, LastBefore(es, es[i].attrs.key, i));
            Step(LikeNewCpio, t, es[i].handle, es[i].attrs).1 ==
            if Waiting(es, i + 1, i) then [released] else [released, Fate(es, i + 1, i)]
  {
    JoinGroup(es, i);
    assert Followed(es, i + 1, LastBefore(es, es[i].attrs.key, i)) by { assert Member(es[i], es[i].attrs.key); }
  }

  lemma {:induction false} StartOuts<H>(es: seq<Item<H>>, i: nat, t: Table<H>)
    requires i < |es| && TableOk(LikeNewCpio, t) && Agrees(LikeNewCpio, t, es, i, es[i].attrs.key)
    requires MayHaveLinks(es[i].attrs) ==> !Open(es, i, es[i].attrs.key)
    ensures Step(LikeNewCpio, t, es[i].handle, es[i].attrs).1 == if Waiting(es, i + 1, i) then [] else [Fate(es, i + 1, i)]
  {
    if MayHaveLinks(es[i].attrs) {
      JoinGroup(es, i);
    }
  }

  lemma {:induction false} SettleOne<H>(es: seq<Item<H>>, m: nat, p: nat)
    requires p < m < |es| && MayHaveLinks(es[m].attrs)
    requires LastBefore(es, es[m].attrs.key, m) == p && !Complete(es, p)
    ensures Settled(es, m)[p] == None
    ensures Settled(es, m + 1) == Settled(es, m)[p := Some(Fate(es, m + 1, p))] + [Settled(es, m + 1)[m]]
  {
    forall i | 0 <= i < m && i != p
      ensures Settled(es, m + 1)[i] == Settled(es, m)[i]
    {
      FateGrows(es, m, i);
    }
  }

  lemma {:induction false} SettleNone<H>(es: seq<Item<H>>, m: nat)
    requires m < |es|
    requires MayHaveLinks(es[m].attrs) ==> !Open(es, m, es[m].attrs.key)
    ensures Settled(es, m + 1) == Settled(es, m) + [Settled(es, m + 1)[m]]
  {
    forall i | 0 <= i < m
      ensures Settled(es, m + 1)[i] == Settled(es, m)[i]
    {
      FateGrows(es, m, i);
    }
  }

  /** The end of a run: the waiting entries come back untouched, in some order of their files. */
  ghost function Drained<H>(t: Table<H>, order: seq<Key>): seq<Out<H>>
    requires forall k <- order :: k in t && t[k].held.Some?
  {
    seq(|order|, i requires 0 <= i < |order| => Out(t[order[i]].held.value, Keep))
  }

  ghost predicate Enumerates(order: seq<Key>, ks: set<Key>) {
    && (forall k :: k in order <==> k in ks)
    && (forall i, j :: 0 <= i < j < |order| ==> order[i] != order[j])
  }

  /** The fates settled when only the files in `order` still hold an entry back. */
  ghost function SettledBut<H>(es: seq<Item<H>>, order: seq<Key>): (r: seq<Option<Out<H>>>)
    ensures |r| == |es|
  {
    seq(|es|, i requires 0 <= i < |es| =>
      if Waiting(es, |es|, i) && es[i].attrs.key in order then None else Some(Fate(es, |es|, i)))
  }

  ghost function Fates<H>(es: seq<Item<H>>): seq<Out<H>> {
    seq(|es|, i requires 0 <= i < |es| => Fate(es, |es|, i))
  }

  lemma {:induction false} DrainedFirst<H>(t: Table<H>, k: Key, rest: seq<Key>)
    requires k in t && t[k].held.Some? && forall k <- rest :: k in t && t[k].held.Some?
    ensures multiset(Drained(t, [k] + rest)) == multiset{Out(t[k].held.value, Keep)} + multiset(Drained(t, rest))
  {
    assert Drained(t, [k] + rest) == [Out(t[k].held.value, Keep)] + Drained(t, rest);
  }

  lemma {:induction false} NothingLeft<H>(es: seq<Item<H>>)
    ensures Collect(SettledBut(es, [])) == multiset(Fates(es))
  {
    CollectAll(SettledBut(es, []), Fates(es));
  }

  /** Draining settles the waiting positions one by one. */
  lemma {:induction false} DrainSettles<H>(es: seq<Item<H>>, t: Table<H>, order: seq<Key>)
    requires forall i, j :: 0 <= i < j < |order| ==> order[i] != order[j]
    requires forall k <- order :: k in t && Open(es, |es|, k) && t[k].held == Some(es[LastBefore(es, k, |es|)].handle)
    ensures Collect(SettledBut(es, order)) + multiset(Drained(t, order)) == multiset(Fates(es))
    decreases |order|
  {
    if order == [] {
      NothingLeft(es);
    } else {
      var k, rest := order[0], order[1..];
      assert order == [k] + rest && k in order;
      DrainOne(es, k, rest);
      CollectSettle(SettledBut(es, order), LastBefore(es, k, |es|), Out(t[k].held.value, Keep));
      DrainSettles(es, t, rest);
      DrainedFirst(t, k, rest);
    }
  }

  lemma {:induction false} DrainOne<H>(es: seq<Item<H>>, k: Key, rest: seq<Key>)
    requires k !in rest && Open(es, |es|, k)
    ensures var p := LastBefore(es, k, |es|);
            && SettledBut(es, [k] + rest)[p] == None
            && SettledBut(es, rest) == SettledBut(es, [k] + rest)[p := Some(Out(es[p].handle, Keep))]
  {
    var p := LastBefore(es, k, |es|);
    WaitingIsLast(es, k);
    forall i | 0 <= i < |es| && i != p
      ensures SettledBut(es, rest)[i] == SettledBut(es, [k] + rest)[i]
    {
      assert Waiting(es, |es|, i) ==> es[i].attrs.key != k;
    }
  }

  lemma {:induction false} WaitingIsLast<H>(es: seq<Item<H>>, k: Key)
    requires Open(es, |es|, k)
    ensures var p := LastBefore(es, k, |es|);
            && Waiting(es, |es|, p) && es[p].attrs.key == k
            && Fate(es, |es|, p) == Out(es[p].handle, Keep)
  {
  }

  /** Conservation: feed any entries, then drain the cache in any order. Every
      position comes back exactly once, as its fate: with its size if it is the
      last of its group, and otherwise as a hard link without a body to the
      pathname of the first of its group. */
  lemma {:induction false} NewCpioConservation<H>(es: seq<Item<H>>, order: seq<Key>)
    requires Enumerates(order, Run(LikeNewCpio, es, |es|).0.Keys)
    ensures multiset(Run(LikeNewCpio, es, |es|).1 + Drained(Run(LikeNewCpio, es, |es|).0, order)) ==
            multiset(Fates(es))
  {
    var t := Run(LikeNewCpio, es, |es|).0;
    NewCpioFeed(es, |es|);
    forall k <- order
      ensures Open(es, |es|, k) && t[k].held == Some(es[LastBefore(es, k, |es|)].handle)
    {
      CacheIsOpenGroups(LikeNewCpio, es, |es|, k);
    }
    forall i | 0 <= i < |es| && Waiting(es, |es|, i)
      ensures es[i].attrs.key in order
    {
      CacheIsOpenGroups(LikeNewCpio, es, |es|, es[i].attrs.key);
    }
    assert Settled(es, |es|) == SettledBut(es, order);
    DrainSettles(es, t, order);
  }

  // ----- when link counts are right, a file is one group -----

  lemma {:induction false} CountMonotone<H>(es: seq<Item<H>>, k: Key, lo: nat, mid: nat, hi: nat)
    requires lo <= mid <= hi <= |es|
    ensures Count(es, k, lo, mid) <= Count(es, k, lo, hi)
  {
    if mid < hi {
      CountMonotone(es, k, lo, mid, hi - 1);
    }
  }

  /** If a file does not turn up more often than the link count of its first
      name says, all its names form one group led by the first. */
  lemma {:induction false} OneGroupPerFile<H>(es: seq<Item<H>>, first: nat, i: nat)
    requires first <= i < |es| && !LeftAlone(es[i].attrs)
    requires !LeftAlone(es[first].attrs) && es[first].attrs.key == es[i].attrs.key
    requires LastBefore(es, es[i].attrs.key, first) == -1
    requires Count(es, es[i].attrs.key, first, |es|) <= Capacity(es[first].attrs)
    ensures Leader(es, i) == first
    decreases i
  {
    var k := es[i].attrs.key;
    var p := LastBefore(es, k, i);
    if p >= 0 {
      assert first <= p;
      OneGroupPerFile(es, first, p);
      CountMonotone(es, k, first, i + 1, |es|);
      CountGap(es, k, first, p + 1, i);
    }
  }

  /** Then exactly one name of the file keeps its body: the last one handed in. */
  lemma {:induction false} OnlyLastKeepsBody<H>(es: seq<Item<H>>, first: nat, i: nat)
    requires first <= i < |es| && !LeftAlone(es[i].attrs)
    requires !LeftAlone(es[first].attrs) && es[first].attrs.key == es[i].attrs.key
    requires LastBefore(es, es[i].attrs.key, first) == -1
    requires Count(es, es[i].attrs.key, first, |es|) <= Capacity(es[first].attrs)
    ensures Fate(es, |es|, i) ==
            Out(es[i].handle,
                if i == LastBefore(es, es[i].attrs.key, |es|) then Keep else LinkNoBody(es[first].attrs.path))
  {
    var k := es[i].attrs.key;
    var last := LastBefore(es, k, |es|);
    OneGroupPerFile(es, first, i);
    OneGroupPerFile(es, first, last);
    if i != last {
      assert Followed(es, |es|, i) by { assert Member(es[last], k); }
    }
  }

  // ----- one file, name by name -----

  /** All entries are names of one file with `n` links. */
  predicate OneFile<H>(es: seq<Item<H>>, k: Key, n: nat) {
    forall i :: 0 <= i < |es| ==>
      es[i].attrs.key == k && es[i].attrs.nlink == n && es[i].attrs.filetype in {Regular, Other}
  }

  /** What is remembered of it after `m` names: the first name, how many are
      missing, and for new cpio the latest entry; nothing at the end. */
  function Remembered<H>(s: Strategy, es: seq<Item<H>>, k: Key, n: nat, m: nat): Table<H>
    requires m <= |es|
  {
    if m == 0 || m == n || n < m then map[]
    else map[k := Rec(es[0].attrs.path, n - m, if s == LikeNewCpio then Some(es[m - 1].handle) else None)]
  }

  /** What the call with name `m` hands back. */
  function Returned<H>(s: Strategy, es: seq<Item<H>>, n: nat, m: nat): seq<Out<H>>
    requires m < |es|
  {
    var path := es[0].attrs.path;
    match s
    case LikeTar => [Out(es[m].handle, if m == 0 then Keep else LinkNoBody(path))]
    case LikeMtree => [Out(es[m].handle, if m == 0 then Keep else Link(path))]
    case LikeOldCpio => [Out(es[m].handle, Keep)]
    case LikeNewCpio =>
      if m == 0 then []
      else
        var released := Out(es[m - 1].handle, LinkNoBody(path));
        if m + 1 == n then [released, Out(es[m].handle, Keep)] else [released]
  }

  lemma {:induction false} OneFileStep<H>(s: Strategy, t: Table<H>, es: seq<Item<H>>, k: Key, n: nat, m: nat)
    requires OneFile(es, k, n) && 1 < n && m < n && m < |es| && s != LikeOldCpio
    requires TableOk(s, t) && t == Remembered(s, es, k, n, m)
    ensures Step(s, t, es[m].handle, es[m].attrs) == (Remembered(s, es, k, n, m + 1), Returned(s, es, n, m))
  {
    var t', next := Step(s, t, es[m].handle, es[m].attrs).0, Remembered(s, es, k, n, m + 1);
    assert MayHaveLinks(es[m].attrs) && es[m].attrs.key == k;
    assert t'.Keys == next.Keys && forall x <- next :: t'[x] == next[x];
    assert t' == next;
    assert s == LikeNewCpio ==> Step(s, t, es[m].handle, es[m].attrs).1 == Returned(s, es, n, m);
  }

  /** For tar and mtree the first name comes back untouched, and every later one as
      a link to it. For new cpio every name but the last comes back one call late,
      as a link without a body; the last one keeps its body and comes back at
      once. Then nothing is remembered. */
  lemma {:induction false} OneFileRun<H>(s: Strategy, es: seq<Item<H>>, k: Key, n: nat, m: nat)
    requires OneFile(es, k, n) && 1 < n && m < n && m < |es| && s != LikeOldCpio
    ensures Run(s, es, m).0 == Remembered(s, es, k, n, m)
    ensures Run(s, es, m + 1) == (Remembered(s, es, k, n, m + 1), Run(s, es, m).1 + Returned(s, es, n, m))
  {
    if m > 0 {
      OneFileRun(s, es, k, n, m - 1);
    }
    OneFileStep(s, Run(s, es, m).0, es, k, n, m);
  }
}
