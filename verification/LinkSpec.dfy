/** What the hard-link resolver's cache means, independently of its hash table:
    a map from (dev, ino) to the first pathname, the number of links still
    unseen, and the entry held back, with one step per call. */
module LinkSpec {
  import opened Wrappers

  const UINT_RANGE := 0x1_0000_0000

  type uint32 = n: int | 0 <= n < UINT_RANGE

  datatype FileType = Regular | Directory | BlockDevice | CharDevice | Other

  datatype Strategy = LikeTar | LikeMtree | LikeOldCpio | LikeNewCpio

  datatype Key = Key(dev: nat, ino: nat)

  /** The attributes of an archive entry that the resolver reads and never writes. */
  datatype Attrs = Attrs(path: string, key: Key, nlink: uint32, filetype: FileType)

  predicate MayHaveLinks(a: Attrs): (r: bool)
    ensures r <==> a.nlink != 1 && a.filetype in {Regular, Other}
  {
    a.nlink != 1 && a.filetype != Directory && a.filetype != BlockDevice && a.filetype != CharDevice
  }

  datatype Rec<+H> = Rec(path: string, links: nat, held: Option<H>)

  type Table<H> = map<Key, Rec<H>>

  /** What happens to an entry that is handed back. */
  datatype Action =
    | Keep                        // returned untouched
    | Link(target: string)        // made a hard link, size kept
    | LinkNoBody(target: string)  // made a hard link, size unset

  datatype Out<+H> = Out(handle: H, action: Action)

  /** The 32-bit counter of links not yet seen, after the first has been. */
  function LinksLeft(nlink: uint32): (n: uint32)
    ensures (n + 1) % UINT_RANGE == nlink
  {
    if nlink == 0 then UINT_RANGE - 1 else nlink - 1
  }

  /** The cache after one more link of `k` has been looked up. */
  function AfterFind<H>(t: Table<H>, k: Key): Table<H> {
    if k !in t then t
    else if t[k].links <= 1 then t - {k}
    else t[k := t[k].(links := t[k].links - 1)]
  }

  function AfterInsert<H>(t: Table<H>, a: Attrs, held: Option<H>): Table<H> {
    t[a.key := Rec(a.path, LinksLeft(a.nlink), held)]
  }

  predicate TableOk<H>(s: Strategy, t: Table<H>) {
    forall k <- t ::
      0 < t[k].links < UINT_RANGE && (t[k].held.Some? <==> s == LikeNewCpio)
  }

  /** One call with an entry: the new cache and the entries handed back, in order. */
  function Step<H>(s: Strategy, t: Table<H>, h: H, a: Attrs): (r: (Table<H>, seq<Out<H>>))
    requires TableOk(s, t)
    ensures TableOk(s, r.0)
    ensures |r.1| <= 2
  {
    if !MayHaveLinks(a) then (t, [Out(h, Keep)])
    else
      match s
      case LikeTar =>
        if a.key in t then (AfterFind(t, a.key), [Out(h, LinkNoBody(t[a.key].path))])
        else (AfterInsert(t, a, None), [Out(h, Keep)])
      case LikeMtree =>
        if a.key in t then (AfterFind(t, a.key), [Out(h, Link(t[a.key].path))])
        else (AfterInsert(t, a, None), [Out(h, Keep)])
      case LikeOldCpio => (t, [Out(h, Keep)])
      case LikeNewCpio =>
        if a.key in t then
          var released := Out(t[a.key].held.value, LinkNoBody(t[a.key].path));
          if t[a.key].links == 1 then (t - {a.key}, [released, Out(h, Keep)])
          else (t[a.key := Rec(t[a.key].path, t[a.key].links - 1, Some(h))], [released])
        else (AfterInsert(t, a, Some(h)), [])
  }
}
