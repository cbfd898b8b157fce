/** Access control lists: the entry list with its overwrite rules, the mode
    bits folded out of it, and the invariants of the list. A bit mask of the
    source is the set of its one-bit constants. */
module Acl {

  type int32 = n: int | -0x8000_0000 <= n < 0x8000_0000

  datatype Kind = Access | Default | Allow | Deny | Audit | Alarm

  predicate IsPosix(k: Kind) {
    k == Access || k == Default
  }

  datatype Tag = User | UserObj | Group | GroupObj | Mask | Other | Everyone | BadTag(code: int)

  datatype Perm =
    // POSIX.1e; Execute is shared with NFSv4
    | Execute | Write | Read
    // NFSv4 permissions
    | ReadData | WriteData | AppendData | ReadNamedAttrs | WriteNamedAttrs | DeleteChild
    | ReadAttributes | WriteAttributes | Delete | ReadAcl | WriteAcl | WriteOwner | Synchronize
    // NFSv4 inheritance flags
    | Inherited | FileInherit | DirectoryInherit | NoPropagateInherit | InheritOnly
    | SuccessfulAccess | FailedAccess
    // any other bit of the mask
    | OtherBit(bit: nat)

  predicate IsPosixPerm(p: Perm) {
    p == Execute || p == Write || p == Read
  }

  predicate IsNfs4Bit(p: Perm) {
    !p.OtherBit? && p != Write && p != Read
  }

  type Perms = set<Perm>

  predicate PosixPerms(ps: Perms) {
    forall p <- ps :: IsPosixPerm(p)
  }

  predicate Nfs4Perms(ps: Perms) {
    forall p <- ps :: IsNfs4Bit(p)
  }

  /** The nine permission bits by class, and the rest of the mode word. */
  datatype Mode = Mode(user: Perms, group: Perms, other: Perms, rest: nat)

  /** The name is empty when there is none. */
  datatype AclEntry = AclEntry(kind: Kind, tag: Tag, permset: Perms, id: int32, name: string)

  datatype AclState = AclState(mode: Mode, entries: seq<AclEntry>, types: set<Kind>)

  datatype Status = Ok | Warn | Failed | Fatal

  // ----- adding an entry -----

  /** The mode takes the entry, if it is one of the three standard ones. */
  predicate IsSpecial(kind: Kind, permset: Perms, tag: Tag) {
    kind == Access && PosixPerms(permset) && (tag == UserObj || tag == GroupObj || tag == Other)
  }

  function SpecialMode(mode: Mode, permset: Perms, tag: Tag): Mode {
    if tag == UserObj then mode.(user := permset)
    else if tag == GroupObj then mode.(group := permset)
    else mode.(other := permset)
  }

  /** The type fits what is there already, and the permissions and tag fit the type. */
  predicate Accepts(types: set<Kind>, kind: Kind, permset: Perms, tag: Tag) {
    && (if !IsPosix(kind) then (forall k <- types :: !IsPosix(k)) && Nfs4Perms(permset)
        else (forall k <- types :: IsPosix(k)) && PosixPerms(permset))
    && (match tag
        case User | UserObj | Group | GroupObj => true
        case Mask | Other => IsPosix(kind)
        case Everyone => !IsPosix(kind)
        case BadTag(_) => false)
  }

  /** Entry `e` overwrites `was`. */
  predicate Overwrites(e: AclEntry, was: AclEntry) {
    && IsPosix(e.kind) && was.kind == e.kind && was.tag == e.tag && was.id == e.id
    && (e.id != -1 || (e.tag != User && e.tag != Group))
  }

  function FirstOverwritten(entries: seq<AclEntry>, e: AclEntry): (i: nat)
    ensures i <= |entries|
    ensures i < |entries| ==> Overwrites(e, entries[i])
    ensures forall j :: 0 <= j < i ==> !Overwrites(e, entries[j])
  {
    if entries == [] || Overwrites(e, entries[0]) then 0 else 1 + FirstOverwritten(entries[1..], e)
  }

  function NewEntry(s: AclState, e: AclEntry): (AclState, Status) {
    if !Accepts(s.types, e.kind, e.permset, e.tag) then (s, Failed)
    else
      var i := FirstOverwritten(s.entries, e);
      if i < |s.entries| then (s.(entries := s.entries[i := e]), Ok)
      else (s.(entries := s.entries + [e], types := s.types + {e.kind}), Ok)
  }

  function AddEntry(s: AclState, e: AclEntry): (AclState, Status) {
    if IsSpecial(e.kind, e.permset, e.tag) then (s.(mode := SpecialMode(s.mode, e.permset, e.tag)), Ok)
    else NewEntry(s, e)
  }

  // ----- what an add does, entry by entry -----

  const POSIX_SET: Perms := {Execute, Write, Read}

  /** All permissions and inheritance flags of NFSv4. */
  const NFS4_SET: Perms := {
    Execute, ReadData, WriteData, AppendData, ReadNamedAttrs, WriteNamedAttrs, DeleteChild,
    ReadAttributes, WriteAttributes, Delete, ReadAcl, WriteAcl, WriteOwner, Synchronize,
    Inherited, FileInherit, DirectoryInherit, NoPropagateInherit, InheritOnly, SuccessfulAccess, FailedAccess}

  lemma SetsAreKnown(ps: Perms)
    ensures PosixPerms(ps) <==> ps <= POSIX_SET
    ensures Nfs4Perms(ps) <==> ps <= NFS4_SET
  {
    assert forall p :: IsPosixPerm(p) <==> p in POSIX_SET;
    assert forall p :: IsNfs4Bit(p) <==> p in NFS4_SET;
  }

  /** A standard access entry: its permissions replace three bits of the mode. */
  lemma StandardEntryIsStored(s: AclState, e: AclEntry)
    requires e.kind == Access && e.tag in {UserObj, GroupObj, Other} && e.permset <= POSIX_SET
    ensures AddEntry(s, e).1 == Ok && AddEntry(s, e).0.entries == s.entries && AddEntry(s, e).0.types == s.types
    ensures var m := AddEntry(s, e).0.mode;
            && m.user == (if e.tag == UserObj then e.permset else s.mode.user)
            && m.group == (if e.tag == GroupObj then e.permset else s.mode.group)
            && m.other == (if e.tag == Other then e.permset else s.mode.other)
            && m.rest == s.mode.rest
  {
    SetsAreKnown(e.permset);
  }

  /** Any other entry is refused exactly when its tag is unknown or belongs to the
      other family, when it has a permission that its family lacks, or when the
      list has an entry of the other family. */
  lemma WhenAddFails(s: AclState, e: AclEntry)
    requires !(e.kind == Access && e.tag in {UserObj, GroupObj, Other} && e.permset <= POSIX_SET)
    ensures var posix := e.kind in {Access, Default};
            AddEntry(s, e).1 == Failed <==>
              || e.tag.BadTag?
              || (e.tag in {Mask, Other} && !posix)
              || (e.tag == Everyone && posix)
              || !(e.permset <= if posix then POSIX_SET else NFS4_SET)
              || exists k <- s.types :: (k in {Access, Default}) != posix
    ensures AddEntry(s, e).1 == Failed ==> AddEntry(s, e).0 == s
    ensures AddEntry(s, e).1 in {Ok, Failed}
  {
    SetsAreKnown(e.permset);
  }

  /** An entry has the key of a new one. Named entries without an id, and those of
      NFSv4, have no key. */
  predicate HasKeyOf(was: AclEntry, e: AclEntry) {
    && e.kind in {Access, Default} && !(e.id == -1 && e.tag in {User, Group})
    && (was.kind, was.tag, was.id) == (e.kind, e.tag, e.id)
  }

  /** Otherwise it replaces the first entry with its key, or is the new last one. */
  lemma WhereAddGoes(s: AclState, e: AclEntry)
    requires !(e.kind == Access && e.tag in {UserObj, GroupObj, Other} && e.permset <= POSIX_SET)
    requires AddEntry(s, e).1 == Ok
    ensures var s' := AddEntry(s, e).0;
            && s'.mode == s.mode
            && ((forall was <- s.entries :: !HasKeyOf(was, e)) ==>
                  s'.entries == s.entries + [e] && s'.types == s.types + {e.kind})
            && forall i :: 0 <= i < |s.entries| && HasKeyOf(s.entries[i], e)
                           && (forall j :: 0 <= j < i ==> !HasKeyOf(s.entries[j], e)) ==>
                 s'.entries == s.entries[i := e] && s'.types == s.types
  {
    SetsAreKnown(e.permset);
    assert forall was: AclEntry :: HasKeyOf(was, e) <==> Overwrites(e, was);
    var n := FirstOverwritten(s.entries, e);
  }

  // ----- the invariant of the list -----

  function TypesOf(entries: seq<AclEntry>): (ts: set<Kind>)
    ensures forall k :: k in ts <==> exists e <- entries :: e.kind == k
  {
    set e <- entries :: e.kind
  }

  /** An entry that may stand in a list. */
  predicate Listable(e: AclEntry) {
    && Accepts({}, e.kind, e.permset, e.tag)
    && !(e.kind == Access && (e.tag == UserObj || e.tag == GroupObj || e.tag == Other))
  }

  ghost predicate Inv(s: AclState) {
    && s.types == TypesOf(s.entries)
    && (forall e <- s.entries :: Listable(e))
    && (forall d, e :: d in s.entries && e in s.entries ==> (IsPosix(d.kind) <==> IsPosix(e.kind)))
    && (forall i, j :: 0 <= i < j < |s.entries| ==> !Overwrites(s.entries[j], s.entries[i]))
  }

  /** Every add keeps the invariant, accepted or not. */
  lemma AddKeepsInv(s: AclState, e: AclEntry)
    requires Inv(s)
    ensures Inv(AddEntry(s, e).0)
  {
    if !IsSpecial(e.kind, e.permset, e.tag) && Accepts(s.types, e.kind, e.permset, e.tag) {
      assert Listable(e);
      var i := FirstOverwritten(s.entries, e);
      if i < |s.entries| {
        OverwriteKeepsInv(s, i, e);
      } else {
        AppendKeepsInv(s, e);
      }
    }
  }

  lemma OverwriteKeepsInv(s: AclState, i: nat, e: AclEntry)
    requires Inv(s) && Listable(e) && i < |s.entries| && Overwrites(e, s.entries[i])
    ensures Inv(s.(entries := s.entries[i := e]))
  {
    var entries' := s.entries[i := e];
    assert forall j :: 0 <= j < |entries'| ==> entries'[j].kind == s.entries[j].kind;
    assert forall k :: k in TypesOf(entries') <==> k in TypesOf(s.entries);
  }

  lemma AppendKeepsInv(s: AclState, e: AclEntry)
    requires Inv(s) && Listable(e) && Accepts(s.types, e.kind, e.permset, e.tag)
    requires forall was <- s.entries :: !Overwrites(e, was)
    ensures Inv(s.(entries := s.entries + [e], types := s.types + {e.kind}))
  {
    TypesOfAppend(s.entries, e);
    forall d <- s.entries
      ensures IsPosix(d.kind) <==> IsPosix(e.kind)
    {
      assert d.kind in s.types;
    }
  }

  /** What the invariant says of any two entries. */
  lemma KeysAreUnique(s: AclState, i: nat, j: nat)
    requires Inv(s) && i < j < |s.entries|
    ensures var a, b := s.entries[i], s.entries[j];
            IsPosix(a.kind) && a.kind == b.kind && a.tag == b.tag && a.id == b.id ==>
              a.id == -1 && (a.tag == User || a.tag == Group)
  {
    assert !Overwrites(s.entries[j], s.entries[i]);
  }

  // ----- copying -----

  function CopyFrom(s: AclState, entries: seq<AclEntry>): AclState {
    if entries == [] then s
    else NewEntry(CopyFrom(s, entries[..|entries| - 1]), entries[|entries| - 1]).0
  }

  /** A copy is exact: mode, entries in order, and types. */
  lemma {:induction false} CopyIsExact(s: AclState, n: nat)
    requires Inv(s) && n <= |s.entries|
    ensures CopyFrom(AclState(s.mode, [], {}), s.entries[..n]) == Prefix(s.mode, s.entries[..n])
  {
    if n > 0 {
      CopyIsExact(s, n - 1);
      assert s.entries[..n][..n - 1] == s.entries[..n - 1];
      Reappend(s, n - 1);
    }
  }

  /** The list of these entries, unmerged. */
  function Prefix(mode: Mode, entries: seq<AclEntry>): AclState {
    AclState(mode, entries, TypesOf(entries))
  }

  /** An entry of a good list is appended after the ones before it. */
  lemma {:induction false} Reappend(s: AclState, n: nat)
    requires Inv(s) && n < |s.entries|
    ensures var e, before := s.entries[n], Prefix(s.mode, s.entries[..n]);
            && !IsSpecial(e.kind, e.permset, e.tag)
            && NewEntry(before, e) == (Prefix(s.mode, s.entries[..n + 1]), Ok)
  {
    var e, before := s.entries[n], s.entries[..n];
    assert Listable(e);
    forall k <- TypesOf(before)
      ensures IsPosix(k) <==> IsPosix(e.kind)
    {
      var d :| d in before && d.kind == k;
      assert d in s.entries;
    }
    assert FirstOverwritten(before, e) == n;
    assert s.entries[..n + 1] == before + [e];
    TypesOfAppend(before, e);
  }

  lemma {:induction false} TypesOfAppend(entries: seq<AclEntry>, e: AclEntry)
    ensures TypesOf(entries + [e]) == TypesOf(entries) + {e.kind}
  {
    assert forall k :: k in TypesOf(entries + [e]) <==> k in TypesOf(entries) + {e.kind};
  }

  // ----- the list itself -----

  class AclList {
    var mode: Mode
    var entries: seq<AclEntry>
    var types: set<Kind>

    ghost function State(): AclState
      reads this
    {
      AclState(mode, entries, types)
    }

    constructor (mode: Mode)
      ensures State() == AclState(mode, [], {})
    {
      this.mode := mode;
      entries, types := [], {};
    }

    method Clear()
      modifies this
      ensures State() == AclState(old(mode), [], {})
    {
      entries, types := [], {};
    }

    /** Store one of the three standard entries in the mode. */
    method Special(kind: Kind, permset: Perms, tag: Tag) returns (stored: bool)
      modifies this`mode
      ensures stored <==> IsSpecial(kind, permset, tag)
      ensures mode == if stored then SpecialMode(old(mode), permset, tag) else old(mode)
    {
      if kind == Access && PosixPerms(permset) {
        match tag {
          case UserObj =>
            mode := mode.(user := permset);
            return true;
          case GroupObj =>
            mode := mode.(group := permset);
            return true;
          case Other =>
            mode := mode.(other := permset);
            return true;
          case _ =>
        }
      }
      return false;
    }

    /** Overwrite the first entry with the same key, or append. */
    method New(e: AclEntry) returns (r: Status)
      modifies this`entries, this`types
      ensures (State(), r) == NewEntry(old(State()), e)
    {
      if !Accepts(types, e.kind, e.permset, e.tag) {
        return Failed;
      }
      var i := 0;
      while i < |entries|
        invariant 0 <= i <= |entries|
        invariant forall j :: 0 <= j < i ==> !Overwrites(e, entries[j])
      {
        if IsPosix(e.kind) && entries[i].kind == e.kind && entries[i].tag == e.tag && entries[i].id == e.id {
          if e.id != -1 || (e.tag != User && e.tag != Group) {
            assert FirstOverwritten(entries, e) == i;
            entries := entries[i := e];
            return Ok;
          }
        }
        i := i + 1;
      }
      assert FirstOverwritten(entries, e) == i;
      entries := entries + [e];
      types := types + {e.kind};
      r := Ok;
    }

    method Add(kind: Kind, permset: Perms, tag: Tag, id: int32, name: string) returns (r: Status)
      modifies this
      ensures (State(), r) == AddEntry(old(State()), AclEntry(kind, tag, permset, id, name))
    {
      var stored := Special(kind, permset, tag);
      if stored {
        return Ok;
      }
      r := New(AclEntry(kind, tag, permset, id, name));
    }

    /** Become a copy of another list. */
    method CopyOf(src: AclList)
      requires src != this && Inv(src.State())
      modifies this
      ensures State() == src.State()
    {
      Clear();
      mode := src.mode;
      ghost var start := State();
      var i := 0;
      while i < |src.entries|
        invariant 0 <= i <= |src.entries|
        invariant State() == CopyFrom(start, src.entries[..i])
      {
        assert src.entries[..i + 1][..i] == src.entries[..i];
        var r := New(src.entries[i]);
        i := i + 1;
      }
      assert src.entries[..i] == src.entries;
      CopyIsExact(src.State(), i);
    }
  }
}
