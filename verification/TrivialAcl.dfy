/** The NFSv4 entries that say what a file mode says. */
module TrivialAcl {
  import opened Acl

  const PUBLIC: Perms := {ReadAttributes, ReadNamedAttrs, ReadAcl, Synchronize}
  const OWNER: Perms := PUBLIC + {WriteAttributes, WriteNamedAttrs, WriteAcl, WriteOwner}

  /** The permissions that mode bits stand for. */
  const USABLE: Perms := {ReadData, WriteData, AppendData, Execute}

  /** The mode bit of such a permission. */
  function ModeBit(p: Perm): Perm {
    if p == ReadData then Read else if p == Execute then Execute else Write
  }

  predicate MayUse(bits: Perms, p: Perm) {
    p in USABLE && ModeBit(p) in bits
  }

  /** The NFSv4 permissions for mode bits. */
  function Widened(bits: Perms): Perms {
    set p <- USABLE | MayUse(bits, p)
  }

  function Entry(kind: Kind, tag: Tag, ps: Perms): AclEntry {
    AclEntry(kind, tag, ps, -1, "")
  }

  function KindAt(i: nat): Kind {
    if i == 1 || i == 2 then Deny else Allow
  }

  function TagAt(i: nat): Tag {
    if i == 5 then Everyone else if i == 2 || i == 4 then GroupObj else UserObj
  }

  /** The owner is first allowed what only others may do and the group may not,
      then denied what only group or others may do; then the group is denied
      what only others may do. */
  function PermsAt(mode: Mode, i: nat): Perms {
    if i == 0 then Widened(mode.user * (mode.other - mode.group))
    else if i == 1 then Widened((mode.group + mode.other) - mode.user)
    else if i == 2 then Widened(mode.other - mode.group)
    else if i == 3 then OWNER + Widened(mode.user)
    else if i == 4 then PUBLIC + Widened(mode.group)
    else PUBLIC + Widened(mode.other)
  }

  function EntryAt(mode: Mode, i: nat): AclEntry {
    Entry(KindAt(i), TagAt(i), PermsAt(mode, i))
  }

  function AllEntries(mode: Mode): seq<AclEntry> {
    seq(6, i requires 0 <= i < 6 => EntryAt(mode, i))
  }

  function NonEmpty(es: seq<AclEntry>): seq<AclEntry> {
    if es == [] then []
    else NonEmpty(es[..|es| - 1]) + if es[|es| - 1].permset != {} then [es[|es| - 1]] else []
  }

  // ----- evaluation -----

  datatype Decision = Granted | Refused | Undecided

  /** Who asks: the owner or not, a member of the group or not, and whom an
      entry for a named user or group means. */
  datatype Requester = Requester(isOwner: bool, inGroup: bool, named: AclEntry -> bool)

  predicate Matches(r: Requester, e: AclEntry) {
    match e.tag
    case UserObj => r.isOwner
    case GroupObj => r.inGroup
    case Everyone => true
    case User => r.named(e)
    case Group => r.named(e)
    case _ => false
  }

  predicate Decides(r: Requester, p: Perm, e: AclEntry) {
    (e.kind == Allow || e.kind == Deny) && Matches(r, e) && p in e.permset
  }

  /** The first entry that decides a permission wins; see section 6.2.1 of RFC 7530. */
  function Decide(es: seq<AclEntry>, r: Requester, p: Perm): Decision {
    if es == [] then Undecided
    else if Decides(r, p, es[0]) then if es[0].kind == Allow then Granted else Refused
    else Decide(es[1..], r, p)
  }

  /** The mode bits of the requester's class. */
  function ClassBits(mode: Mode, r: Requester): Perms {
    if r.isOwner then mode.user else if r.inGroup then mode.group else mode.other
  }

  lemma {:induction false} DecideConcat(a: seq<AclEntry>, b: seq<AclEntry>, r: Requester, p: Perm)
    ensures Decide(a + b, r, p) == if Decide(a, r, p) == Undecided then Decide(b, r, p) else Decide(a, r, p)
    decreases |a|
  {
    if a == [] {
      assert a + b == b;
    } else {
      assert (a + b)[1..] == a[1..] + b;
      DecideConcat(a[1..], b, r, p);
    }
  }

  lemma {:induction false} NonEmptyDecides(es: seq<AclEntry>, r: Requester, p: Perm)
    ensures Decide(NonEmpty(es), r, p) == Decide(es, r, p)
    decreases |es|
  {
    if es != [] {
      var front, e := es[..|es| - 1], es[|es| - 1];
      NonEmptyDecides(front, r, p);
      assert es == front + [e];
      DecideConcat(front, [e], r, p);
      DecideConcat(NonEmpty(front), [e], r, p);
      assert NonEmpty(front) + [] == NonEmpty(front);
      assert [e][1..] == [];
    }
  }

  function Verdict(e: AclEntry): Decision {
    if e.kind == Allow then Granted else Refused
  }

  lemma DecideFirst(e: AclEntry, es: seq<AclEntry>, r: Requester, p: Perm)
    ensures Decide([e] + es, r, p) == if Decides(r, p, e) then Verdict(e) else Decide(es, r, p)
  {
    assert ([e] + es)[1..] == es;
  }

  lemma DecideOfSix(a: AclEntry, b: AclEntry, c: AclEntry, d: AclEntry, e: AclEntry, f: AclEntry,
                    r: Requester, p: Perm)
    ensures Decide([a, b, c, d, e, f], r, p) ==
            if Decides(r, p, a) then Verdict(a) else if Decides(r, p, b) then Verdict(b)
            else if Decides(r, p, c) then Verdict(c) else if Decides(r, p, d) then Verdict(d)
            else if Decides(r, p, e) then Verdict(e) else if Decides(r, p, f) then Verdict(f) else Undecided
  {
    assert [a, b, c, d, e, f] == [a] + [b, c, d, e, f] && [b, c, d, e, f] == [b] + [c, d, e, f];
    assert [c, d, e, f] == [c] + [d, e, f] && [d, e, f] == [d] + [e, f] && [e, f] == [e] + [f] && [f] == [f] + [];
    DecideFirst(a, [b, c, d, e, f], r, p);
    DecideFirst(b, [c, d, e, f], r, p);
    DecideFirst(c, [d, e, f], r, p);
    DecideFirst(d, [e, f], r, p);
    DecideFirst(e, [f], r, p);
    DecideFirst(f, [], r, p);
  }

  lemma Attributes(p: Perm)
    ensures p in PUBLIC ==> p in OWNER
    ensures p in OWNER ==> p !in USABLE
  {
  }

  lemma DecidesBits(r: Requester, p: Perm, kind: Kind, tag: Tag, bits: Perms)
    requires kind == Allow || kind == Deny
    ensures Decides(r, p, Entry(kind, tag, Widened(bits))) <==> Matches(r, Entry(kind, tag, {})) && MayUse(bits, p)
    requires tag == UserObj || tag == GroupObj || tag == Everyone
  {
  }

  lemma DecidesMore(r: Requester, p: Perm, tag: Tag, base: Perms, bits: Perms)
    requires tag == UserObj || tag == GroupObj || tag == Everyone
    ensures Decides(r, p, Entry(Allow, tag, base + Widened(bits))) <==>
            Matches(r, Entry(Allow, tag, {})) && (p in base || MayUse(bits, p))
  {
  }

  lemma DenialsDecide(mode: Mode, r: Requester, p: Perm)
    ensures (Decides(r, p, EntryAt(mode, 1)) <==> r.isOwner && MayUse((mode.group + mode.other) - mode.user, p))
    ensures (Decides(r, p, EntryAt(mode, 2)) <==> r.inGroup && MayUse(mode.other - mode.group, p))
  {
    DecidesBits(r, p, Deny, UserObj, (mode.group + mode.other) - mode.user);
    DecidesBits(r, p, Deny, GroupObj, mode.other - mode.group);
  }

  lemma OwnersDecide(mode: Mode, r: Requester, p: Perm)
    ensures (Decides(r, p, EntryAt(mode, 0)) <==> r.isOwner && MayUse(mode.user * (mode.other - mode.group), p))
    ensures (Decides(r, p, EntryAt(mode, 3)) <==> r.isOwner && (p in OWNER || MayUse(mode.user, p)))
  {
    DecidesBits(r, p, Allow, UserObj, mode.user * (mode.other - mode.group));
    DecidesMore(r, p, UserObj, OWNER, mode.user);
  }

  lemma OthersDecide(mode: Mode, r: Requester, p: Perm)
    ensures (Decides(r, p, EntryAt(mode, 4)) <==> r.inGroup && (p in PUBLIC || MayUse(mode.group, p)))
    ensures (Decides(r, p, EntryAt(mode, 5)) <==> p in PUBLIC || MayUse(mode.other, p))
  {
    DecidesMore(r, p, GroupObj, PUBLIC, mode.group);
    DecidesMore(r, p, Everyone, PUBLIC, mode.other);
  }

  /** What a class may use among the others, bit by bit. */
  lemma MayUseOf(a: Perms, b: Perms, p: Perm)
    ensures MayUse(a * b, p) <==> MayUse(a, p) && MayUse(b, p)
    ensures MayUse(a + b, p) <==> MayUse(a, p) || MayUse(b, p)
    ensures MayUse(a - b, p) <==> MayUse(a, p) && !MayUse(b, p)
  {
  }

  lemma AllEntriesDecide(mode: Mode, r: Requester, p: Perm)
    ensures Decide(AllEntries(mode), r, p) == Granted <==>
            MayUse(ClassBits(mode, r), p) || p in (if r.isOwner then OWNER else PUBLIC)
  {
    var es := AllEntries(mode);
    assert es == [es[0], es[1], es[2], es[3], es[4], es[5]];
    DecideOfSix(es[0], es[1], es[2], es[3], es[4], es[5], r, p);
    DenialsDecide(mode, r, p);
    OwnersDecide(mode, r, p);
    OthersDecide(mode, r, p);
    MayUseOf(mode.user, mode.other - mode.group, p);
    MayUseOf(mode.other, mode.group, p);
    MayUseOf(mode.group, mode.other, p);
    MayUseOf(mode.group + mode.other, mode.user, p);
    Attributes(p);
  }

  lemma {:induction false} NoneMatches(es: seq<AclEntry>, r: Requester, p: Perm)
    requires forall e <- es :: !Matches(r, e)
    ensures Decide(es, r, p) == Undecided
    decreases |es|
  {
    if es != [] {
      NoneMatches(es[1..], r, p);
    }
  }

  lemma UsableBits(bits: Perms, isOwner: bool, p: Perm)
    ensures MayUse(bits, p) || p in (if isOwner then OWNER else PUBLIC) <==>
              || (p == ReadData && Read in bits)
              || ((p == WriteData || p == AppendData) && Write in bits)
              || (p == Execute && Execute in bits)
              || p in {ReadAttributes, ReadNamedAttrs, ReadAcl, Synchronize}
              || (isOwner && p in {WriteAttributes, WriteNamedAttrs, WriteAcl, WriteOwner})
  {
  }

  /** Behind entries that do not match the requester, the translated mode grants
      exactly the bits the mode gives the requester's class, and besides them
      the attributes everyone may read and those only the owner may change. */
  lemma MeaningIsKept(before: seq<AclEntry>, mode: Mode, r: Requester, p: Perm)
    requires forall e <- before :: !Matches(r, e)
    ensures var bits := if r.isOwner then mode.user else if r.inGroup then mode.group else mode.other;
            Decide(before + NonEmpty(AllEntries(mode)), r, p) == Granted <==>
              || (p == ReadData && Read in bits)
              || ((p == WriteData || p == AppendData) && Write in bits)
              || (p == Execute && Execute in bits)
              || p in {ReadAttributes, ReadNamedAttrs, ReadAcl, Synchronize}
              || (r.isOwner && p in {WriteAttributes, WriteNamedAttrs, WriteAcl, WriteOwner})
  {
    NoneMatches(before, r, p);
    DecideConcat(before, NonEmpty(AllEntries(mode)), r, p);
    NonEmptyDecides(AllEntries(mode), r, p);
    AllEntriesDecide(mode, r, p);
    UsableBits(ClassBits(mode, r), r.isOwner, p);
  }

  // ----- the program -----

  function AddedAll(s: AclState, es: seq<AclEntry>): AclState {
    if es == [] then s else AddEntry(AddedAll(s, es[..|es| - 1]), es[|es| - 1]).0
  }

  predicate IsNfs4List(s: AclState) {
    forall k <- s.types :: !IsPosix(k)
  }

  predicate Addable(e: AclEntry) {
    (e.kind == Allow || e.kind == Deny) && (e.tag == UserObj || e.tag == GroupObj || e.tag == Everyone)
    && Nfs4Perms(e.permset)
  }

  lemma OnlyPosixOverwrites(entries: seq<AclEntry>, e: AclEntry)
    requires !IsPosix(e.kind)
    ensures FirstOverwritten(entries, e) == |entries|
  {
  }

  lemma OneAdded(s: AclState, e: AclEntry)
    requires Addable(e)
    ensures AddEntry(s, e).0 ==
            if IsNfs4List(s) then s.(entries := s.entries + [e], types := s.types + {e.kind}) else s
  {
    OnlyPosixOverwrites(s.entries, e);
  }

  /** Entries are appended to an NFSv4 list, and refused by any other. */
  lemma {:induction false} AddedToList(s: AclState, es: seq<AclEntry>)
    requires forall e <- es :: Addable(e)
    ensures AddedAll(s, es) ==
            if IsNfs4List(s) then s.(entries := s.entries + es, types := s.types + TypesOf(es)) else s
  {
    if es == [] {
      assert s.entries + es == s.entries && TypesOf(es) == {};
    } else {
      var front, e := es[..|es| - 1], es[|es| - 1];
      assert Addable(e);
      AddedToList(s, front);
      OneAdded(AddedAll(s, front), e);
      TypesOfLast(es);
      ConcatLast(s.entries, es);
    }
  }

  lemma {:induction false} ConcatLast<T>(a: seq<T>, b: seq<T>)
    requires b != []
    ensures a + b == a + b[..|b| - 1] + [b[|b| - 1]]
  {
  }

  lemma TypesOfLast(es: seq<AclEntry>)
    requires es != []
    ensures TypesOf(es) == TypesOf(es[..|es| - 1]) + {es[|es| - 1].kind}
  {
    TypesOfAppend(es[..|es| - 1], es[|es| - 1]);
    assert es == es[..|es| - 1] + [es[|es| - 1]];
  }

  lemma {:induction false} NonEmptyAddable(es: seq<AclEntry>)
    requires forall e <- es :: Addable(e)
    ensures forall e <- NonEmpty(es) :: Addable(e)
  {
    if es != [] {
      NonEmptyAddable(es[..|es| - 1]);
    }
  }

  // What each section of the translation leaves in its entries.

  method GroupBit(t: array<Perms>, mode: Mode, bit: Perm, perm: Perms)
    requires t.Length == 6
    modifies t
    ensures t[4] == old(t[4]) + (if bit in mode.group then perm else {})
    ensures t[2] == old(t[2]) + (if bit in mode.other - mode.group then perm else {})
    ensures forall i :: 0 <= i < 6 && i != 4 && i != 2 ==> t[i] == old(t[i])
  {
    if bit in mode.group {
      t[4] := t[4] + perm;
    } else if bit in mode.other {
      t[2] := t[2] + perm;
    }
  }

  method OwnerBit(t: array<Perms>, mode: Mode, bit: Perm, perm: Perms)
    requires t.Length == 6
    modifies t
    ensures t[3] == old(t[3]) + (if bit in mode.user then perm else {})
    ensures t[0] == old(t[0]) + (if bit in mode.user * (mode.other - mode.group) then perm else {})
    ensures t[1] == old(t[1]) + (if bit in (mode.group + mode.other) - mode.user then perm else {})
    ensures forall i :: 0 <= i < 6 && i != 0 && i != 1 && i != 3 ==> t[i] == old(t[i])
  {
    if bit in mode.user {
      t[3] := t[3] + perm;
      if bit !in mode.group && bit in mode.other {
        t[0] := t[0] + perm;
      }
    } else if bit in mode.group || bit in mode.other {
      t[1] := t[1] + perm;
    }
  }

  /** The three additions are one. */
  lemma AddedBits(ps: Perms, bits: Perms)
    ensures ps + (if Read in bits then {ReadData} else {}) + (if Write in bits then {WriteData, AppendData} else {})
              + (if Execute in bits then {Execute} else {})
            == ps + Widened(bits)
  {
  }

  method EveryoneBits(t: array<Perms>, mode: Mode)
    requires t.Length == 6
    modifies t
    ensures t[5] == old(t[5]) + Widened(mode.other)
    ensures forall i :: 0 <= i < 5 ==> t[i] == old(t[i])
  {
    AddedBits(t[5], mode.other);
    if Read in mode.other {
      t[5] := t[5] + {ReadData};
    }
    if Write in mode.other {
      t[5] := t[5] + {WriteData, AppendData};
    }
    if Execute in mode.other {
      t[5] := t[5] + {Execute};
    }
  }

  method GroupBits(t: array<Perms>, mode: Mode)
    requires t.Length == 6
    modifies t
    ensures t[4] == old(t[4]) + Widened(mode.group) && t[2] == old(t[2]) + Widened(mode.other - mode.group)
    ensures forall i :: 0 <= i < 6 && i != 4 && i != 2 ==> t[i] == old(t[i])
  {
    AddedBits(t[4], mode.group);
    AddedBits(t[2], mode.other - mode.group);
    GroupBit(t, mode, Read, {ReadData});
    GroupBit(t, mode, Write, {WriteData, AppendData});
    GroupBit(t, mode, Execute, {Execute});
  }

  method OwnerBits(t: array<Perms>, mode: Mode)
    requires t.Length == 6
    modifies t
    ensures t[3] == old(t[3]) + Widened(mode.user)
    ensures t[0] == old(t[0]) + Widened(mode.user * (mode.other - mode.group))
    ensures t[1] == old(t[1]) + Widened((mode.group + mode.other) - mode.user)
    ensures forall i :: 0 <= i < 6 && i != 0 && i != 1 && i != 3 ==> t[i] == old(t[i])
  {
    AddedBits(t[3], mode.user);
    AddedBits(t[0], mode.user * (mode.other - mode.group));
    AddedBits(t[1], (mode.group + mode.other) - mode.user);
    OwnerBit(t, mode, Read, {ReadData});
    OwnerBit(t, mode, Write, {WriteData, AppendData});
    OwnerBit(t, mode, Execute, {Execute});
  }

  method AllBits(t: array<Perms>, mode: Mode)
    requires t.Length == 6 && t[..] == [{}, {}, {}, OWNER, PUBLIC, PUBLIC]
    modifies t
    ensures forall i :: 0 <= i < 6 ==> t[i] == PermsAt(mode, i)
  {
    assert t[0] == {} && t[1] == {} && t[2] == {} && t[3] == OWNER && t[4] == PUBLIC && t[5] == PUBLIC;
    EveryoneBits(t, mode);
    GroupBits(t, mode);
    OwnerBits(t, mode);
    assert forall bits :: {} + Widened(bits) == Widened(bits);
  }

  /** Add the entries that give some permission. */
  method AddNonEmpty(acl: AclList, t: array<Perms>, ghost mode: Mode)
    requires t.Length == 6 && forall i :: 0 <= i < 6 ==> t[i] == PermsAt(mode, i)
    modifies acl
    ensures acl.State() == AddedAll(old(acl.State()), NonEmpty(AllEntries(mode)))
  {
    ghost var es := AllEntries(mode);
    var i := 0;
    while i < 6
      invariant 0 <= i <= 6 && acl.State() == AddedAll(old(acl.State()), NonEmpty(es[..i]))
    {
      assert es[..i + 1][..i] == es[..i] && es[i] == EntryAt(mode, i);
      if t[i] != {} {
        assert NonEmpty(es[..i + 1])[..|NonEmpty(es[..i])|] == NonEmpty(es[..i]);
        var r := acl.Add(KindAt(i), t[i], TagAt(i), -1, "");
      } else {
        assert NonEmpty(es[..i + 1]) == NonEmpty(es[..i]);
      }
      i := i + 1;
    }
    assert es[..i] == es;
  }

  lemma PermIsNfs4(p: Perm)
    requires p in USABLE || p in OWNER || p in PUBLIC
    ensures IsNfs4Bit(p)
  {
  }

  lemma AllAddable(mode: Mode)
    ensures forall e <- AllEntries(mode) :: Addable(e)
  {
    forall i, p | 0 <= i < 6 && p in PermsAt(mode, i)
      ensures IsNfs4Bit(p)
    {
      PermIsNfs4(p);
    }
  }

  /** Append the entries for the mode of the list. */
  method AddTrivial(acl: AclList)
    modifies acl
    ensures acl.State() ==
            var es, s := NonEmpty(AllEntries(old(acl.mode))), old(acl.State());
            if IsNfs4List(s) then s.(entries := s.entries + es, types := s.types + TypesOf(es)) else s
  {
    var mode := acl.mode;
    var t := new Perms[6] [{}, {}, {}, OWNER, PUBLIC, PUBLIC];
    AllBits(t, mode);
    AddNonEmpty(acl, t, mode);
    AllAddable(mode);
    NonEmptyAddable(AllEntries(mode));
    AddedToList(old(acl.State()), NonEmpty(AllEntries(mode)));
  }
}
