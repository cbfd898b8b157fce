/** Reading back what was printed. */
module AclRoundTrip {
  import opened Wrappers
  import opened Text
  import opened Acl
  import opened AclText
  import opened AclParse

  // ----- fields -----

  /** Text that a field can carry unchanged. */
  predicate Clean(f: string) {
    && (forall c <- f :: !EndsField(c))
    && (f != "" ==> !Blank(f[0]) && !Blank(f[|f| - 1]))
  }

  predicate EndsEntry(c: char) {
    c == ',' || c == '\n'
  }

  function JoinFields(fs: seq<string>): string
    requires fs != []
  {
    if |fs| == 1 then fs[0] else fs[0] + ":" + JoinFields(fs[1..])
  }

  lemma {:induction false} FieldEndOfClean(f: string, tail: string)
    requires forall c <- f :: !EndsField(c)
    requires tail != "" ==> EndsField(tail[0])
    ensures FieldEnd(f + tail) == |f|
  {
    if f != "" {
      assert (f + tail)[1..] == f[1..] + tail;
      FieldEndOfClean(f[1..], tail);
    } else {
      assert f + tail == tail;
    }
  }

  lemma NextOfClean(f: string, tail: string)
    requires Clean(f)
    requires if tail == "" then f != "" else tail[0] == ':' || (f != "" && EndsEntry(tail[0]))
    ensures NextField(f + tail) == Field(f, false, At(tail, 0), if tail == "" then "" else tail[1..])
  {
    var s := f + tail;
    FieldEndOfClean(f, tail);
    assert SkipBlanks(s) == s;
    assert s[..|f|] == f && s[|f|..] == tail;
    assert TrimRight(f) == f && SkipComment(tail) == tail;
    assert Body(s) == (f, tail);
  }

  predicate Fieldable(fs: seq<string>) {
    fs != [] && fs[|fs| - 1] != "" && forall f <- fs :: Clean(f)
  }

  lemma SplitStep(f: string, more: string)
    requires Clean(f)
    ensures Split(f + ":" + more) == Fields([f] + Split(more).texts, false, Split(more).rest)
  {
    var tail := ":" + more;
    assert f + ":" + more == f + tail && tail[1..] == more;
    NextOfClean(f, tail);
  }

  lemma JoinStep(fs: seq<string>, tail: string)
    requires |fs| > 1
    ensures JoinFields(fs) + tail == fs[0] + ":" + (JoinFields(fs[1..]) + tail)
  {
  }

  lemma SplitLast(f: string, tail: string)
    requires Clean(f) && f != "" && (tail != "" ==> EndsEntry(tail[0]))
    ensures Split(f + tail) == Fields([f], false, if tail == "" then "" else tail[1..])
  {
    NextOfClean(f, tail);
  }

  lemma FirstAndRest(fs: seq<string>)
    requires Fieldable(fs)
    ensures |fs| == 1 ==> fs == [fs[0]]
    ensures |fs| > 1 ==> fs == [fs[0]] + fs[1..] && Fieldable(fs[1..])
  {
  }

  /** Splitting undoes joining. */
  lemma {:induction false} SplitOfJoin(fs: seq<string>, tail: string)
    requires Fieldable(fs) && (tail != "" ==> EndsEntry(tail[0]))
    ensures Split(JoinFields(fs) + tail) == Fields(fs, false, if tail == "" then "" else tail[1..])
    decreases |fs|
  {
    FirstAndRest(fs);
    if |fs| == 1 {
      SplitLast(fs[0], tail);
    } else {
      SplitOfJoin(fs[1..], tail);
      JoinStep(fs, tail);
      SplitStep(fs[0], JoinFields(fs[1..]) + tail);
    }
  }

  // ----- numbers -----

  lemma {:induction false} IntFromAppend(a: string, b: string, n: int32)
    requires n >= 0 && IntFrom(a, n).Some?
    ensures IntFrom(a + b, n) == IntFrom(b, IntFrom(a, n).value)
    decreases |a|
  {
    if a == "" {
      assert a + b == b;
    } else {
      assert (a + b)[1..] == a[1..] + b;
      var d := a[0] as int - '0' as int;
      IntFromAppend(a[1..], b, if n > 214748364 || (n == 214748364 && d > 7) then INT_MAX else 10 * n + d);
    }
  }

  lemma {:induction false} DigitsRoundTrip(id: int32)
    requires id >= 0
    ensures IntFrom(Digits(id), 0) == Some(id)
    decreases id
  {
    var last := [Digit(id % 10)];
    if id > 9 {
      DigitsRoundTrip(id / 10);
      IntFromAppend(Digits(id / 10), last, 0);
    }
    assert last[1..] == "";
    assert IntFrom("", id) == Some(id);
  }

  /** A negative id comes back as 0. */
  function IdShown(id: int32): int32 {
    if id < 0 then 0 else id
  }

  lemma IdRoundTrip(id: int32)
    ensures IntOf(IdText(id)) == Some(IdShown(id)) && Clean(IdText(id))
  {
    DigitsRoundTrip(IdShown(id));
    DigitsAreDigits(IdShown(id));
  }

  lemma {:induction false} DigitsAreDigits(n: nat)
    ensures forall c <- Digits(n) :: IsDigit(c)
  {
    if n > 9 {
      DigitsAreDigits(n / 10);
    }
  }

  // ----- letters -----

  /** The bits of the set that the map knows. */
  function Known(ps: Perms, m: PermMap): Perms {
    set i | 0 <= i < |m| && m[i].0 in ps :: m[i].0
  }

  /** The reader knows each letter of the map. */
  ghost predicate Reads(bits: char -> Option<Perms>, m: PermMap) {
    && bits('-') == Some({})
    && forall i :: 0 <= i < |m| ==> bits(m[i].1) == Some({m[i].0}) && !EndsField(m[i].1) && !Blank(m[i].1)
  }

  lemma {:induction false} LettersAppend(a: string, b: string, bits: char -> Option<Perms>, ps: Perms)
    requires Letters(a, bits, ps).1
    ensures Letters(a + b, bits, ps) == Letters(b, bits, Letters(a, bits, ps).0)
    decreases |a|
  {
    if a == "" {
      assert a + b == b;
    } else {
      assert (a + b)[1..] == a[1..] + b;
      LettersAppend(a[1..], b, bits, ps + bits(a[0]).value);
    }
  }

  /** What is written for one bit. */
  function Piece(ps: Perms, p: Perm, c: char, compact: bool): string {
    if p in ps then [c] else if compact then "" else "-"
  }

  lemma PieceRoundTrip(ps: Perms, p: Perm, c: char, compact: bool, bits: char -> Option<Perms>, got: Perms)
    requires bits(c) == Some({p}) && bits('-') == Some({})
    ensures Letters(Piece(ps, p, c, compact), bits, got) == (got + (ps * {p}), true)
  {
    if p in ps {
      OneLetter(c, bits, got);
      assert ps * {p} == {p};
    } else {
      OneLetter('-', bits, got);
      assert ps * {p} == {} && got + {} == got;
    }
  }

  lemma KnownStep(ps: Perms, m: PermMap)
    requires m != []
    ensures Known(ps, m) == Known(ps, m[..|m| - 1]) + (ps * {m[|m| - 1].0})
  {
    var n := |m| - 1;
    assert forall q :: q in Known(ps, m) <==> q in Known(ps, m[..n]) + (ps * {m[n].0});
  }

  lemma {:induction false} MapRoundTrip(ps: Perms, m: PermMap, compact: bool, bits: char -> Option<Perms>, got: Perms)
    requires Reads(bits, m)
    ensures Letters(MapText(ps, m, compact), bits, got) == (got + Known(ps, m), true)
    decreases |m|
  {
    if m == [] {
      assert got + Known(ps, m) == got;
    } else {
      var n := |m| - 1;
      var (p, c) := m[n];
      var before, piece := MapText(ps, m[..n], compact), Piece(ps, p, c, compact);
      MapRoundTrip(ps, m[..n], compact, bits, got);
      LettersAppend(before, piece, bits, got);
      PieceRoundTrip(ps, p, c, compact, bits, got + Known(ps, m[..n]));
      KnownStep(ps, m);
      assert got + Known(ps, m[..n]) + (ps * {p}) == got + Known(ps, m);
    }
  }

  lemma {:induction false} MapTextIsClean(ps: Perms, m: PermMap, compact: bool, bits: char -> Option<Perms>)
    requires Reads(bits, m)
    ensures forall c <- MapText(ps, m, compact) :: !EndsField(c) && !Blank(c)
    decreases |m|
  {
    if m != [] {
      MapTextIsClean(ps, m[..|m| - 1], compact, bits);
    }
  }

  lemma OneLetter(c: char, bits: char -> Option<Perms>, ps: Perms)
    requires bits(c).Some?
    ensures Letters([c], bits, ps) == (ps + bits(c).value, true)
  {
    assert [c][1..] == "";
  }

  lemma PermsAreRead()
    ensures Reads(PermBits, PERM_MAP)
  {
    forall i | 0 <= i < |PERM_MAP|
      ensures PermBits(PERM_MAP[i].1) == Some({PERM_MAP[i].0}) && !EndsField(PERM_MAP[i].1) && !Blank(PERM_MAP[i].1)
    {
      if i < 5 {
      } else if i < 10 {
      } else {
      }
    }
  }

  lemma FlagsAreRead()
    ensures Reads(FlagBits, FLAG_MAP)
  {
  }

  lemma InSomeMap(p: Perm)
    requires IsNfs4Bit(p)
    ensures (exists i :: 0 <= i < |PERM_MAP| && PERM_MAP[i].0 == p) || (exists i :: 0 <= i < |FLAG_MAP| && FLAG_MAP[i].0 == p)
  {
    assert PERM_MAP[0].0 == ReadData && PERM_MAP[1].0 == WriteData && PERM_MAP[2].0 == Execute
        && PERM_MAP[3].0 == AppendData && PERM_MAP[4].0 == Delete && PERM_MAP[5].0 == DeleteChild
        && PERM_MAP[6].0 == ReadAttributes && PERM_MAP[7].0 == WriteAttributes && PERM_MAP[8].0 == ReadNamedAttrs
        && PERM_MAP[9].0 == WriteNamedAttrs && PERM_MAP[10].0 == ReadAcl && PERM_MAP[11].0 == WriteAcl
        && PERM_MAP[12].0 == WriteOwner && PERM_MAP[13].0 == Synchronize;
    assert FLAG_MAP[0].0 == FileInherit && FLAG_MAP[1].0 == DirectoryInherit && FLAG_MAP[2].0 == InheritOnly
        && FLAG_MAP[3].0 == NoPropagateInherit && FLAG_MAP[4].0 == SuccessfulAccess && FLAG_MAP[5].0 == FailedAccess
        && FLAG_MAP[6].0 == Inherited;
  }

  lemma MapsKnowAll(ps: Perms)
    requires Nfs4Perms(ps)
    ensures {} + Known(ps, PERM_MAP) + Known(ps, FLAG_MAP) == ps
  {
    forall p <- ps
      ensures p in Known(ps, PERM_MAP) || p in Known(ps, FLAG_MAP)
    {
      InSomeMap(p);
    }
  }

  lemma ModeRoundTrip(ps: Perms)
    requires PosixPerms(ps)
    ensures ModeLetters(PosixPermText(ps)) == (ps, true) && Clean(PosixPermText(ps))
  {
    var t := PosixPermText(ps);
    assert t == [t[0]] + [t[1]] + [t[2]];
    OneLetter(t[0], ModeBits, {});
    var a := {} + ModeBits(t[0]).value;
    LettersAppend([t[0]], [t[1]], ModeBits, {});
    OneLetter(t[1], ModeBits, a);
    var b := a + ModeBits(t[1]).value;
    LettersAppend([t[0]] + [t[1]], [t[2]], ModeBits, {});
    OneLetter(t[2], ModeBits, b);
    assert b + ModeBits(t[2]).value == ps;
  }

  // ----- the fields of a line -----

  /** An entry of a list whose name a field can carry. */
  predicate Plain(e: AclEntry) {
    Accepts({}, e.kind, e.permset, e.tag) && Clean(e.name)
  }

  /** What stands for the name: the id, if there is none. */
  function NameShown(e: AclEntry): string {
    if e.name != "" then e.name else IdText(e.id)
  }

  /** There is an id field at the end. */
  predicate HasTrailer(st: Style, e: AclEntry) {
    Named(e.tag) && WrittenId(st, e) != -1 && !(e.name == "" && IsPosix(e.kind))
  }

  function TagFields(st: Style, e: AclEntry): seq<string> {
    (if e.kind == Default && st.markDefault then ["default"] else []) + [TagText(e.kind, e.tag)]
  }

  function NameFields(st: Style, e: AclEntry): seq<string> {
    if Named(e.tag) then [NameShown(e)]
    else if !IsPosix(e.kind) || (st.solaris && (e.tag == Other || e.tag == Mask)) then []
    else [""]
  }

  function PermFields(st: Style, e: AclEntry): seq<string> {
    if IsPosix(e.kind) then [PosixPermText(e.permset)]
    else [MapText(e.permset, PERM_MAP, st.compact), MapText(e.permset, FLAG_MAP, st.compact), KindText(e.kind)]
  }

  function IdFields(st: Style, e: AclEntry): seq<string> {
    if HasTrailer(st, e) then [IdText(WrittenId(st, e))] else []
  }

  function LineFields(st: Style, e: AclEntry): seq<string> {
    TagFields(st, e) + NameFields(st, e) + PermFields(st, e) + IdFields(st, e)
  }

  lemma JoinPrepend(f: string, fs: seq<string>)
    ensures JoinFields([f] + fs) == if fs == [] then f else f + ":" + JoinFields(fs)
  {
    assert ([f] + fs)[1..] == fs;
  }

  lemma PermsJoin(st: Style, e: AclEntry)
    requires Plain(e)
    ensures JoinFields(PermFields(st, e) + IdFields(st, e)) ==
            PermsText(e.kind, st, e.permset) + TrailerText(e.kind, e.tag, e.name, WrittenId(st, e))
  {
    var ids, trailer := IdFields(st, e), TrailerText(e.kind, e.tag, e.name, WrittenId(st, e));
    assert ids != [] ==> JoinFields(ids) == ids[0];
    if IsPosix(e.kind) {
      JoinPrepend(PosixPermText(e.permset), ids);
    } else {
      MapsJoin(MapText(e.permset, PERM_MAP, st.compact), MapText(e.permset, FLAG_MAP, st.compact), KindText(e.kind), ids);
    }
  }

  lemma {:induction false} MapsJoin(a: string, b: string, c: string, ids: seq<string>)
    requires |ids| <= 1
    ensures JoinFields([a, b, c] + ids) == a + ":" + b + ":" + c + if ids == [] then "" else ":" + ids[0]
  {
    JoinPrepend(c, ids);
    JoinPrepend(b, [c] + ids);
    JoinPrepend(a, [b] + ([c] + ids));
    assert [a, b, c] + ids == [a] + ([b] + ([c] + ids));
    assert ids != [] ==> JoinFields(ids) == ids[0];
  }

  lemma NamesJoin(st: Style, e: AclEntry, fs: seq<string>)
    requires Plain(e) && fs != []
    ensures JoinFields(NameFields(st, e) + fs) == QualifierText(e.kind, e.tag, st, e.name, WrittenId(st, e)) + JoinFields(fs)
  {
    if NameFields(st, e) == [] {
      assert NameFields(st, e) + fs == fs;
    } else {
      JoinPrepend(NameFields(st, e)[0], fs);
    }
  }

  lemma JoinTwo(a: string, b: string, fs: seq<string>)
    requires fs != []
    ensures JoinFields([a] + [b] + fs) == a + ":" + b + ":" + JoinFields(fs)
  {
    JoinPrepend(b, fs);
    JoinPrepend(a, [b] + fs);
    assert [a] + [b] + fs == [a] + ([b] + fs);
    assert a + ":" + (b + ":" + JoinFields(fs)) == a + ":" + b + ":" + JoinFields(fs);
  }

  lemma TagsJoin(st: Style, e: AclEntry, fs: seq<string>)
    requires fs != []
    ensures JoinFields(TagFields(st, e) + fs) ==
            (if e.kind == Default && st.markDefault then "default:" else "") + TagText(e.kind, e.tag) + ":" + JoinFields(fs)
  {
    var tag := TagText(e.kind, e.tag);
    if e.kind == Default && st.markDefault {
      JoinTwo("default", tag, fs);
      assert "default" + ":" == "default:";
    } else {
      JoinPrepend(tag, fs);
      assert [] + [tag] == [tag] && "" + tag == tag;
    }
  }

  lemma Assoc(a: string, b: string, c: string, d: string)
    ensures a + b + c + d == a + (b + (c + d))
  {
  }

  function PlainLine(st: Style, e: AclEntry): string {
    EntryText(if e.kind == Default && st.markDefault then "default:" else "",
              e.kind, e.tag, st, e.name, e.permset, WrittenId(st, e))
  }

  lemma LineIsPlain(st: Style, e: AclEntry)
    requires Plain(e)
    ensures Line(st, e) == PlainLine(st, e)
  {
  }

  lemma LineIsFields(st: Style, e: AclEntry)
    requires Plain(e)
    ensures Line(st, e) == JoinFields(LineFields(st, e))
  {
    var perms := PermFields(st, e) + IdFields(st, e);
    var names := NameFields(st, e) + perms;
    PermsJoin(st, e);
    NamesJoin(st, e, perms);
    TagsJoin(st, e, names);
    Assoc((if e.kind == Default && st.markDefault then "default:" else "") + TagText(e.kind, e.tag) + ":",
          QualifierText(e.kind, e.tag, st, e.name, WrittenId(st, e)),
          PermsText(e.kind, st, e.permset), TrailerText(e.kind, e.tag, e.name, WrittenId(st, e)));
    LineIsPlain(st, e);
    assert LineFields(st, e) == TagFields(st, e) + names;
  }

  lemma MapFieldIsClean(ps: Perms, m: PermMap, compact: bool, bits: char -> Option<Perms>)
    requires Reads(bits, m)
    ensures Clean(MapText(ps, m, compact))
  {
    MapTextIsClean(ps, m, compact, bits);
  }

  lemma ThreeFieldable(a: string, b: string, c: string)
    requires Clean(a) && Clean(b) && Clean(c) && c != ""
    ensures Fieldable([a, b, c])
  {
  }

  lemma MapFieldsAreClean(ps: Perms, compact: bool)
    ensures Clean(MapText(ps, PERM_MAP, compact)) && Clean(MapText(ps, FLAG_MAP, compact))
  {
    PermsAreRead();
    FlagsAreRead();
    MapFieldIsClean(ps, PERM_MAP, compact, PermBits);
    MapFieldIsClean(ps, FLAG_MAP, compact, FlagBits);
  }

  lemma KindTextIsClean(kind: Kind)
    ensures Clean(KindText(kind))
  {
  }

  lemma PermFieldsAreClean(st: Style, e: AclEntry)
    requires Plain(e)
    ensures Fieldable(PermFields(st, e))
  {
    if IsPosix(e.kind) {
      ModeRoundTrip(e.permset);
    } else {
      MapFieldsAreClean(e.permset, st.compact);
      KindTextIsClean(e.kind);
      ThreeFieldable(MapText(e.permset, PERM_MAP, st.compact), MapText(e.permset, FLAG_MAP, st.compact), KindText(e.kind));
    }
  }

  lemma TagTextIsClean(kind: Kind, tag: Tag)
    ensures Clean(TagText(kind, tag))
  {
  }

  lemma TagFieldsAreClean(st: Style, e: AclEntry)
    ensures forall f <- TagFields(st, e) :: Clean(f)
  {
    TagTextIsClean(e.kind, e.tag);
    assert Clean("default");
  }

  lemma OtherFieldsAreClean(st: Style, e: AclEntry)
    requires Plain(e)
    ensures forall f <- TagFields(st, e) + NameFields(st, e) :: Clean(f)
    ensures IdFields(st, e) != [] ==> Fieldable(IdFields(st, e))
  {
    TagFieldsAreClean(st, e);
    IdRoundTrip(WrittenId(st, e));
    IdRoundTrip(e.id);
  }

  lemma FieldsAreClean(st: Style, e: AclEntry)
    requires Plain(e)
    ensures Fieldable(LineFields(st, e))
  {
    PermFieldsAreClean(st, e);
    OtherFieldsAreClean(st, e);
    var front, perms, ids := TagFields(st, e) + NameFields(st, e), PermFields(st, e), IdFields(st, e);
    AppendFieldable(front, perms);
    AppendFieldable(front + perms, ids);
  }

  lemma AppendFieldable(a: seq<string>, b: seq<string>)
    requires forall f <- a :: Clean(f)
    requires forall f <- b :: Clean(f)
    requires if b == [] then Fieldable(a) else Fieldable(b)
    ensures Fieldable(a + b)
  {
    assert b == [] ==> a + b == a;
  }

  // ----- reading a line -----

  /** The id that comes back: a name that is a number is taken for one. */
  function IdRead(st: Style, e: AclEntry): int32 {
    if !Named(e.tag) then -1
    else if IsPosix(e.kind) then
      if IntOf(NameShown(e)).Some? then IntOf(NameShown(e)).value
      else if HasTrailer(st, e) then IdShown(WrittenId(st, e))
      else -1
    else if HasTrailer(st, e) then IdShown(WrittenId(st, e))
    else if IntOf(NameShown(e)).Some? then IntOf(NameShown(e)).value
    else -1
  }

  /** The entry that comes back from a line. */
  function ReadBack(st: Style, e: AclEntry): AclEntry {
    e.(id := IdRead(st, e), name := if Named(e.tag) then NameShown(e) else "")
  }

  lemma PosixIdIsRead(st: Style, e: AclEntry, n: nat)
    requires Plain(e) && IsPosix(e.kind) && n == |TagFields(st, e)| - 1
    ensures PosixId(LineFields(st, e), n) == IdRead(st, e)
  {
    var fs := LineFields(st, e);
    if Named(e.tag) {
      assert fs[n + 1] == NameShown(e);
      if HasTrailer(st, e) {
        assert fs[n + 3] == IdText(WrittenId(st, e));
        IdRoundTrip(WrittenId(st, e));
      }
    } else if NameFields(st, e) == [] {
      assert fs[n + 1] == PosixPermText(e.permset);
      assert IntOf(fs[n + 1]) == None;
    } else {
      assert fs[n + 1] == "";
    }
  }

  lemma PosixTagIsRead(st: Style, e: AclEntry, want: Kind)
    requires Plain(e) && IsPosix(e.kind)
    requires e.kind == if e.kind == Default && st.markDefault then Default else want
    ensures var tag := if e.tag == User then UserObj else if e.tag == Group then GroupObj else e.tag;
            ParsePosix(LineFields(st, e), want) == PosixEntry(LineFields(st, e), |TagFields(st, e)| - 1, tag, e.kind)
  {
    var fs := LineFields(st, e);
    var n := |TagFields(st, e)| - 1;
    assert FieldAt(fs, 0) == TagFields(st, e)[0] && FieldAt(fs, n) == TagText(e.kind, e.tag);
    if n == 1 {
      assert MarksDefault("default");
    } else {
      assert !MarksDefault(TagText(e.kind, e.tag));
    }
  }

  lemma PosixPermsAreRead(e: AclEntry, fs: seq<string>, i: nat)
    requires Plain(e) && IsPosix(e.kind) && FieldAt(fs, i) == PosixPermText(e.permset)
    ensures PermsAt(fs, i, {}) == Some(e.permset)
    ensures ModeLetters(FieldAt(fs, i)) == (e.permset, true) && PermsAt(fs, i, e.permset) == Some(e.permset)
  {
    ModeRoundTrip(e.permset);
  }

  lemma PosixLineIsRead(st: Style, e: AclEntry, want: Kind)
    requires Plain(e) && IsPosix(e.kind)
    requires e.kind == if e.kind == Default && st.markDefault then Default else want
    ensures ParsePosix(LineFields(st, e), want) == Some(ReadBack(st, e))
  {
    var fs := LineFields(st, e);
    var n := |TagFields(st, e)| - 1;
    PosixTagIsRead(st, e, want);
    PosixIdIsRead(st, e, n);
    if NameFields(st, e) == [] {
      assert fs[n + 1] == PosixPermText(e.permset) && |fs| == n + 2;
      PosixPermsAreRead(e, fs, n + 1);
    } else {
      assert fs[n + 1] == NameFields(st, e)[0] && fs[n + 2] == PosixPermText(e.permset);
      PosixPermsAreRead(e, fs, n + 2);
    }
  }

  lemma Nfs4PermsAreRead(ps: Perms, compact: bool)
    requires Nfs4Perms(ps)
    ensures Letters(MapText(ps, PERM_MAP, compact), PermBits, {}) == ({} + Known(ps, PERM_MAP), true)
    ensures Letters(MapText(ps, FLAG_MAP, compact), FlagBits, {} + Known(ps, PERM_MAP)) == (ps, true)
  {
    PermsAreRead();
    FlagsAreRead();
    MapRoundTrip(ps, PERM_MAP, compact, PermBits, {});
    MapRoundTrip(ps, FLAG_MAP, compact, FlagBits, {} + Known(ps, PERM_MAP));
    MapsKnowAll(ps);
  }

  lemma Nfs4Fields(st: Style, e: AclEntry)
    requires Plain(e) && !IsPosix(e.kind)
    ensures var fs := LineFields(st, e); var n := |NameFields(st, e)|;
            && FieldAt(fs, 0) == TagText(e.kind, e.tag) && n == (if Named(e.tag) then 1 else 0)
            && (n == 1 ==> FieldAt(fs, 1) == NameShown(e))
            && FieldAt(fs, 1 + n) == MapText(e.permset, PERM_MAP, st.compact)
            && FieldAt(fs, 2 + n) == MapText(e.permset, FLAG_MAP, st.compact)
            && FieldAt(fs, 3 + n) == KindText(e.kind)
            && FieldAt(fs, 4 + n) == (if IdFields(st, e) == [] then "" else IdText(WrittenId(st, e)))
  {
  }

  lemma Nfs4IdIsRead(st: Style, e: AclEntry)
    requires !IsPosix(e.kind)
    ensures Nfs4Id(if Named(e.tag) then NameShown(e) else "",
                   if IdFields(st, e) == [] then "" else IdText(WrittenId(st, e))) == IdRead(st, e)
  {
    IdRoundTrip(WrittenId(st, e));
  }

  lemma Nfs4LineIsRead(st: Style, e: AclEntry)
    requires Plain(e) && !IsPosix(e.kind)
    ensures ParseNfs4(LineFields(st, e)) == Some(ReadBack(st, e))
  {
    Nfs4Fields(st, e);
    Nfs4PermsAreRead(e.permset, st.compact);
    Nfs4IdIsRead(st, e);
    FieldsSay(LineFields(st, e), ReadBack(st, e), |NameFields(st, e)|, {} + Known(e.permset, PERM_MAP));
  }

  lemma FieldsSay(fs: seq<string>, e: AclEntry, n: nat, perms: Perms)
    requires Nfs4Tag(FieldAt(fs, 0)) == Some(e.tag) && n == (if Named(e.tag) then 1 else 0)
    requires e.name == (if n == 1 then FieldAt(fs, 1) else "")
    requires Letters(FieldAt(fs, 1 + n), PermBits, {}) == (perms, true)
    requires Letters(FieldAt(fs, 2 + n), FlagBits, perms) == (e.permset, true)
    requires Nfs4Kind(FieldAt(fs, 3 + n)) == Some(e.kind) && Nfs4Id(e.name, FieldAt(fs, 4 + n)) == e.id
    ensures ParseNfs4(fs) == Some(e)
  {
  }

  // ----- reading the lines -----

  function Map<A, B>(f: A -> B, xs: seq<A>): seq<B> {
    seq(|xs|, i requires 0 <= i < |xs| => f(xs[i]))
  }

  lemma {:induction false} MapConcat<A, B>(f: A -> B, a: seq<A>, b: seq<A>)
    ensures Map(f, a + b) == Map(f, a) + Map(f, b)
  {
  }

  lemma {:induction false} MapLast<A, B>(f: A -> B, xs: seq<A>)
    requires xs != []
    ensures Map(f, xs) == Map(f, xs[..|xs| - 1]) + [f(xs[|xs| - 1])]
  {
  }

  function Reader(st: Style): AclEntry -> AclEntry {
    (e: AclEntry) => ReadBack(st, e)
  }

  function Liner(st: Style): AclEntry -> string {
    (e: AclEntry) => Line(st, e)
  }

  function AllReadBack(st: Style, es: seq<AclEntry>): seq<AclEntry> {
    Map(Reader(st), es)
  }

  function MapLines(st: Style, es: seq<AclEntry>): seq<string> {
    Map(Liner(st), es)
  }

  predicate Readable(st: Style, e: AclEntry, want: TextKind) {
    Plain(e) && ParseEntry(LineFields(st, e), want) == Some(ReadBack(st, e))
  }

  function AddAll(s: AclState, es: seq<AclEntry>, ret: Status): (AclState, Status)
    decreases |es|
  {
    if es == [] || ret == Failed then (s, ret)
    else
      var (s', ret') := Apply(s, Some(es[0]), ret);
      AddAll(s', es[1..], ret')
  }

  /** The first entry of a text is its first line. */
  lemma FirstLine(ls: seq<string>, fs: seq<string>, sep: char)
    requires ls != [] && Fieldable(fs) && ls[0] == JoinFields(fs) && EndsEntry(sep)
    ensures Join(ls, sep) != "" && Split(Join(ls, sep)) == Fields(fs, false, Join(ls[1..], sep))
  {
    JoinFirst(ls, sep);
    JoinIsNotEmpty(fs);
    var tail := if |ls| == 1 then "" else [sep] + Join(ls[1..], sep);
    SplitOfJoin(fs, tail);
    assert tail != "" ==> tail[1..] == Join(ls[1..], sep);
  }

  lemma JoinIsNotEmpty(fs: seq<string>)
    requires Fieldable(fs)
    ensures JoinFields(fs) != ""
  {
  }

  /** A line of these fields, which say this entry. */
  predicate Says(l: string, fs: seq<string>, e: AclEntry, want: TextKind) {
    Fieldable(fs) && l == JoinFields(fs) && ParseEntry(fs, want) == Some(e)
  }

  /** Reading a text of lines adds what each line says. */
  lemma {:induction false} LinesAreRead(s: AclState, ls: seq<string>, fss: seq<seq<string>>, es: seq<AclEntry>,
                                        sep: char, want: TextKind, ret: Status)
    requires EndsEntry(sep) && |ls| == |fss| == |es|
    requires forall i :: 0 <= i < |ls| ==> Says(ls[i], fss[i], es[i], want)
    ensures ParseAll(s, Join(ls, sep), want, ret) == AddAll(s, es, ret)
    decreases |es|
  {
    if es != [] {
      assert Says(ls[0], fss[0], es[0], want);
      FirstLine(ls, fss[0], sep);
      var (s', ret') := Apply(s, Some(es[0]), ret);
      LinesAreRead(s', ls[1..], fss[1..], es[1..], sep, want, ret');
    }
  }

  lemma ReadableSays(st: Style, e: AclEntry, want: TextKind)
    requires Readable(st, e, want)
    ensures Says(Line(st, e), LineFields(st, e), ReadBack(st, e), want)
  {
    LineIsFields(st, e);
    FieldsAreClean(st, e);
  }

  lemma EntriesAreRead(s: AclState, st: Style, es: seq<AclEntry>, sep: char, want: TextKind)
    requires EndsEntry(sep) && forall e <- es :: Readable(st, e, want)
    ensures ParseAll(s, Join(MapLines(st, es), sep), want, Ok) == AddAll(s, AllReadBack(st, es), Ok)
  {
    var fss := seq(|es|, i requires 0 <= i < |es| => LineFields(st, es[i]));
    forall i | 0 <= i < |es|
      ensures Says(MapLines(st, es)[i], fss[i], AllReadBack(st, es)[i], want)
    {
      assert Readable(st, es[i], want);
      ReadableSays(st, es[i], want);
    }
    LinesAreRead(s, MapLines(st, es), fss, AllReadBack(st, es), sep, want, Ok);
  }

  // ----- adding them up -----

  lemma {:induction false} AddAllOfList(s: AclState, i: nat)
    requires Inv(s) && i <= |s.entries|
    ensures AddAll(Prefix(s.mode, s.entries[..i]), s.entries[i..], Ok) == (Prefix(s.mode, s.entries), Ok)
    decreases |s.entries| - i
  {
    if i < |s.entries| {
      Reappend(s, i);
      AddAllOfList(s, i + 1);
      assert s.entries[i..][1..] == s.entries[i + 1..];
    } else {
      assert s.entries[..i] == s.entries;
    }
  }

  lemma {:induction false} FirstMoved<T>(a: seq<T>, b: seq<T>)
    requires b != []
    ensures a + b == a + [b[0]] + b[1..]
  {
  }

  /** As many entries as were added can only be those entries. */
  lemma {:induction false} AddAllLength(s: AclState, es: seq<AclEntry>, ret: Status)
    requires forall e <- es :: !IsSpecial(e.kind, e.permset, e.tag)
    ensures var all := AddAll(s, es, ret).0.entries;
            |all| <= |s.entries| + |es| && (|all| == |s.entries| + |es| ==> all == s.entries + es)
    decreases |es|
  {
    if es == [] {
      assert s.entries + es == s.entries;
    } else if ret != Failed {
      var (s', ret') := Apply(s, Some(es[0]), ret);
      AddAllLength(s', es[1..], ret');
      FirstMoved(s.entries, es);
    }
  }

  function ModeEntries(mode: Mode): seq<AclEntry> {
    [AclEntry(Access, UserObj, mode.user, -1, ""), AclEntry(Access, GroupObj, mode.group, -1, ""),
     AclEntry(Access, Other, mode.other, -1, "")]
  }

  predicate PosixMode(mode: Mode) {
    PosixPerms(mode.user) && PosixPerms(mode.group) && PosixPerms(mode.other)
  }

  /** The three standard entries set the nine bits of the mode. */
  lemma AddAllOfMode(mode0: Mode, mode: Mode, es: seq<AclEntry>)
    requires PosixMode(mode)
    ensures AddAll(AclState(mode0, [], {}), ModeEntries(mode) + es, Ok) ==
            AddAll(AclState(mode.(rest := mode0.rest), [], {}), es, Ok)
  {
    var all := ModeEntries(mode) + es;
    var s := AclState(mode0, [], {});
    var s1 := s.(mode := s.mode.(user := mode.user));
    var s2 := s1.(mode := s1.mode.(group := mode.group));
    assert AddAll(s, all, Ok) == AddAll(s1, all[1..], Ok);
    assert AddAll(s1, all[1..], Ok) == AddAll(s2, all[1..][1..], Ok);
    assert all[1..][1..][1..] == es;
  }

  lemma {:induction false} EntryLinesAreMapped(w: Want, st: Style, entries: seq<AclEntry>)
    requires forall e <- entries :: Printed(w, e)
    ensures EntryLines(w, st, entries) == MapLines(st, entries)
    decreases |entries|
  {
    if entries != [] {
      EntryLinesAreMapped(w, st, entries[..|entries| - 1]);
      MapLast(Liner(st), entries);
    }
  }

  // ----- the entries that survive -----

  predicate IsNumber(name: string) {
    name != "" && forall c <- name :: IsDigit(c)
  }

  lemma {:induction false} NumbersAreRead(s: string, n: int32)
    requires n >= 0
    ensures IntFrom(s, n).Some? <==> forall c <- s :: IsDigit(c)
    decreases |s|
  {
    if s != "" && IsDigit(s[0]) {
      var d := s[0] as int - '0' as int;
      NumbersAreRead(s[1..], if n > 214748364 || (n == 214748364 && d > 7) then INT_MAX else 10 * n + d);
      assert s == [s[0]] + s[1..];
    }
  }

  /** When an entry outlives its text: a user or group needs a name that a field
      can carry, and any other tag has neither name nor id. A name that is a number is taken for
      the id, before the extra field in POSIX.1e and when there is none in
      NFSv4; otherwise the id needs the extra field unless there is none. */
  predicate Survives(style: Style, e: AclEntry) {
    if !Named(e.tag) then e.name == "" && e.id == -1
    else
      && e.name != "" && Clean(e.name)
      && if !IsPosix(e.kind) && style.extraId && e.id != -1 then e.id >= 0
         else if IsNumber(e.name) then IntOf(e.name) == Some(e.id)
         else e.id == -1 || (style.extraId && e.id >= 0)
  }

  lemma SurvivesWhenRead(st: Style, e: AclEntry)
    requires Plain(e)
    ensures Survives(st, e) <==> ReadBack(st, e) == e
  {
    NumbersAreRead(e.name, 0);
  }

  /** For one, user 12 of name "34" comes back with id 34 from POSIX.1e text. */
  lemma NumericNameIsTaken(st: Style, ps: Perms)
    ensures ReadBack(st, AclEntry(Access, User, ps, 12, "34")).id == 34
  {
    assert "34"[1..] == "4" && "4"[1..] == "";
    assert IntFrom("4", 3) == Some(34) && IntFrom("34", 0) == Some(34);
  }

  lemma AllSurvive(st: Style, es: seq<AclEntry>)
    requires forall e <- es :: Plain(e)
    ensures AllReadBack(st, es) == es <==> forall e <- es :: Survives(st, e)
  {
    forall i | 0 <= i < |es|
      ensures AllReadBack(st, es)[i] == es[i] <==> Survives(st, es[i])
    {
      SurvivesWhenRead(st, es[i]);
    }
  }

  /** `r` is what adding up the entries read back gives. */
  ghost predicate Rebuilt(r: (AclState, Status), s: AclState, st: Style) {
    forall ask {:trigger Inspect(ask)} :: Inspect(ask) ==>
      r == AddAll(AclState(s.mode, [], {}), AllReadBack(st, s.entries), Ok)
  }

  lemma BackIsNotSpecial(s: AclState, st: Style)
    requires Inv(s)
    ensures forall e <- AllReadBack(st, s.entries) :: !IsSpecial(e.kind, e.permset, e.tag)
  {
    var back := AllReadBack(st, s.entries);
    forall e <- back
      ensures !IsSpecial(e.kind, e.permset, e.tag)
    {
      var i :| 0 <= i < |back| && e == back[i];
      assert Listable(s.entries[i]);
    }
  }

  lemma RebuiltFromItself(s: AclState)
    requires Inv(s)
    ensures AddAll(AclState(s.mode, [], {}), s.entries, Ok) == (s, Ok)
  {
    AddAllOfList(s, 0);
    assert s.entries[..0] == [] && s.entries[0..] == s.entries;
    assert AclState(s.mode, [], {}) == Prefix(s.mode, []) && s == Prefix(s.mode, s.entries);
  }

  /** Adding up what is read gives the list exactly when every entry survives. */
  lemma ListIsRebuilt(r: (AclState, Status), s: AclState, st: Style)
    requires Inv(s) && (forall e <- s.entries :: Plain(e)) && Rebuilt(r, s, st)
    ensures r == (s, Ok) <==> forall e <- s.entries :: Survives(st, e)
  {
    assert Inspect(true);
    var back := AllReadBack(st, s.entries);
    AllSurvive(st, s.entries);
    if back == s.entries {
      RebuiltFromItself(s);
    } else {
      BackIsNotSpecial(s, st);
      AddAllLength(AclState(s.mode, [], {}), back, Ok);
      assert [] + back == back;
    }
  }

  // ----- names that are read -----

  lemma {:induction false} TrimmedIsClean(f: string)
    requires (forall c <- f :: !EndsField(c)) && (f != "" ==> !Blank(f[0]))
    ensures Clean(TrimRight(f))
  {
    if f != "" && Blank(f[|f| - 1]) {
      TrimmedIsClean(f[..|f| - 1]);
    }
  }

  lemma {:induction false} SplitIsClean(s: string)
    ensures forall f <- Split(s).texts :: Clean(f)
    decreases |s|
  {
    var t := SkipBlanks(s);
    TrimmedIsClean(t[..FieldEnd(t)]);
    var f := NextField(s);
    if f.sep == ':' {
      SplitIsClean(f.rest);
    }
  }

  predicate AllClean(es: seq<AclEntry>) {
    forall e <- es :: Clean(e.name)
  }

  lemma ParsedIsClean(fs: seq<string>, want: TextKind)
    requires forall f <- fs :: Clean(f)
    ensures var e := ParseEntry(fs, want); e.Some? ==> Clean(e.value.name)
  {
    assert forall i: nat :: Clean(FieldAt(fs, i));
  }

  lemma AddedIsClean(s: AclState, e: Option<AclEntry>, ret: Status)
    requires AllClean(s.entries) && (e.Some? ==> Clean(e.value.name))
    ensures AllClean(Apply(s, e, ret).0.entries)
  {
  }

  /** No text puts a name into a list that a field cannot carry. */
  lemma {:induction false} ReadNamesAreClean(s: AclState, text: string, want: TextKind, ret: Status)
    requires AllClean(s.entries)
    ensures AllClean(ParseAll(s, text, want, ret).0.entries)
    decreases |text|
  {
    if text != "" && ret != Failed {
      var f := Split(text);
      if f.comment {
        ReadNamesAreClean(s, f.rest, want, ret);
      } else {
        SplitIsClean(text);
        ParsedIsClean(f.texts, want);
        AddedIsClean(s, ParseEntry(f.texts, want), ret);
        var (s', ret') := Apply(s, ParseEntry(f.texts, want), ret);
        ReadNamesAreClean(s', f.rest, want, ret');
      }
    }
  }

  // ----- the entries that are printed -----

  /** The entries of the wanted types. */
  function Selected(w: Want, es: seq<AclEntry>): seq<AclEntry> {
    if es == [] then []
    else
      var n := |es| - 1;
      if Wanted(w, es[n].kind) then Selected(w, es[..n]) + [es[n]] else Selected(w, es[..n])
  }

  lemma {:induction false} InSelected(w: Want, es: seq<AclEntry>, e: AclEntry)
    ensures e in Selected(w, es) <==> e in es && Wanted(w, e.kind)
  {
    if es != [] {
      var n := |es| - 1;
      InSelected(w, es[..n], e);
      assert es == es[..n] + [es[n]];
    }
  }

  lemma {:induction false} SelectedAll(w: Want, es: seq<AclEntry>)
    requires forall e <- es :: Wanted(w, e.kind)
    ensures Selected(w, es) == es
  {
    if es != [] {
      SelectedAll(w, es[..|es| - 1]);
    }
  }

  lemma {:induction false} SelectedIsOrdered(w: Want, es: seq<AclEntry>)
    requires forall i, j :: 0 <= i < j < |es| ==> !Overwrites(es[j], es[i])
    ensures var sel := Selected(w, es); forall i, j :: 0 <= i < j < |sel| ==> !Overwrites(sel[j], sel[i])
  {
    if es != [] {
      var n := |es| - 1;
      var sel := Selected(w, es[..n]);
      SelectedIsOrdered(w, es[..n]);
      forall i | 0 <= i < |sel|
        ensures !Overwrites(es[n], sel[i])
      {
        InSelected(w, es[..n], sel[i]);
      }
    }
  }

  /** What is printed of a good list is a good list. */
  lemma SelectedKeepsInv(w: Want, mode: Mode, s: AclState)
    requires Inv(s)
    ensures Inv(Prefix(mode, Selected(w, s.entries)))
    ensures forall e <- Selected(w, s.entries) :: e in s.entries && Wanted(w, e.kind)
  {
    forall e <- Selected(w, s.entries)
      ensures e in s.entries && Wanted(w, e.kind)
    {
      InSelected(w, s.entries, e);
    }
    SelectedIsOrdered(w, s.entries);
  }

  lemma {:induction false} SelectedLines(w: Want, st: Style, es: seq<AclEntry>)
    ensures EntryLines(w, st, Selected(w, es)) == EntryLines(w, st, es)
    ensures EntriesLength(w, st, Selected(w, es)) == EntriesLength(w, st, es)
  {
    if es != [] {
      var n := |es| - 1;
      SelectedLines(w, st, es[..n]);
      if Wanted(w, es[n].kind) {
        assert (Selected(w, es[..n]) + [es[n]])[..|Selected(w, es[..n])|] == Selected(w, es[..n]);
      }
    }
  }

  /** Only the entries of the wanted types make the text. */
  lemma SelectedText(s: AclState, style: Style)
    requires Inv(s) && WantType(s.types, style).WantPosix?
    ensures var w := WantType(s.types, style); var s' := Prefix(s.mode, Selected(w, s.entries));
            WantType(s'.types, style) == w && ToText(s', style) == ToText(s, style)
  {
    var w := WantType(s.types, style);
    SelectedKeepsInv(w, s.mode, s);
    SelectedLines(w, EffectiveStyle(w, style), s.entries);
    forall k <- TypesOf(Selected(w, s.entries))
      ensures k in s.types
    {
      var e :| e in Selected(w, s.entries) && e.kind == k;
    }
  }

  // ----- the lines of a list -----

  /** The standard entries, if they are printed. */
  function Modes(w: Want, mode: Mode): seq<AclEntry> {
    if Wanted(w, Access) then ModeEntries(mode) else []
  }

  /** The mode that the text leaves. */
  function ModeRead(w: Want, mode0: Mode, mode: Mode): Mode {
    if Wanted(w, Access) then mode.(rest := mode0.rest) else mode0
  }

  /** The text is read as of the type that its unmarked entries have. */
  predicate TypeIsSaid(w: Want, st: Style, want: TextKind) {
    && (want == PosixText || want == AccessText || want == DefaultText)
    && (Wanted(w, Access) ==> want != DefaultText)
    && (Wanted(w, Default) && !st.markDefault ==> want == DefaultText)
  }

  predicate AllPrinted(w: Want, es: seq<AclEntry>) {
    forall e <- es :: Printed(w, e)
  }

  lemma ModeLinesAreMapped(w: Want, st: Style, mode: Mode)
    ensures ModeLines(w, st, mode) == MapLines(st, Modes(w, mode))
  {
  }

  lemma HasText(s: AclState, style: Style)
    requires WantType(s.types, style) != WantNothing && AllPrinted(WantType(s.types, style), s.entries)
    ensures ToText(s, style).Some? <==> Wanted(WantType(s.types, style), Access) || s.entries != []
  {
    var w := WantType(s.types, style);
    NothingCounted(w, EffectiveStyle(w, style), s.entries);
  }

  /** The text is a line for each standard entry and for each of the list. */
  lemma PosixTextIsLines(s: AclState, style: Style)
    requires AllPrinted(WantType(s.types, style), s.entries) && ToText(s, style).Some?
    ensures var w := WantType(s.types, style);
            ToText(s, style).value ==
            Join(MapLines(EffectiveStyle(w, style), Modes(w, s.mode) + s.entries), if style.comma then ',' else '\n')
  {
    var w := WantType(s.types, style);
    var st := EffectiveStyle(w, style);
    EntryLinesAreMapped(w, st, s.entries);
    ModeLinesAreMapped(w, st, s.mode);
    MapConcat(Liner(st), Modes(w, s.mode), s.entries);
  }

  lemma PosixEntryIsReadable(w: Want, st: Style, e: AclEntry, want: TextKind)
    requires Plain(e) && w.WantPosix? && Wanted(w, e.kind) && TypeIsSaid(w, st, want)
    ensures Readable(st, e, want)
  {
    PosixLineIsRead(st, e, if want == DefaultText then Default else Access);
  }

  lemma ModesAreReadable(w: Want, st: Style, mode: Mode, want: TextKind)
    requires PosixMode(mode) && w.WantPosix? && TypeIsSaid(w, st, want)
    ensures (forall e <- Modes(w, mode) :: Readable(st, e, want)) && AllReadBack(st, Modes(w, mode)) == Modes(w, mode)
  {
    forall e <- Modes(w, mode)
      ensures Readable(st, e, want) && ReadBack(st, e) == e
    {
      PosixEntryIsReadable(w, st, e, want);
    }
  }

  lemma AddAllOfModes(w: Want, mode0: Mode, mode: Mode, es: seq<AclEntry>)
    requires PosixMode(mode)
    ensures AddAll(AclState(mode0, [], {}), Modes(w, mode) + es, Ok) ==
            AddAll(AclState(ModeRead(w, mode0, mode), [], {}), es, Ok)
  {
    if Wanted(w, Access) {
      AddAllOfMode(mode0, mode, es);
    } else {
      assert Modes(w, mode) + es == es;
    }
  }

  /** Entries of the wanted types with names that a field can carry. */
  predicate AllPlain(w: Want, es: seq<AclEntry>) {
    forall e <- es :: Plain(e) && Wanted(w, e.kind)
  }

  /** Reading the text adds the entries that come back to the mode. */
  lemma PosixTextIsRead(s: AclState, style: Style, w: Want, mode0: Mode, want: TextKind)
    requires PosixMode(s.mode) && AllPlain(w, s.entries) && AllPrinted(w, s.entries) && ToText(s, style).Some?
    requires w == WantType(s.types, style) && w.WantPosix? && TypeIsSaid(w, EffectiveStyle(w, style), want)
    ensures Rebuilt(FromText(AclState(mode0, [], {}), ToText(s, style).value, want),
                    AclState(ModeRead(w, mode0, s.mode), s.entries, s.types), style)
  {
    var st := EffectiveStyle(w, style);
    var modes := Modes(w, s.mode);
    forall e <- s.entries
      ensures Readable(st, e, want)
    {
      PosixEntryIsReadable(w, st, e, want);
    }
    ModesAreReadable(w, st, s.mode, want);
    PosixTextIsLines(s, style);
    EntriesAreRead(AclState(mode0, [], {}), st, modes + s.entries, if style.comma then ',' else '\n', want);
    MapConcat(Reader(st), modes, s.entries);
    AddAllOfModes(w, mode0, s.mode, AllReadBack(st, s.entries));
    MarksAreNotRead(w, style, s.entries);
  }

  lemma MarksAreNotRead(w: Want, st: Style, es: seq<AclEntry>)
    ensures AllReadBack(EffectiveStyle(w, st), es) == AllReadBack(st, es)
  {
  }

  lemma GoodIsPlain(w: Want, s: AclState)
    requires Inv(s) && AllClean(s.entries) && forall e <- s.entries :: Wanted(w, e.kind)
    ensures AllPlain(w, s.entries)
  {
    forall e <- s.entries
      ensures Plain(e)
    {
      assert Listable(e);
    }
  }

  lemma GoodIsPrinted(w: Want, s: AclState)
    requires Inv(s) && forall e <- s.entries :: Wanted(w, e.kind)
    ensures AllPrinted(w, s.entries)
  {
    forall e <- s.entries
      ensures Printed(w, e)
    {
      assert Listable(e);
    }
  }

  /** A name that no field can carry does not come back. */
  lemma UncleanIsLost(s: AclState, r: AclState, st: Style, text: string, want: TextKind)
    requires s.entries == [] && !AllClean(r.entries)
    ensures FromText(s, text, want) != (r, Ok) && !forall e <- r.entries :: Survives(st, e)
  {
    ReadNamesAreClean(s, text, want, Ok);
  }

  // ----- the round trips -----

  /** Of a POSIX.1e list the entries of the types in the text are read back, and
      the nine bits of the mode if they are in it, exactly when they survive. */
  lemma SelectedRoundTrip(s: AclState, style: Style, w: Want, mode0: Mode, want: TextKind)
    requires Inv(s) && PosixMode(s.mode) && forall e <- s.entries :: e.kind in {Access, Default}
    requires w == WantPosix(style.access || !style.dflt, style.dflt || !style.access)
    requires TypeIsSaid(w, EffectiveStyle(w, style), want)
    ensures var es := Selected(w, s.entries);
            && (ToText(s, style).Some? <==> w.access || es != [])
            && (ToText(s, style).Some? ==>
                  (FromText(AclState(mode0, [], {}), ToText(s, style).value, want)
                     == (Prefix(ModeRead(w, mode0, s.mode), es), Ok)
                   <==> forall e <- es :: Survives(style, e)))
  {
    var s' := Prefix(s.mode, Selected(w, s.entries));
    assert forall k <- s.types :: IsPosix(k);
    SelectedText(s, style);
    SelectedKeepsInv(w, s.mode, s);
    GoodIsPrinted(w, s');
    HasText(s', style);
    if ToText(s, style).Some? {
      WantedRoundTrip(s', style, w, mode0, want);
    }
  }

  lemma WantedRoundTrip(s: AclState, style: Style, w: Want, mode0: Mode, want: TextKind)
    requires Inv(s) && PosixMode(s.mode) && AllPrinted(w, s.entries) && ToText(s, style).Some?
    requires w == WantType(s.types, style) && w.WantPosix? && TypeIsSaid(w, EffectiveStyle(w, style), want)
    ensures FromText(AclState(mode0, [], {}), ToText(s, style).value, want)
              == (AclState(ModeRead(w, mode0, s.mode), s.entries, s.types), Ok)
            <==> forall e <- s.entries :: Survives(style, e)
  {
    var text, r := ToText(s, style).value, AclState(ModeRead(w, mode0, s.mode), s.entries, s.types);
    if AllClean(s.entries) {
      GoodIsPlain(w, s);
      PosixTextIsRead(s, style, w, mode0, want);
      ListIsRebuilt(FromText(AclState(mode0, [], {}), text, want), r, style);
    } else {
      UncleanIsLost(AclState(mode0, [], {}), r, style, text, want);
    }
  }

  /** So a list printed with both types comes back whole exactly when every entry
      survives. */
  lemma PosixRoundTrip(s: AclState, style: Style, mode0: Mode, want: TextKind)
    requires Inv(s) && PosixMode(s.mode) && (forall e <- s.entries :: e.kind in {Access, Default})
    requires style.access == style.dflt && (want == PosixText || want == AccessText)
    ensures ToText(s, style).Some?
    ensures FromText(AclState(mode0, [], {}), ToText(s, style).value, want)
              == (s.(mode := s.mode.(rest := mode0.rest)), Ok)
            <==> forall e <- s.entries :: Survives(style, e)
  {
    var w := WantPosix(true, true);
    forall e <- s.entries
      ensures Wanted(w, e.kind)
    {
      assert e.kind in s.types;
    }
    SelectedAll(w, s.entries);
    SelectedRoundTrip(s, style, w, mode0, want);
  }

  /** So does an NFSv4 list, duplicates included; its mode is not in the text. */
  lemma Nfs4RoundTrip(s: AclState, style: Style)
    requires Inv(s) && s.entries != [] && forall e <- s.entries :: e.kind !in {Access, Default}
    ensures ToText(s, style).Some?
    ensures FromText(AclState(s.mode, [], {}), ToText(s, style).value, Nfs4Text) == (s, Ok)
            <==> forall e <- s.entries :: Survives(style, e)
  {
    assert s.entries[0].kind in s.types && forall k <- s.types :: !IsPosix(k);
    Nfs4HasText(s, style);
    if AllClean(s.entries) {
      Nfs4TextIsRead(s, style);
      GoodIsPlain(WantNfs4, s);
      ListIsRebuilt(FromText(AclState(s.mode, [], {}), ToText(s, style).value, Nfs4Text), s, style);
    } else {
      UncleanIsLost(AclState(s.mode, [], {}), s, style, ToText(s, style).value, Nfs4Text);
    }
  }

  lemma Nfs4HasText(s: AclState, style: Style)
    requires Inv(s) && WantType(s.types, style) == WantNfs4
    ensures (forall e <- s.entries :: Wanted(WantNfs4, e.kind)) && AllPrinted(WantNfs4, s.entries)
    ensures ToText(s, style).Some?
  {
    forall e <- s.entries
      ensures Wanted(WantNfs4, e.kind)
    {
      assert e.kind in s.types;
    }
    GoodIsPrinted(WantNfs4, s);
    HasText(s, style);
  }

  lemma Nfs4TextIsRead(s: AclState, style: Style)
    requires Inv(s) && AllClean(s.entries) && WantType(s.types, style) == WantNfs4
    ensures ToText(s, style).Some?
    ensures Rebuilt(FromText(AclState(s.mode, [], {}), ToText(s, style).value, Nfs4Text), s, style)
  {
    Nfs4HasText(s, style);
    GoodIsPlain(WantNfs4, s);
    forall e <- s.entries
      ensures Readable(style, e, Nfs4Text)
    {
      Nfs4LineIsRead(style, e);
    }
    EntryLinesAreMapped(WantNfs4, style, s.entries);
    assert Lines(WantNfs4, style, s) == MapLines(style, s.entries);
    EntriesAreRead(AclState(s.mode, [], {}), style, s.entries, if style.comma then ',' else '\n', Nfs4Text);
  }
}
