/** The text form of an access control list: what the printer writes, and how
    long the printer's caller says that is. */
module AclText {
  import opened Wrappers
  import opened Text
  import opened Acl

  /** The style flags and the POSIX.1e selection of a caller. */
  datatype Style = Style(
    access: bool, dflt: bool,
    extraId: bool, markDefault: bool, solaris: bool, comma: bool, compact: bool)

  /** Which entries the text is about. */
  datatype Want = WantNothing | WantNfs4 | WantPosix(access: bool, dflt: bool)

  function WantType(types: set<Kind>, st: Style): Want {
    if exists k <- types :: !IsPosix(k) then
      if exists k <- types :: IsPosix(k) then WantNothing else WantNfs4
    else if !st.access && !st.dflt then WantPosix(true, true)
    else WantPosix(st.access, st.dflt)
  }

  predicate Wanted(w: Want, k: Kind) {
    match w
    case WantNothing => false
    case WantNfs4 => !IsPosix(k)
    case WantPosix(a, d) => (a && k == Access) || (d && k == Default)
  }

  /** An entry the printer writes; the three standard ones come from the mode. */
  predicate Printed(w: Want, e: AclEntry) {
    Wanted(w, e.kind) && !(e.kind == Access && (e.tag == UserObj || e.tag == GroupObj || e.tag == Other))
  }

  // ----- the text of one entry -----

  function Digit(n: nat): char
    requires n < 10
  {
    '0' + n as char
  }

  function Digits(n: nat): (s: string)
    ensures |s| >= 1
  {
    if n > 9 then Digits(n / 10) + [Digit(n % 10)] else [Digit(n)]
  }

  /** A negative id is written as 0. */
  function IdText(id: int): (s: string)
    ensures |s| >= 1
  {
    if id < 0 then Digits(0) else Digits(id)
  }

  function TagText(kind: Kind, tag: Tag): string {
    match tag
    case UserObj => if IsPosix(kind) then "user" else "owner@"
    case User => "user"
    case GroupObj => if IsPosix(kind) then "group" else "group@"
    case Group => "group"
    case Mask => "mask"
    case Other => "other"
    case Everyone => "everyone@"
    case BadTag(_) => ""
  }

  predicate Named(tag: Tag) {
    tag == User || tag == Group
  }

  function PosixPermText(ps: Perms): (s: string)
    ensures |s| == 3
  {
    [if Read in ps then 'r' else '-', if Write in ps then 'w' else '-', if Execute in ps then 'x' else '-']
  }

  type PermMap = seq<(Perm, char)>

  const PERM_MAP: PermMap := [
    (ReadData, 'r'), (WriteData, 'w'), (Execute, 'x'), (AppendData, 'p'), (Delete, 'd'), (DeleteChild, 'D'),
    (ReadAttributes, 'a'), (WriteAttributes, 'A'), (ReadNamedAttrs, 'R'), (WriteNamedAttrs, 'W'),
    (ReadAcl, 'c'), (WriteAcl, 'C'), (WriteOwner, 'o'), (Synchronize, 's')]

  const FLAG_MAP: PermMap := [
    (FileInherit, 'f'), (DirectoryInherit, 'd'), (InheritOnly, 'i'), (NoPropagateInherit, 'n'),
    (SuccessfulAccess, 'S'), (FailedAccess, 'F'), (Inherited, 'I')]

  /** One letter for each bit of the map, or a dash for it unless compact. */
  function MapText(ps: Perms, m: PermMap, compact: bool): (s: string)
    ensures |s| <= |m|
  {
    if m == [] then ""
    else
      var n := |m| - 1;
      MapText(ps, m[..n], compact) + if m[n].0 in ps then [m[n].1] else if compact then "" else "-"
  }

  function Mark(isSet: bool, c: char): char {
    if isSet then c else '-'
  }

  /** The letters of a dashed text, each in its place. */
  lemma {:induction false} DashedText(ps: Perms)
    ensures var t := MapText(ps, PERM_MAP, false);
            |t| == 14 && t[0] == Mark(ReadData in ps, 'r') && t[1] == Mark(WriteData in ps, 'w')
            && t[2] == Mark(Execute in ps, 'x') && t[3] == Mark(AppendData in ps, 'p')
            && t[4] == Mark(Delete in ps, 'd') && t[5] == Mark(DeleteChild in ps, 'D')
            && t[6] == Mark(ReadAttributes in ps, 'a') && t[7] == Mark(WriteAttributes in ps, 'A')
            && t[8] == Mark(ReadNamedAttrs in ps, 'R') && t[9] == Mark(WriteNamedAttrs in ps, 'W')
            && t[10] == Mark(ReadAcl in ps, 'c') && t[11] == Mark(WriteAcl in ps, 'C')
            && t[12] == Mark(WriteOwner in ps, 'o') && t[13] == Mark(Synchronize in ps, 's')
    ensures var t := MapText(ps, FLAG_MAP, false);
            |t| == 7 && t[0] == Mark(FileInherit in ps, 'f') && t[1] == Mark(DirectoryInherit in ps, 'd')
            && t[2] == Mark(InheritOnly in ps, 'i') && t[3] == Mark(NoPropagateInherit in ps, 'n')
            && t[4] == Mark(SuccessfulAccess in ps, 'S') && t[5] == Mark(FailedAccess in ps, 'F')
            && t[6] == Mark(Inherited in ps, 'I')
  {
    DashedLetters(ps, PERM_MAP);
    DashedLetters(ps, FLAG_MAP);
  }

  lemma {:induction false} DashedLetters(ps: Perms, m: PermMap)
    ensures var t := MapText(ps, m, false);
            |t| == |m| && forall i :: 0 <= i < |m| ==> t[i] == Mark(m[i].0 in ps, m[i].1)
  {
    if m != [] {
      DashedLetters(ps, m[..|m| - 1]);
    }
  }

  function Undashed(s: string): (r: string) {
    if s == "" then ""
    else
      var n := |s| - 1;
      Undashed(s[..n]) + if s[n] == '-' then "" else [s[n]]
  }

  /** A compact text is the dashed one without its dashes. */
  lemma {:induction false} CompactText(ps: Perms, m: PermMap)
    requires forall i :: 0 <= i < |m| ==> m[i].1 != '-'
    ensures MapText(ps, m, true) == Undashed(MapText(ps, m, false))
  {
    if m != [] {
      var n := |m| - 1;
      CompactText(ps, m[..n]);
      var t := MapText(ps, m, false);
      assert t[..|t| - 1] == MapText(ps, m[..n], false);
    }
  }

  function KindText(kind: Kind): string {
    match kind
    case Allow => "allow"
    case Deny => "deny"
    case Audit => "audit"
    case Alarm => "alarm"
    case _ => ""
  }

  /** The qualifier after the tag, with the colon that ends it. */
  function QualifierText(kind: Kind, tag: Tag, st: Style, name: string, id: int): string {
    if !IsPosix(kind) && !Named(tag) then ""
    else
      (if !Named(tag) then "" else if name != "" then name else IdText(id))
      + if st.solaris && (tag == Other || tag == Mask) then "" else ":"
  }

  function PermsText(kind: Kind, st: Style, ps: Perms): string {
    if IsPosix(kind) then PosixPermText(ps)
    else MapsText(ps, PERM_MAP, FLAG_MAP, st.compact, KindText(kind))
  }

  function MapsText(ps: Perms, perms: PermMap, flags: PermMap, compact: bool, kind: string): string {
    MapText(ps, perms, compact) + ":" + MapText(ps, flags, compact) + ":" + kind
  }

  /** The id field at the end: of a named entry, unless the id stood in for the name. */
  function TrailerText(kind: Kind, tag: Tag, name: string, id: int): string {
    if !Named(tag) || id == -1 || (name == "" && IsPosix(kind)) then "" else ":" + IdText(id)
  }

  function EntryText(prefix: string, kind: Kind, tag: Tag, st: Style, name: string, ps: Perms, id: int): string {
    prefix + TagText(kind, tag) + ":" + QualifierText(kind, tag, st, name, id) + PermsText(kind, st, ps)
    + TrailerText(kind, tag, name, id)
  }

  /** The text of an entry of the list. */
  function Line(st: Style, e: AclEntry): string {
    EntryText(if e.kind == Default && st.markDefault then "default:" else "",
              e.kind, e.tag, st, e.name, e.permset, if e.name == "" || st.extraId then e.id else -1)
  }

  function ModeLine(st: Style, tag: Tag, ps: Perms): string {
    EntryText("", Access, tag, st, "", ps, -1)
  }

  // ----- the whole text -----

  function EntryLines(w: Want, st: Style, entries: seq<AclEntry>): seq<string> {
    if entries == [] then []
    else
      var n := |entries| - 1;
      EntryLines(w, st, entries[..n]) + if Printed(w, entries[n]) then [Line(st, entries[n])] else []
  }

  function ModeLines(w: Want, st: Style, mode: Mode): seq<string> {
    if !Wanted(w, Access) then []
    else [ModeLine(st, UserObj, mode.user), ModeLine(st, GroupObj, mode.group), ModeLine(st, Other, mode.other)]
  }

  function Lines(w: Want, st: Style, s: AclState): seq<string> {
    ModeLines(w, st, s.mode) + EntryLines(w, st, s.entries)
  }

  /** With both kinds of POSIX.1e entries in the text, the default ones are marked. */
  function EffectiveStyle(w: Want, st: Style): Style {
    if w == WantPosix(true, true) then st.(markDefault := true) else st
  }

  // ----- the length the printer allocates -----

  function IdLength(id: int): (n: nat)
    ensures n >= 1
    decreases if id > 9 then id else 0
  {
    if id > 9 then IdLength(id / 10) + 1 else 1
  }

  function TagLength(w: Want, tag: Tag): nat {
    match tag
    case UserObj => if w == WantNfs4 then 6 else 4
    case User | Mask => 4
    case GroupObj => if w == WantNfs4 then 6 else 5
    case Group | Other => 5
    case Everyone => 9
    case BadTag(_) => 0
  }

  function EntryLength(w: Want, st: Style, e: AclEntry): int {
    (if w.WantPosix? && w.dflt && e.kind == Default then 8 else 0)
    + TagLength(w, e.tag) + 1
    + (if Named(e.tag) then (if e.name != "" then |e.name| else 13) + 1 else if w != WantNfs4 then 1 else 0)
    - (if st.solaris && w.WantPosix? && (e.tag == Other || e.tag == Mask) then 1 else 0)
    + (if w == WantNfs4 then (if e.kind == Deny then 27 else 28) else 3)
    + (if Named(e.tag) && st.extraId then 1 + IdLength(e.id) else 0)
    + 1
  }

  function EntriesLength(w: Want, st: Style, entries: seq<AclEntry>): int {
    if entries == [] then 0
    else
      var n := |entries| - 1;
      EntriesLength(w, st, entries[..n]) + if Printed(w, entries[n]) then EntryLength(w, st, entries[n]) else 0
  }

  function ModeLength(w: Want, st: Style): nat {
    if !Wanted(w, Access) then 0 else if st.solaris then 31 else 32
  }

  /** Zero means that there is nothing to write. */
  function TextLength(w: Want, st: Style, s: AclState): int {
    EntriesLength(w, st, s.entries) + ModeLength(w, st)
  }

  // ----- when the length suffices -----

  /** The id that is written for an entry, if any. */
  function WrittenId(st: Style, e: AclEntry): int32 {
    if e.name == "" || st.extraId then e.id else -1
  }

  /** How many bits of the map a set lacks. */
  function Unset(ps: Perms, m: PermMap): nat {
    if m == [] then 0 else Unset(ps, m[..|m| - 1]) + if m[|m| - 1].0 in ps then 0 else 1
  }

  /** How much more room is counted for a named entry than its name and id fields
      take: thirteen places for an id that stands in for a name, and the extra
      field whether or not it is written. */
  function NameSlack(st: Style, e: AclEntry): int {
    (if e.name == "" then 13 - IdLength(e.id) else 0)
    + (if st.extraId then 1 + IdLength(e.id) else 0)
    - (if WrittenId(st, e) == -1 || (e.name == "" && IsPosix(e.kind)) then 0 else 1 + IdLength(WrittenId(st, e)))
  }

  /** How much more room is counted for an entry than its line takes. */
  function Slack(st: Style, e: AclEntry): int {
    (if e.kind == Default && !st.markDefault then 8 else 0)
    + (if !IsPosix(e.kind) && st.compact then Unset(e.permset, PERM_MAP) + Unset(e.permset, FLAG_MAP) else 0)
    + (if Named(e.tag) then NameSlack(st, e) else 0)
  }

  function TotalSlack(w: Want, st: Style, entries: seq<AclEntry>): int {
    if entries == [] then 0
    else
      var n := |entries| - 1;
      TotalSlack(w, st, entries[..n]) + if Printed(w, entries[n]) then Slack(st, entries[n]) else 0
  }

  /** What is counted too little for some entries is made up for by others. */
  predicate HasRoom(s: AclState, style: Style) {
    var w := WantType(s.types, style);
    TotalSlack(w, EffectiveStyle(w, style), s.entries) >= 0
  }

  lemma {:induction false} IdTextLength(id: int)
    ensures |IdText(id)| == IdLength(id)
    decreases if id > 9 then id else 0
  {
    if id > 9 {
      IdTextLength(id / 10);
    }
  }

  /** An id takes at most ten digits, fewer than the room set aside for it. */
  lemma IdFits(id: int32)
    ensures IdLength(id) <= 10
  {
    DigitsOfPower(id, 9);
    assert Power10(10) == 10_000_000_000;
  }

  lemma {:induction false} MapLength(ps: Perms, m: PermMap, compact: bool)
    ensures |MapText(ps, m, compact)| == |m| - if compact then Unset(ps, m) else 0
  {
    if m != [] {
      MapLength(ps, m[..|m| - 1], compact);
    }
  }

  lemma MapsLength(ps: Perms, compact: bool, kind: string)
    ensures |MapsText(ps, PERM_MAP, FLAG_MAP, compact, kind)| ==
            23 + |kind| - if compact then Unset(ps, PERM_MAP) + Unset(ps, FLAG_MAP) else 0
  {
    MapLength(ps, PERM_MAP, compact);
    MapLength(ps, FLAG_MAP, compact);
  }

  lemma TrailerLength(kind: Kind, tag: Tag, name: string, id: int)
    ensures |TrailerText(kind, tag, name, id)| ==
            if !Named(tag) || id == -1 || (name == "" && IsPosix(kind)) then 0 else 1 + IdLength(id)
  {
    IdTextLength(id);
  }

  lemma QualifierLength(kind: Kind, tag: Tag, st: Style, name: string, id: int)
    ensures |QualifierText(kind, tag, st, name, id)| ==
            if Named(tag) then 1 + if name != "" then |name| else IdLength(id)
            else if !IsPosix(kind) || (st.solaris && (tag == Other || tag == Mask)) then 0
            else 1
  {
    IdTextLength(id);
  }

  lemma PermsLength(kind: Kind, st: Style, ps: Perms)
    ensures |PermsText(kind, st, ps)| ==
            if IsPosix(kind) then 3
            else 23 + |KindText(kind)| - if st.compact then Unset(ps, PERM_MAP) + Unset(ps, FLAG_MAP) else 0
  {
    MapsLength(ps, st.compact, KindText(kind));
  }

  lemma LineLength(st: Style, e: AclEntry)
    ensures |Line(st, e)| ==
            (if e.kind == Default && st.markDefault then 8 else 0) + |TagText(e.kind, e.tag)| + 1
            + |QualifierText(e.kind, e.tag, st, e.name, WrittenId(st, e))| + |PermsText(e.kind, st, e.permset)|
            + |TrailerText(e.kind, e.tag, e.name, WrittenId(st, e))|
  {
  }

  lemma TagIsCounted(w: Want, e: AclEntry)
    requires Printed(w, e) && Listable(e)
    ensures |TagText(e.kind, e.tag)| == TagLength(w, e.tag)
    ensures w == WantNfs4 <==> !IsPosix(e.kind)
    ensures w.WantPosix? && w.dflt && e.kind == Default <==> e.kind == Default
    ensures !IsPosix(e.kind) ==> |KindText(e.kind)| == if e.kind == Deny then 4 else 5
  {
  }

  /** The room counted for an entry, less its line and separator, is its slack. */
  lemma LineSlack(w: Want, st: Style, e: AclEntry)
    requires Printed(w, e) && Listable(e)
    ensures EntryLength(w, st, e) - (|Line(st, e)| + 1) == Slack(st, e)
  {
    LineLength(st, e);
    TagIsCounted(w, e);
    QualifierLength(e.kind, e.tag, st, e.name, WrittenId(st, e));
    PermsLength(e.kind, st, e.permset);
    TrailerLength(e.kind, e.tag, e.name, WrittenId(st, e));
  }

  function Power10(d: nat): nat {
    if d == 0 then 1 else 10 * Power10(d - 1)
  }

  /** A number has at most `d + 1` digits exactly when it is below the power of ten. */
  lemma {:induction false} DigitsOfPower(id: int, d: nat)
    ensures IdLength(id) <= d + 1 <==> id < Power10(d + 1)
    decreases d
  {
    if d > 0 && id > 9 {
      DigitsOfPower(id / 10, d - 1);
    }
    PowerIsPositive(d);
  }

  lemma {:induction false} PowerIsPositive(d: nat)
    ensures Power10(d) >= 1
  {
    if d > 0 {
      PowerIsPositive(d - 1);
    }
  }

  function Sum(ls: seq<string>): nat {
    if ls == [] then 0 else Sum(ls[..|ls| - 1]) + |ls[|ls| - 1]| + 1
  }

  lemma {:induction false} JoinLength(ls: seq<string>, sep: char)
    requires ls != []
    ensures |Join(ls, sep)| + 1 == Sum(ls)
  {
    if |ls| > 1 {
      JoinLength(ls[..|ls| - 1], sep);
    }
  }

  lemma {:induction false} SumAppend(a: seq<string>, b: seq<string>)
    ensures Sum(a + b) == Sum(a) + Sum(b)
  {
    if b == [] {
      assert a + b == a;
    } else {
      SumAppend(a, b[..|b| - 1]);
      assert (a + b)[..|a + b| - 1] == a + b[..|b| - 1];
    }
  }

  lemma {:induction false} EntriesSlack(w: Want, st: Style, entries: seq<AclEntry>)
    requires forall e <- entries :: Listable(e)
    ensures EntriesLength(w, st, entries) - Sum(EntryLines(w, st, entries)) == TotalSlack(w, st, entries)
  {
    if entries != [] {
      var n := |entries| - 1;
      EntriesSlack(w, st, entries[..n]);
      if Printed(w, entries[n]) {
        LineSlack(w, st, entries[n]);
        SumAppend(EntryLines(w, st, entries[..n]), [Line(st, entries[n])]);
        SumOfOne(Line(st, entries[n]));
      } else {
        assert EntryLines(w, st, entries) == EntryLines(w, st, entries[..n]);
      }
    }
  }

  /** There is something to write exactly when there is something to count. */
  lemma {:induction false} NothingCounted(w: Want, st: Style, entries: seq<AclEntry>)
    ensures EntriesLength(w, st, entries) >= 0
    ensures EntriesLength(w, st, entries) == 0 <==> EntryLines(w, st, entries) == []
  {
    if entries != [] {
      NothingCounted(w, st, entries[..|entries| - 1]);
    }
  }

  /** The text of a list, or nothing. */
  function ToText(s: AclState, style: Style): Option<string> {
    var w := WantType(s.types, style);
    var st := EffectiveStyle(w, style);
    if w == WantNothing || TextLength(w, st, s) == 0 then None
    else Some(Join(Lines(w, st, s), if style.comma then ',' else '\n'))
  }

  /** Without a list the text is the mode, in three lines or behind commas. */
  lemma {:induction false} TextOfMode(mode: Mode, style: Style)
    requires style.access || !style.dflt
    ensures var sep := [if style.comma then ',' else '\n'];
            ToText(AclState(mode, [], {}), style) == Some(
              ("user::" + PosixPermText(mode.user)) + sep + ("group::" + PosixPermText(mode.group)) + sep
              + ((if style.solaris then "other:" else "other::") + PosixPermText(mode.other)))
  {
    var s := AclState(mode, [], {});
    var w := WantType(s.types, style);
    var ls := ModeLines(w, EffectiveStyle(w, style), mode);
    ModeIsLines(EffectiveStyle(w, style), mode);
    assert Lines(w, EffectiveStyle(w, style), s) == ls;
    JoinOfThree(ls[0], ls[1], ls[2], if style.comma then ',' else '\n');
  }

  lemma ModeIsLines(st: Style, mode: Mode)
    ensures ModeLine(st, UserObj, mode.user) == "user::" + PosixPermText(mode.user)
    ensures ModeLine(st, GroupObj, mode.group) == "group::" + PosixPermText(mode.group)
    ensures ModeLine(st, Other, mode.other) == (if st.solaris then "other:" else "other::") + PosixPermText(mode.other)
  {
  }

  lemma {:induction false} JoinOfThree(a: string, b: string, c: string, sep: char)
    ensures Join([a, b, c], sep) == a + [sep] + b + [sep] + c
  {
    JoinAppend([], a, sep);
    JoinAppend([a], b, sep);
    JoinAppend([a, b], c, sep);
    assert [] + [a] == [a] && [a] + [b] == [a, b] && [a, b] + [c] == [a, b, c];
  }

  /** The computed length, less the text and its terminator, is the total slack. */
  lemma TextSlack(s: AclState, style: Style)
    requires Inv(s) && ToText(s, style).Some?
    ensures var w := WantType(s.types, style);
            var st := EffectiveStyle(w, style);
            TextLength(w, st, s) - (|ToText(s, style).value| + 1) == TotalSlack(w, st, s.entries)
  {
    var w := WantType(s.types, style);
    var st := EffectiveStyle(w, style);
    EntriesSlack(w, st, s.entries);
    NothingCounted(w, st, s.entries);
    ModeFits(w, st, s.mode);
    SumAppend(ModeLines(w, st, s.mode), EntryLines(w, st, s.entries));
    JoinLength(Lines(w, st, s), if style.comma then ',' else '\n');
  }

  /** For every list and style, the computed length covers the text and its
      terminator exactly when the list has room. */
  lemma TextFits(s: AclState, style: Style)
    requires Inv(s) && ToText(s, style).Some?
    ensures var w := WantType(s.types, style);
            |ToText(s, style).value| + 1 <= TextLength(w, EffectiveStyle(w, style), s) <==> HasRoom(s, style)
  {
    TextSlack(s, style);
  }

  /** There is room for POSIX.1e entries, with the extra id field, and for names. */
  predicate Roomy(style: Style, e: AclEntry) {
    IsPosix(e.kind) || style.extraId || !Named(e.tag) || e.name != ""
  }

  lemma {:induction false} RoomyLists(w: Want, st: Style, entries: seq<AclEntry>)
    requires forall e <- entries :: Roomy(st, e)
    ensures TotalSlack(w, st, entries) >= 0
  {
    if entries != [] {
      var n := |entries| - 1;
      RoomyLists(w, st, entries[..n]);
      assert Roomy(st, entries[n]);
      IdFits(entries[n].id);
    }
  }

  /** So the text of every POSIX.1e list fits, and that of every NFSv4 list with
      names or with the extra id field, in every style. */
  lemma RoomyTextFits(s: AclState, style: Style)
    requires Inv(s) && ToText(s, style).Some? && forall e <- s.entries :: Roomy(style, e)
    ensures var w := WantType(s.types, style);
            |ToText(s, style).value| + 1 <= TextLength(w, EffectiveStyle(w, style), s)
  {
    var w := WantType(s.types, style);
    RoomyLists(w, EffectiveStyle(w, style), s.entries);
    TextFits(s, style);
  }

  /** A user without a name, alone in a list. */
  function Unnamed(mode: Mode, id: int32): AclState {
    AclState(mode, [AclEntry(Allow, User, {}, id, "")], {Allow})
  }

  /** For user 1000000 the text is two characters too long unless the extra id is asked for or the
      dashes are left out, as its id is written twice. */
  lemma OverlongText(mode: Mode, style: Style)
    requires !style.extraId && !style.compact
    ensures var s := Unnamed(mode, 1_000_000); var w := WantType(s.types, style);
            && Inv(s) && ToText(s, style).Some? && !HasRoom(s, style)
            && |ToText(s, style).value| == TextLength(w, EffectiveStyle(w, style), s) + 1
  {
    var s := Unnamed(mode, 1_000_000);
    var e, w := s.entries[0], WantNfs4;
    assert TypesOf(s.entries) == {Allow};
    assert IsPosix(Allow) == false && Allow in s.types;
    assert WantType(s.types, style) == w;
    SevenDigits();
    assert Slack(style, e) == -2;
    assert s.entries[..0] == [];
    assert TotalSlack(w, style, s.entries) == -2;
    assert EntriesLength(w, style, s.entries) == EntryLength(w, style, e);
    TextSlack(s, style);
  }

  lemma SevenDigits()
    ensures IdLength(1_000_000) == 7
  {
    DigitsOfPower(1_000_000, 5);
    DigitsOfPower(1_000_000, 6);
    assert Power10(6) == 1_000_000 && Power10(7) == 10_000_000;
  }

  lemma ModeFits(w: Want, st: Style, mode: Mode)
    ensures Sum(ModeLines(w, st, mode)) == ModeLength(w, st)
  {
    if Wanted(w, Access) {
      SumOfThree(ModeLines(w, st, mode));
    }
  }

  lemma SumOfOne(l: string)
    ensures Sum([l]) == |l| + 1
  {
    assert [l][..0] == [];
  }

  lemma SumOfThree(ms: seq<string>)
    requires |ms| == 3
    ensures Sum(ms) == |ms[0]| + |ms[1]| + |ms[2]| + 3
  {
    assert ms == [ms[0]] + [ms[1]] + [ms[2]];
    SumAppend([ms[0]] + [ms[1]], [ms[2]]);
    SumAppend([ms[0]], [ms[1]]);
    SumOfOne(ms[0]);
    SumOfOne(ms[1]);
    SumOfOne(ms[2]);
  }
}
