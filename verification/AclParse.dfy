/** Reading an access control list from its text. A text is the characters
    before its terminator. */
module AclParse {
  import opened Wrappers
  import opened Acl

  // ----- fields -----

  predicate Blank(c: char) {
    c == ' ' || c == '\t' || c == '\n'
  }

  predicate EndsField(c: char) {
    c == ',' || c == ':' || c == '\n' || c == '#'
  }

  /** The character at a place, or the terminator. */
  function At(s: string, i: nat): char
    requires i <= |s|
  {
    if i < |s| then s[i] else '\0'
  }

  function SkipBlanks(s: string): (r: string)
    ensures |r| <= |s| && (r != "" ==> !Blank(r[0]))
  {
    if s != "" && Blank(s[0]) then SkipBlanks(s[1..]) else s
  }

  function FieldEnd(s: string): (n: nat)
    ensures n <= |s| && (forall i :: 0 <= i < n ==> !EndsField(s[i])) && (n < |s| ==> EndsField(s[n]))
  {
    if s == "" || EndsField(s[0]) then 0 else 1 + FieldEnd(s[1..])
  }

  function CommentEnd(s: string): (n: nat)
    ensures n <= |s| && (n < |s| ==> s[n] == ',' || s[n] == '\n')
  {
    if s == "" || s[0] == ',' || s[0] == '\n' then 0 else 1 + CommentEnd(s[1..])
  }

  function TrimRight(s: string): (r: string)
    ensures |r| <= |s|
  {
    if s != "" && Blank(s[|s| - 1]) then TrimRight(s[..|s| - 1]) else s
  }

  /** A comment may stand behind a field. */
  function SkipComment(s: string): (r: string)
    ensures |r| <= |s|
  {
    if At(s, 0) == '#' then s[CommentEnd(s)..] else s
  }

  /** A field that begins at once: its text, and what follows it and any comment. */
  function Body(t: string): (string, string) {
    (TrimRight(t[..FieldEnd(t)]), SkipComment(t[FieldEnd(t)..]))
  }

  /** One field: its text, whether a `#` stands where it begins, the
      character that ended it, and the text behind that. */
  datatype Field = Field(text: string, comment: bool, sep: char, rest: string)

  function NextField(s: string): (f: Field)
    ensures |f.rest| <= |s| && (s != "" ==> |f.rest| < |s|) && (f.sep == ':' ==> |f.rest| < |s|)
  {
    var t := SkipBlanks(s);
    var (text, u) := Body(t);
    Field(text, At(t, 0) == '#', At(u, 0), if u == "" then "" else u[1..])
  }

  /** The fields up to the end of an entry. */
  datatype Fields = Fields(texts: seq<string>, comment: bool, rest: string)

  function Split(s: string): (r: Fields)
    ensures |r.texts| >= 1 && |r.rest| <= |s| && (s != "" ==> |r.rest| < |s|)
    decreases |s|
  {
    var f := NextField(s);
    if f.sep == ':' then
      var g := Split(f.rest);
      Fields([f.text] + g.texts, f.comment, g.rest)
    else Fields([f.text], f.comment, f.rest)
  }

  function FieldAt(fs: seq<string>, i: nat): string {
    if i < |fs| then fs[i] else ""
  }

  // ----- numbers and letters -----

  const INT_MAX: int32 := 2147483647

  predicate IsDigit(c: char) {
    '0' <= c <= '9'
  }

  /** A decimal number, at most INT_MAX. */
  function IntFrom(s: string, n: int32): (r: Option<int32>)
    requires n >= 0
    ensures r.Some? ==> r.value >= 0
  {
    if s == "" then Some(n)
    else if !IsDigit(s[0]) then None
    else
      var d := s[0] as int - '0' as int;
      if n > 214748364 || (n == 214748364 && d > 7) then IntFrom(s[1..], INT_MAX) else IntFrom(s[1..], 10 * n + d)
  }

  function IntOf(s: string): (r: Option<int32>)
    ensures r.Some? ==> r.value >= 0
  {
    if s == "" then None else IntFrom(s, 0)
  }

  function ModeBits(c: char): Option<Perms> {
    match c
    case 'r' => Some({Read})
    case 'R' => Some({Read})
    case 'w' => Some({Write})
    case 'W' => Some({Write})
    case 'x' => Some({Execute})
    case 'X' => Some({Execute})
    case '-' => Some({})
    case _ => None
  }

  function PermBits(c: char): Option<Perms> {
    match c
    case 'r' => Some({ReadData})
    case 'w' => Some({WriteData})
    case 'x' => Some({Execute})
    case 'p' => Some({AppendData})
    case 'D' => Some({DeleteChild})
    case 'd' => Some({Delete})
    case 'a' => Some({ReadAttributes})
    case 'A' => Some({WriteAttributes})
    case 'R' => Some({ReadNamedAttrs})
    case 'W' => Some({WriteNamedAttrs})
    case 'c' => Some({ReadAcl})
    case 'C' => Some({WriteAcl})
    case 'o' => Some({WriteOwner})
    case 's' => Some({Synchronize})
    case '-' => Some({})
    case _ => None
  }

  function FlagBits(c: char): Option<Perms> {
    match c
    case 'f' => Some({FileInherit})
    case 'd' => Some({DirectoryInherit})
    case 'i' => Some({InheritOnly})
    case 'n' => Some({NoPropagateInherit})
    case 'S' => Some({SuccessfulAccess})
    case 'F' => Some({FailedAccess})
    case 'I' => Some({Inherited})
    case '-' => Some({})
    case _ => None
  }

  /** The bits of the letters, on top of those there are, up to the first
      letter that is none; whether there was no such letter. */
  function Letters(s: string, bits: char -> Option<Perms>, ps: Perms): (Perms, bool) {
    if s == "" then (ps, true)
    else
      match bits(s[0])
      case None => (ps, false)
      case Some(more) => Letters(s[1..], bits, ps + more)
  }

  function ModeLetters(s: string): (Perms, bool) {
    if s == "" then ({}, false) else Letters(s, ModeBits, {})
  }

  // ----- entries -----

  predicate MarksDefault(f: string) {
    f != "" && f[0] == 'd' && (|f| == 1 || (|f| >= 7 && f[..7] == "default"))
  }

  function PosixTag(t: string): Option<Tag> {
    if t == "u" || t == "user" then Some(UserObj)
    else if t == "g" || t == "group" then Some(GroupObj)
    else if t == "o" || t == "other" then Some(Other)
    else if t == "m" || t == "mask" then Some(Mask)
    else None
  }

  /** The id is in the field after the tag, or else two fields on. */
  function PosixId(fs: seq<string>, n: nat): int32 {
    match IntOf(FieldAt(fs, n + 1))
    case Some(id) => id
    case None =>
      if |fs| <= n + 3 then -1
      else
        match IntOf(FieldAt(fs, n + 3))
        case Some(id) => id
        case None => -1
  }

  /** The permissions of the field at `i`, unless there are some already. */
  function PermsAt(fs: seq<string>, i: nat, ps: Perms): Option<Perms> {
    if ps != {} then Some(ps)
    else if ModeLetters(FieldAt(fs, i)).1 then Some(ModeLetters(FieldAt(fs, i)).0)
    else None
  }

  /** The permissions, where they stand right behind the tag; what a failed
      attempt at them leaves is kept. */
  function SolarisPerms(fs: seq<string>, n: nat): (Perms, bool) {
    if |fs| == n + 2 then ModeLetters(fs[n + 1]) else ({}, false)
  }

  /** Other and mask may lack the empty field before the permissions, as in Solaris. */
  function OtherPerms(fs: seq<string>, n: nat): Option<Perms> {
    var (left, solaris) := SolarisPerms(fs, n);
    if solaris then PermsAt(fs, n + 1, left)
    else if |fs| == n + 3 && fs[n + 1] != "" then None
    else PermsAt(fs, n + 2, left)
  }

  function OtherEntry(fs: seq<string>, n: nat, tag: Tag, kind: Kind, id: int32): Option<AclEntry> {
    PlainEntry(OtherPerms(fs, n), tag, kind, id, "")
  }

  function PlainEntry(ps: Option<Perms>, tag: Tag, kind: Kind, id: int32, name: string): Option<AclEntry> {
    if ps.None? then None else Some(AclEntry(kind, tag, ps.value, id, name))
  }

  /** With a name or an id it is an entry for a named user or group. */
  function UserEntry(fs: seq<string>, n: nat, tag: Tag, kind: Kind, id: int32): Option<AclEntry> {
    var q := FieldAt(fs, n + 1);
    var named := id != -1 || q != "";
    PlainEntry(PermsAt(fs, n + 2, {}), if !named then tag else if tag == UserObj then User else Group, kind, id,
               if named then q else "")
  }

  /** An entry with `tag` at field `n`. */
  function PosixEntry(fs: seq<string>, n: nat, tag: Tag, kind: Kind): Option<AclEntry> {
    var id := PosixId(fs, n);
    if tag == Other || tag == Mask then OtherEntry(fs, n, tag, kind, id) else UserEntry(fs, n, tag, kind, id)
  }

  function ParsePosix(fs: seq<string>, want: Kind): Option<AclEntry> {
    var f := FieldAt(fs, 0);
    var kind := if MarksDefault(f) then Default else want;
    var n := if MarksDefault(f) && |f| <= 7 then 1 else 0;
    match PosixTag(if MarksDefault(f) && |f| > 7 then f[7..] else FieldAt(fs, n))
    case None => None
    case Some(tag) => PosixEntry(fs, n, tag, kind)
  }

  /** The first `i` characters are letters. */
  predicate LettersBefore(s: string, bits: char -> Option<Perms>, i: nat)
    requires i <= |s|
  {
    forall j :: 0 <= j < i ==> bits(s[j]).Some?
  }

  /** Bit `p` is set by the letter at `i`, and there is no other character before. */
  predicate SetAt(s: string, bits: char -> Option<Perms>, p: Perm, i: nat)
    requires i < |s|
  {
    LettersBefore(s, bits, i) && bits(s[i]).Some? && p in bits(s[i]).value
  }

  /** Gathered are the bits of the letters before the first other character. */
  lemma {:induction false} GatheredBits(s: string, bits: char -> Option<Perms>, ps: Perms, p: Perm)
    ensures Letters(s, bits, ps).1 <==> LettersBefore(s, bits, |s|)
    ensures p in Letters(s, bits, ps).0 <==> p in ps || exists i :: 0 <= i < |s| && SetAt(s, bits, p, i)
    decreases |s|
  {
    if s != "" {
      var rest := s[1..];
      if bits(s[0]).Some? {
        GatheredBits(rest, bits, ps + bits(s[0]).value, p);
        if i :| 0 <= i < |s| && SetAt(s, bits, p, i) {
          assert i == 0 || SetAt(rest, bits, p, i - 1);
        }
        if i :| 0 <= i < |rest| && SetAt(rest, bits, p, i) {
          assert SetAt(s, bits, p, i + 1);
        }
        assert p in bits(s[0]).value ==> SetAt(s, bits, p, 0);
      }
    }
  }

  /** The bits that are set are gathered. */
  ghost predicate Gathered(q: string, ps: Perms) {
    forall p :: p in ps <==> exists i :: 0 <= i < |q| && SetAt(q, ModeBits, p, i)
  }

  lemma ModeLettersGather(q: string)
    ensures Gathered(q, ModeLetters(q).0) && (ModeLetters(q).1 <==> q != "" && LettersBefore(q, ModeBits, |q|))
  {
    if q != "" {
      forall p: Perm
        ensures p in Letters(q, ModeBits, {}).0 <==> exists i :: 0 <= i < |q| && SetAt(q, ModeBits, p, i)
      {
        GatheredBits(q, ModeBits, {}, p);
      }
      GatheredBits(q, ModeBits, {}, Read);
    }
  }

  /** Permissions right behind other or mask are read when all characters are
      letters, and also when they are not, if a bit is set before the first that
      is none: those bits are kept. */
  lemma SolarisFieldIsRead(fs: seq<string>, n: nat)
    requires |fs| == n + 2
    ensures var q, r := fs[n + 1], OtherPerms(fs, n);
            && (r.Some? <==> (q != "" && LettersBefore(q, ModeBits, |q|))
                             || exists i, p :: 0 <= i < |q| && SetAt(q, ModeBits, p, i))
            && (r.Some? ==> Gathered(q, r.value))
  {
    var q := fs[n + 1];
    var (left, _) := ModeLetters(q);
    ModeLettersGather(q);
    if left != {} {
      var p :| p in left;
      var i :| 0 <= i < |q| && SetAt(q, ModeBits, p, i);
    }
    if i, p :| 0 <= i < |q| && SetAt(q, ModeBits, p, i) {
      assert p in left;
    }
  }

  /** For one, "other:rq" is an entry that may be read. */
  lemma BadLetterIsKept(kind: Kind)
    requires IsPosix(kind)
    ensures ParsePosix(["other", "rq"], kind) == Some(AclEntry(kind, Other, {Read}, -1, ""))
  {
    var fs := ["other", "rq"];
    assert "rq"[1..] == "q" && ModeBits('r') == Some({Read}) && ModeBits('q') == None;
    assert Letters("q", ModeBits, {Read}) == ({Read}, false) && {} + {Read} == {Read};
    assert ModeLetters("rq") == ({Read}, false);
    assert IntOf("rq") == None && PosixId(fs, 0) == -1;
    assert OtherPerms(fs, 0) == Some({Read});
  }

  /** Every tag has a short form, which says the same in any entry. */
  lemma ShortTags(t: string)
    ensures PosixTag(t) == Some(UserObj) <==> t in {"u", "user"}
    ensures PosixTag(t) == Some(GroupObj) <==> t in {"g", "group"}
    ensures PosixTag(t) == Some(Other) <==> t in {"o", "other"}
    ensures PosixTag(t) == Some(Mask) <==> t in {"m", "mask"}
    ensures PosixTag(t).Some? <==> t in {"u", "user", "g", "group", "o", "other", "m", "mask"}
  {
  }

  /** An entry that is marked: "d" or "default" is a field of its own, or stands
      right before the tag, as in "defaultuser". */
  lemma MarkedEntries(rest: seq<string>, t: string, want: Kind)
    requires PosixTag(t).Some?
    ensures ParsePosix([t] + rest, want) == PosixEntry([t] + rest, 0, PosixTag(t).value, want)
    ensures ParsePosix(["d", t] + rest, want) == PosixEntry(["d", t] + rest, 1, PosixTag(t).value, Default)
    ensures ParsePosix(["default", t] + rest, want) == PosixEntry(["default", t] + rest, 1, PosixTag(t).value, Default)
    ensures ParsePosix(["default" + t] + rest, want) == PosixEntry(["default" + t] + rest, 0, PosixTag(t).value, Default)
  {
    assert ("default" + t)[7..] == t && ("default" + t)[..7] == "default";
  }

  /** For one, "u:joe:rwx" is the entry of user joe. */
  lemma ShortUser(want: Kind)
    ensures ParsePosix(["u", "joe", "rwx"], want) == Some(AclEntry(want, User, {Read, Write, Execute}, -1, "joe"))
    ensures ParsePosix(["d", "u", "joe", "rwx"], want) == Some(AclEntry(Default, User, {Read, Write, Execute}, -1, "joe"))
  {
    assert "rwx"[1..] == "wx" && "wx"[1..] == "x" && "x"[1..] == "";
    assert ModeBits('r') == Some({Read}) && ModeBits('w') == Some({Write}) && ModeBits('x') == Some({Execute});
    assert {} + {Read} == {Read} && {Read} + {Write} == {Read, Write} && {Read, Write} + {Execute} == {Read, Write, Execute};
    assert Letters("x", ModeBits, {Read, Write}) == ({Read, Write, Execute}, true);
    assert Letters("wx", ModeBits, {Read}) == ({Read, Write, Execute}, true);
    assert ModeLetters("rwx") == ({Read, Write, Execute}, true);
    assert IntOf("joe") == None;
    MarkedEntries(["joe", "rwx"], "u", want);
    assert ["u"] + ["joe", "rwx"] == ["u", "joe", "rwx"] && ["d", "u"] + ["joe", "rwx"] == ["d", "u", "joe", "rwx"];
  }

  function Nfs4Tag(t: string): Option<Tag> {
    if t == "user" then Some(User)
    else if t == "group" then Some(Group)
    else if t == "owner@" then Some(UserObj)
    else if t == "group@" then Some(GroupObj)
    else if t == "everyone@" then Some(Everyone)
    else None
  }

  function Nfs4Kind(t: string): Option<Kind> {
    if t == "deny" then Some(Deny)
    else if t == "allow" then Some(Allow)
    else if t == "audit" then Some(Audit)
    else if t == "alarm" then Some(Alarm)
    else None
  }

  /** The id of the last field, if it is one; otherwise the numeric name. */
  function Nfs4Id(name: string, last: string): int32 {
    match IntOf(last)
    case Some(id) => id
    case None => if IntOf(name).Some? then IntOf(name).value else -1
  }

  function ParseNfs4(fs: seq<string>): Option<AclEntry> {
    match Nfs4Tag(FieldAt(fs, 0))
    case None => None
    case Some(tag) =>
      var n := if tag == User || tag == Group then 1 else 0;
      var name := if n == 1 then FieldAt(fs, 1) else "";
      var (perms, permsOk) := Letters(FieldAt(fs, 1 + n), PermBits, {});
      var (ps, flagsOk) := Letters(FieldAt(fs, 2 + n), FlagBits, perms);
      match Nfs4Kind(FieldAt(fs, 3 + n))
      case None => None
      case Some(kind) =>
        if permsOk && flagsOk then Some(AclEntry(kind, tag, ps, Nfs4Id(name, FieldAt(fs, 4 + n)), name)) else None
  }

  /** The letters of the permissions. */
  lemma PermLetters(c: char)
    ensures PermBits(c) == Some({ReadData}) <==> c == 'r'
    ensures PermBits(c) == Some({WriteData}) <==> c == 'w'
    ensures PermBits(c) == Some({Execute}) <==> c == 'x'
    ensures PermBits(c) == Some({AppendData}) <==> c == 'p'
    ensures PermBits(c) == Some({Delete}) <==> c == 'd'
    ensures PermBits(c) == Some({DeleteChild}) <==> c == 'D'
    ensures PermBits(c) == Some({ReadAttributes}) <==> c == 'a'
    ensures PermBits(c) == Some({WriteAttributes}) <==> c == 'A'
    ensures PermBits(c) == Some({ReadNamedAttrs}) <==> c == 'R'
    ensures PermBits(c) == Some({WriteNamedAttrs}) <==> c == 'W'
    ensures PermBits(c) == Some({ReadAcl}) <==> c == 'c'
    ensures PermBits(c) == Some({WriteAcl}) <==> c == 'C'
    ensures PermBits(c) == Some({WriteOwner}) <==> c == 'o'
    ensures PermBits(c) == Some({Synchronize}) <==> c == 's'
  {
  }

  /** The letters of the inheritance flags, and of POSIX.1e permissions. */
  lemma FlagLetters(c: char)
    ensures FlagBits(c) == Some({FileInherit}) <==> c == 'f'
    ensures FlagBits(c) == Some({DirectoryInherit}) <==> c == 'd'
    ensures FlagBits(c) == Some({InheritOnly}) <==> c == 'i'
    ensures FlagBits(c) == Some({NoPropagateInherit}) <==> c == 'n'
    ensures FlagBits(c) == Some({SuccessfulAccess}) <==> c == 'S'
    ensures FlagBits(c) == Some({FailedAccess}) <==> c == 'F'
    ensures FlagBits(c) == Some({Inherited}) <==> c == 'I'
    ensures ModeBits(c) == Some({Read}) <==> c == 'r' || c == 'R'
    ensures ModeBits(c) == Some({Write}) <==> c == 'w' || c == 'W'
    ensures ModeBits(c) == Some({Execute}) <==> c == 'x' || c == 'X'
  {
  }

  /** The words of NFSv4 entries. */
  lemma Nfs4Words(t: string)
    ensures Nfs4Tag(t) == Some(User) <==> t == "user"
    ensures Nfs4Tag(t) == Some(Group) <==> t == "group"
    ensures Nfs4Tag(t) == Some(UserObj) <==> t == "owner@"
    ensures Nfs4Tag(t) == Some(GroupObj) <==> t == "group@"
    ensures Nfs4Tag(t) == Some(Everyone) <==> t == "everyone@"
    ensures Nfs4Kind(t) == Some(Allow) <==> t == "allow"
    ensures Nfs4Kind(t) == Some(Deny) <==> t == "deny"
    ensures Nfs4Kind(t) == Some(Audit) <==> t == "audit"
    ensures Nfs4Kind(t) == Some(Alarm) <==> t == "alarm"
  {
  }

  // ----- the whole text -----

  /** What a caller says the text is. */
  datatype TextKind = PosixText | AccessText | DefaultText | Nfs4Text | OtherText

  function ParseEntry(fs: seq<string>, want: TextKind): Option<AclEntry> {
    if want == Nfs4Text then ParseNfs4(fs)
    else ParsePosix(fs, if want == DefaultText then Default else Access)
  }

  /** What the fields of one entry do. One that cannot be read is skipped
      with a warning; one that cannot be added ends the reading. */
  function Apply(s: AclState, e: Option<AclEntry>, ret: Status): (AclState, Status) {
    match e
    case None => (s, Warn)
    case Some(e) => var (s', r) := AddEntry(s, e); (s', if r == Failed then Failed else ret)
  }

  /** Comments are skipped without a warning. */
  function ParseAll(s: AclState, text: string, want: TextKind, ret: Status): (AclState, Status)
    decreases |text|
  {
    if text == "" || ret == Failed then (s, ret)
    else
      var f := Split(text);
      if f.comment then ParseAll(s, f.rest, want, ret)
      else
        var (s', ret') := Apply(s, ParseEntry(f.texts, want), ret);
        ParseAll(s', f.rest, want, ret')
  }

  /** Whatever the text, the list it is read into stays a good one. */
  lemma {:induction false} ReadingKeepsInv(s: AclState, text: string, want: TextKind, ret: Status)
    requires Inv(s)
    ensures Inv(ParseAll(s, text, want, ret).0)
    decreases |text|
  {
    if text != "" && ret != Failed {
      var f := Split(text);
      if f.comment {
        ReadingKeepsInv(s, f.rest, want, ret);
      } else {
        var e := ParseEntry(f.texts, want);
        var (s', ret') := Apply(s, e, ret);
        if e.Some? {
          AddKeepsInv(s, e.value);
        }
        ReadingKeepsInv(s', f.rest, want, ret');
      }
    }
  }

  function FromText(s: AclState, text: string, want: TextKind): (AclState, Status) {
    if want == OtherText then (s, Fatal) else ParseAll(s, text, want, Ok)
  }

  // ----- the parser -----

  method ScanBlanks(text: string, p: nat) returns (q: nat)
    requires p <= |text|
    ensures p <= q <= |text| && text[q..] == SkipBlanks(text[p..])
  {
    q := p;
    while q < |text| && Blank(text[q])
      invariant p <= q <= |text| && SkipBlanks(text[q..]) == SkipBlanks(text[p..])
    {
      assert text[q..][1..] == text[q + 1..];
      q := q + 1;
    }
  }

  method ScanToEnd(text: string, p: nat) returns (q: nat)
    requires p <= |text|
    ensures p <= q <= |text| && q == p + FieldEnd(text[p..])
  {
    q := p;
    while q < |text| && !EndsField(text[q])
      invariant p <= q <= |text| && q + FieldEnd(text[q..]) == p + FieldEnd(text[p..])
    {
      assert text[q..][1..] == text[q + 1..];
      q := q + 1;
    }
  }

  method ScanComment(text: string, p: nat) returns (q: nat)
    requires p <= |text|
    ensures p <= q <= |text| && text[q..] == SkipComment(text[p..])
  {
    q := p;
    if At(text, p) == '#' {
      while q < |text| && text[q] != ',' && text[q] != '\n'
        invariant p <= q <= |text| && q + CommentEnd(text[q..]) == p + CommentEnd(text[p..])
      {
        assert text[q..][1..] == text[q + 1..];
        q := q + 1;
      }
    }
  }

  method ScanBack(text: string, start: nat, q: nat) returns (end: nat)
    requires start <= q <= |text|
    ensures start <= end <= q && text[start..end] == TrimRight(text[start..q])
  {
    end := q;
    while end > start && Blank(text[end - 1])
      invariant start <= end <= q && TrimRight(text[start..end]) == TrimRight(text[start..q])
    {
      assert text[start..end][..end - start - 1] == text[start..end - 1];
      end := end - 1;
    }
  }

  method ScanBody(text: string, start: nat) returns (field: string, q: nat)
    requires start <= |text|
    ensures start <= q <= |text| && Body(text[start..]) == (field, text[q..])
  {
    var stop := ScanToEnd(text, start);
    assert text[start..][..stop - start] == text[start..stop] && text[start..][stop - start..] == text[stop..];
    var end := ScanBack(text, start, stop);
    field := text[start..end];
    q := ScanComment(text, stop);
  }

  method ScanField(text: string, p: nat) returns (field: string, comment: bool, sep: char, q: nat)
    requires p <= |text|
    ensures p <= q <= |text| && (p < |text| ==> p < q) && (sep == ':' ==> p < q)
    ensures NextField(text[p..]) == Field(field, comment, sep, text[q..])
  {
    var start := ScanBlanks(text, p);
    comment := At(text, start) == '#';
    field, q := ScanBody(text, start);
    sep := At(text, q);
    if q < |text| {
      assert text[q..][1..] == text[q + 1..];
      q := q + 1;
    }
  }

  /** The array holds the first fields of an entry. */
  predicate Kept(field: array<string>, fs: seq<string>)
    reads field
  {
    forall i :: 0 <= i < field.Length ==> field[i] == FieldAt(fs, i)
  }

  method BlankRest(field: array<string>, ghost fs: seq<string>, fields: nat)
    requires fields == |fs|
    requires forall i :: 0 <= i < field.Length && i < fields ==> field[i] == fs[i]
    modifies field
    ensures Kept(field, fs)
  {
    var n := fields;
    while n < field.Length
      invariant fields <= n
      invariant forall i :: 0 <= i < field.Length && i < n ==> field[i] == FieldAt(fs, i)
    {
      field[n] := "";
      n := n + 1;
    }
  }

  /** Of the fields `all`, those in `got` are read and the others are ahead. */
  ghost predicate Ahead(all: Fields, got: seq<string>, rest: string, more: bool) {
    forall ask {:trigger Inspect(ask)} :: Inspect(ask) ==>
      if more then all.texts == got + Split(rest).texts && all.rest == Split(rest).rest
      else all.texts == got && all.rest == rest
  }

  lemma AllAhead(s: string)
    ensures Ahead(Split(s), [], s, true)
  {
    assert [] + Split(s).texts == Split(s).texts;
  }

  lemma OneMore(all: Fields, got: seq<string>, s: string)
    requires Ahead(all, got, s, true)
    ensures var f := NextField(s); Ahead(all, got + [f.text], f.rest, f.sep == ':')
  {
    var f := NextField(s);
    assert Inspect(true);
    if f.sep == ':' {
      assert got + Split(s).texts == got + [f.text] + Split(f.rest).texts;
    }
  }

  /** Read the fields of an entry, keep those there is room for. */
  method ScanEntry(text: string, p: nat, field: array<string>) returns (fields: nat, comment: bool, q: nat)
    requires p < |text|
    modifies field
    ensures p < q <= |text|
    ensures var f := Split(text[p..]);
            fields == |f.texts| && comment == f.comment && text[q..] == f.rest && Kept(field, f.texts)
  {
    ghost var all := Split(text[p..]);
    ghost var got: seq<string> := [];
    AllAhead(text[p..]);
    var sep := ':';
    fields, q, comment := 0, p, false;
    while sep == ':'
      invariant p <= q <= |text| && fields == |got|
      invariant if fields == 0 then q == p && sep == ':' else p < q && comment == all.comment
      invariant Ahead(all, got, text[q..], sep == ':')
      invariant forall i :: 0 <= i < field.Length && i < fields ==> field[i] == got[i]
      decreases |text| - q, if sep == ':' then 1 else 0
    {
      OneMore(all, got, text[q..]);
      var one, hash;
      one, hash, sep, q := ScanField(text, q);
      if fields < field.Length {
        field[fields] := one;
      }
      if fields == 0 {
        comment := hash;
      }
      got := got + [one];
      fields := fields + 1;
    }
    assert Inspect(true);
    BlankRest(field, got, fields);
  }

  method ScanInt(s: string, id: int32) returns (r: int32)
    ensures r == if IntOf(s).Some? then IntOf(s).value else id
  {
    if s == "" {
      return id;
    }
    var n: int32, i := 0, 0;
    while i < |s|
      invariant 0 <= i <= |s| && n >= 0 && IntFrom(s[i..], n) == IntFrom(s, 0)
    {
      assert s[i..][1..] == s[i + 1..];
      if !IsDigit(s[i]) {
        return id;
      }
      var d := s[i] as int - '0' as int;
      n := if n > 214748364 || (n == 214748364 && d > 7) then INT_MAX else 10 * n + d;
      i := i + 1;
    }
    r := n;
  }

  method ScanLetters(s: string, bits: char -> Option<Perms>, permset: Perms) returns (ps: Perms, ok: bool)
    ensures (ps, ok) == Letters(s, bits, permset)
  {
    ps := permset;
    var i := 0;
    while i < |s|
      invariant 0 <= i <= |s| && Letters(s[i..], bits, ps) == Letters(s, bits, permset)
    {
      assert s[i..][1..] == s[i + 1..];
      var more := bits(s[i]);
      if more.None? {
        return ps, false;
      }
      ps := ps + more.value;
      i := i + 1;
    }
    ok := true;
  }

  method ScanMode(s: string, permset: Perms) returns (ps: Perms, ok: bool)
    ensures s != "" ==> (ps, ok) == ModeLetters(s)
    ensures s == "" ==> ps == permset && !ok
  {
    if s == "" {
      return permset, false;
    }
    ps, ok := ScanLetters(s, ModeBits, {});
  }

  method ScanId(field: array<string>, ghost fs: seq<string>, fields: nat, n: nat) returns (id: int32)
    requires field.Length == 5 && n <= 1 && KeptTail(field, fs) && fields == |fs|
    ensures id == PosixId(fs, n)
  {
    id := ScanInt(field[n + 1], -1);
    if id == -1 && fields > n + 3 {
      id := ScanInt(field[n + 3], id);
    }
  }

  method ScanPerms(f: string, permset: Perms, ghost fs: seq<string>, ghost i: nat) returns (ps: Option<Perms>)
    requires f == FieldAt(fs, i)
    ensures ps == PermsAt(fs, i, permset)
  {
    if permset != {} {
      return Some(permset);
    }
    var more, ok := ScanMode(f, permset);
    ps := if ok then Some(more) else None;
  }

  method ScanSolaris(f: string, ghost fs: seq<string>, fields: nat, n: nat) returns (permset: Perms, solaris: bool)
    requires f == FieldAt(fs, n + 1) && fields == |fs|
    ensures (permset, solaris) == SolarisPerms(fs, n)
  {
    permset, solaris := {}, false;
    if fields == n + 2 {
      permset, solaris := ScanMode(f, permset);
    }
  }

  /** The two fields behind the tag. */
  method ScanOtherPerms(f1: string, f2: string, ghost fs: seq<string>, fields: nat, n: nat) returns (ps: Option<Perms>)
    requires f1 == FieldAt(fs, n + 1) && f2 == FieldAt(fs, n + 2) && fields == |fs|
    ensures ps == OtherPerms(fs, n)
  {
    var permset, solaris := ScanSolaris(f1, fs, fields, n);
    if solaris {
      ps := ScanPerms(f1, permset, fs, n + 1);
    } else if fields == n + 3 && f1 != "" {
      ps := None;
    } else {
      ps := ScanPerms(f2, permset, fs, n + 2);
    }
  }

  method ScanUserEntry(field: array<string>, ghost fs: seq<string>, n: nat, tag: Tag, kind: Kind, id: int32)
      returns (e: Option<AclEntry>)
    requires field.Length == 5 && n <= 1 && KeptTail(field, fs)
    ensures e == UserEntry(fs, n, tag, kind, id)
  {
    var tag', name := tag, "";
    if id != -1 || field[n + 1] != "" {
      name := field[n + 1];
      tag' := if tag == UserObj then User else Group;
    }
    var ps := ScanPerms(field[n + 2], {}, fs, n + 2);
    e := PlainEntry(ps, tag', kind, id, name);
  }

  method ScanPosixEntry(field: array<string>, ghost fs: seq<string>, fields: nat, n: nat, tag: Tag, kind: Kind)
      returns (e: Option<AclEntry>)
    requires field.Length == 5 && n <= 1 && KeptTail(field, fs) && fields == |fs|
    ensures e == PosixEntry(fs, n, tag, kind)
  {
    var id := ScanId(field, fs, fields, n);
    if tag == Other || tag == Mask {
      var ps := ScanOtherPerms(field[n + 1], field[n + 2], fs, fields, n);
      e := PlainEntry(ps, tag, kind, id, "");
    } else {
      e := ScanUserEntry(field, fs, n, tag, kind, id);
    }
  }

  /** The fields behind the first are those of the entry. */
  predicate KeptTail(field: array<string>, fs: seq<string>)
    reads field
  {
    forall i :: 1 <= i < field.Length ==> field[i] == FieldAt(fs, i)
  }

  method ScanPosix(field: array<string>, ghost fs: seq<string>, fields: nat, want: Kind) returns (e: Option<AclEntry>)
    requires field.Length == 5 && Kept(field, fs) && fields == |fs|
    modifies field
    ensures e == ParsePosix(fs, want)
  {
    var n, kind, s := 0, want, field[0];
    if MarksDefault(s) {
      kind := Default;
      if |s| > 7 {
        field[0] := s[7..];
      } else {
        n := 1;
      }
    }
    var tag := PosixTag(field[n]);
    if tag.None? {
      return None;
    }
    e := ScanPosixEntry(field, fs, fields, n, tag.value, kind);
  }

  method ScanNfs4(field: array<string>, ghost fs: seq<string>) returns (e: Option<AclEntry>)
    requires field.Length == 6 && Kept(field, fs)
    ensures e == ParseNfs4(fs)
  {
    var tag := Nfs4Tag(field[0]);
    if tag.None? {
      return None;
    }
    var n, id: int32, name := 0, -1, "";
    if tag.value == User || tag.value == Group {
      n := 1;
      name := field[1];
      id := ScanInt(name, id);
    }
    var permset, ok := ScanLetters(field[1 + n], PermBits, {});
    if !ok {
      return None;
    }
    permset, ok := ScanLetters(field[2 + n], FlagBits, permset);
    if !ok {
      return None;
    }
    var kind := Nfs4Kind(field[3 + n]);
    if kind.None? {
      return None;
    }
    id := ScanInt(field[4 + n], id);
    e := Some(AclEntry(kind.value, tag.value, permset, id, name));
  }

  method ScanFields(field: array<string>, ghost fs: seq<string>, fields: nat, want: TextKind)
      returns (e: Option<AclEntry>)
    requires field.Length == (if want == Nfs4Text then 6 else 5) && Kept(field, fs) && fields == |fs|
    modifies field
    ensures e == ParseEntry(fs, want)
  {
    if want == Nfs4Text {
      e := ScanNfs4(field, fs);
    } else {
      e := ScanPosix(field, fs, fields, if want == DefaultText then Default else Access);
    }
  }

  method Add(acl: AclList, e: Option<AclEntry>, ret: Status) returns (ret': Status)
    modifies acl
    ensures (acl.State(), ret') == Apply(old(acl.State()), e, ret)
  {
    if e.None? {
      return Warn;
    }
    var r := acl.Add(e.value.kind, e.value.permset, e.value.tag, e.value.id, e.value.name);
    ret' := if r == Failed then Failed else ret;
  }

  method Scan(acl: AclList, text: string, want: TextKind) returns (ret: Status)
    modifies acl
    ensures (acl.State(), ret) == FromText(old(acl.State()), text, want)
  {
    if want == OtherText {
      return Fatal;
    }
    ret := Ok;
    var p := 0;
    var field := new string[if want == Nfs4Text then 6 else 5];
    while p < |text| && ret != Failed
      invariant 0 <= p <= |text|
      invariant ParseAll(acl.State(), text[p..], want, ret) == FromText(old(acl.State()), text, want)
    {
      ghost var f := Split(text[p..]);
      var fields, comment;
      fields, comment, p := ScanEntry(text, p, field);
      if !comment {
        var e := ScanFields(field, f.texts, fields, want);
        ret := Add(acl, e, ret);
      }
    }
  }
}
