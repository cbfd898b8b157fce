/** Printing an access control list into a buffer of the computed length. */
module AclPrinter {
  import opened Wrappers
  import opened Text
  import opened Acl
  import opened AclText

  // ----- the length -----

  method CountDigits(id: int) returns (idlen: nat)
    ensures idlen == IdLength(id)
  {
    idlen := 1;
    var tmp := id;
    while tmp > 9
      invariant idlen + IdLength(tmp) == 1 + IdLength(id)
    {
      tmp := tmp / 10;
      idlen := idlen + 1;
    }
  }

  method EntryLen(w: Want, st: Style, e: AclEntry) returns (length: int)
    ensures length == EntryLength(w, st, e)
  {
    length := 0;
    if w.WantPosix? && w.dflt && e.kind == Default {
      length := length + 8;
    }
    length := length + TagLength(w, e.tag) + 1;
    if Named(e.tag) {
      length := length + (if e.name != "" then |e.name| else 13);
      length := length + 1;
    } else if w != WantNfs4 {
      length := length + 1;
    }
    if st.solaris && w.WantPosix? && (e.tag == Other || e.tag == Mask) {
      length := length - 1;
    }
    if w == WantNfs4 {
      length := length + 27;
      if e.kind != Deny {
        length := length + 1;
      }
    } else {
      length := length + 3;
    }
    if Named(e.tag) && st.extraId {
      var idlen := CountDigits(e.id);
      length := length + 1 + idlen;
    }
    length := length + 1;
  }

  method TextLen(acl: AclList, w: Want, st: Style) returns (length: int)
    ensures length == TextLength(w, st, acl.State())
  {
    var count := 0;
    length := 0;
    var i := 0;
    while i < |acl.entries|
      invariant 0 <= i <= |acl.entries|
      invariant length == EntriesLength(w, st, acl.entries[..i])
      invariant count == 0 ==> length == 0
    {
      assert acl.entries[..i + 1][..i] == acl.entries[..i];
      if Printed(w, acl.entries[i]) {
        count := count + 1;
        var more := EntryLen(w, st, acl.entries[i]);
        length := length + more;
      }
      i := i + 1;
    }
    assert acl.entries[..i] == acl.entries;
    if Wanted(w, Access) {
      length := length + (if st.solaris then 31 else 32);
    } else if count == 0 {
      return 0;
    }
  }

  // ----- the text -----

  method AppendId(buf: array<char>, p: nat, id: int) returns (q: nat)
    requires p + |IdText(id)| <= buf.Length
    modifies buf
    ensures q == p + |IdText(id)| && buf[..q] == old(buf[..p]) + IdText(id)
    decreases if id < 0 then 0 else id
  {
    var n := if id < 0 then 0 else id;
    q := p;
    if n > 9 {
      q := AppendId(buf, q, n / 10);
    }
    q := PutChar(buf, q, Digit(n % 10));
  }

  /** One character for each bit of a map, unless compact. */
  method AppendMap(buf: array<char>, p: nat, ps: Perms, m: PermMap, compact: bool) returns (q: nat)
    requires p + |MapText(ps, m, compact)| <= buf.Length
    modifies buf
    ensures q == p + |MapText(ps, m, compact)| && buf[..q] == old(buf[..p]) + MapText(ps, m, compact)
  {
    q := p;
    var i := 0;
    while i < |m|
      invariant 0 <= i <= |m|
      invariant q == p + |MapText(ps, m[..i], compact)| <= buf.Length
      invariant buf[..q] == old(buf[..p]) + MapText(ps, m[..i], compact)
    {
      assert m[..i + 1][..i] == m[..i];
      MapTextGrows(ps, m, i + 1, compact);
      if m[i].0 in ps {
        q := PutChar(buf, q, m[i].1);
      } else if !compact {
        q := PutChar(buf, q, '-');
      }
      i := i + 1;
    }
    assert m[..i] == m;
  }

  lemma {:induction false} MapTextGrows(ps: Perms, m: PermMap, i: nat, compact: bool)
    requires i <= |m|
    ensures |MapText(ps, m[..i], compact)| <= |MapText(ps, m, compact)|
    decreases |m|
  {
    if i < |m| {
      MapTextGrows(ps, m[..|m| - 1], i, compact);
      assert m[..|m| - 1][..i] == m[..i];
    } else {
      assert m[..i] == m;
    }
  }

  lemma AssocMaps(o: string, a: string, b: string, c: string)
    ensures o + a + [':'] + b + [':'] + c == o + (a + ":" + b + ":" + c)
  {
  }

  method AppendMaps(buf: array<char>, p: nat, ps: Perms, perms: PermMap, flags: PermMap, compact: bool, kind: string)
      returns (q: nat)
    requires p + |MapsText(ps, perms, flags, compact, kind)| < buf.Length
    modifies buf
    ensures q == p + |MapsText(ps, perms, flags, compact, kind)|
    ensures buf[..q] == old(buf[..p]) + MapsText(ps, perms, flags, compact, kind)
  {
    AssocMaps(buf[..p], MapText(ps, perms, compact), MapText(ps, flags, compact), kind);
    q := AppendMap(buf, p, ps, perms, compact);
    q := PutChar(buf, q, ':');
    q := AppendMap(buf, q, ps, flags, compact);
    q := PutChar(buf, q, ':');
    q := Put(buf, q, kind);
  }

  method AppendPerms(buf: array<char>, p: nat, kind: Kind, st: Style, ps: Perms) returns (q: nat)
    requires p + |PermsText(kind, st, ps)| < buf.Length
    modifies buf
    ensures q == p + |PermsText(kind, st, ps)| && buf[..q] == old(buf[..p]) + PermsText(kind, st, ps)
  {
    if IsPosix(kind) {
      q := PutChar(buf, p, if Read in ps then 'r' else '-');
      q := PutChar(buf, q, if Write in ps then 'w' else '-');
      q := PutChar(buf, q, if Execute in ps then 'x' else '-');
    } else {
      q := AppendMaps(buf, p, ps, PERM_MAP, FLAG_MAP, st.compact, KindText(kind));
    }
  }

  method AppendQualifier(buf: array<char>, p: nat, kind: Kind, tag: Tag, st: Style, name: string, id: int)
      returns (q: nat)
    requires p + |QualifierText(kind, tag, st, name, id)| < buf.Length
    modifies buf
    ensures q == p + |QualifierText(kind, tag, st, name, id)|
    ensures buf[..q] == old(buf[..p]) + QualifierText(kind, tag, st, name, id)
  {
    q := p;
    if IsPosix(kind) || Named(tag) {
      if Named(tag) && name != "" {
        q := Put(buf, q, name);
      } else if Named(tag) {
        q := AppendId(buf, q, id);
      }
      if !st.solaris || (tag != Other && tag != Mask) {
        q := PutChar(buf, q, ':');
      }
    }
  }

  /** Appending piece by piece is appending the whole. */
  lemma Assoc(o: string, a: string, b: string, c: string, d: string, e: string, f: string)
    ensures o + a + b + c + d + e + f == o + (a + b + c + d + e + f)
  {
  }

  method AppendTrailer(buf: array<char>, p: nat, kind: Kind, tag: Tag, name: string, id: int) returns (q: nat)
    requires p + |TrailerText(kind, tag, name, id)| <= buf.Length
    modifies buf
    ensures q == p + |TrailerText(kind, tag, name, id)|
    ensures buf[..q] == old(buf[..p]) + TrailerText(kind, tag, name, id)
  {
    q := p;
    if Named(tag) && id != -1 && !(name == "" && IsPosix(kind)) {
      AfterColon(buf[..p], IdText(id));
      q := PutChar(buf, q, ':');
      q := AppendId(buf, q, id);
    }
  }

  lemma AfterColon(o: string, t: string)
    ensures o + [':'] + t == o + (":" + t)
  {
  }

  method AppendEntry(buf: array<char>, p: nat, prefix: string, kind: Kind, tag: Tag, st: Style,
                     name: string, ps: Perms, id: int) returns (q: nat)
    requires p + |EntryText(prefix, kind, tag, st, name, ps, id)| < buf.Length
    modifies buf
    ensures q == p + |EntryText(prefix, kind, tag, st, name, ps, id)|
    ensures buf[..q] == old(buf[..p]) + EntryText(prefix, kind, tag, st, name, ps, id)
  {
    ghost var o := buf[..p];
    q := Put(buf, p, prefix);
    q := Put(buf, q, TagText(kind, tag));
    q := PutChar(buf, q, ':');
    q := AppendQualifier(buf, q, kind, tag, st, name, id);
    q := AppendPerms(buf, q, kind, st, ps);
    q := AppendTrailer(buf, q, kind, tag, name, id);
    Assoc(o, prefix, TagText(kind, tag), ":", QualifierText(kind, tag, st, name, id), PermsText(kind, st, ps),
          TrailerText(kind, tag, name, id));
  }

  /** The text of the first entries. */
  function TextUpTo(w: Want, st: Style, s: AclState, i: nat, sep: char): string
    requires i <= |s.entries|
  {
    Join(Lines(w, st, s.(entries := s.entries[..i])), sep)
  }

  lemma LinesStep(w: Want, st: Style, s: AclState, i: nat)
    requires i < |s.entries|
    ensures Lines(w, st, s.(entries := s.entries[..i + 1])) ==
            Lines(w, st, s.(entries := s.entries[..i]))
            + if Printed(w, s.entries[i]) then [Line(st, s.entries[i])] else []
  {
    assert s.entries[..i + 1][..i] == s.entries[..i];
    AssocLines(ModeLines(w, st, s.mode), EntryLines(w, st, s.entries[..i]),
               if Printed(w, s.entries[i]) then [Line(st, s.entries[i])] else []);
  }

  lemma AssocLines(a: seq<string>, b: seq<string>, c: seq<string>)
    ensures a + (b + c) == a + b + c
  {
  }

  lemma TextStep(w: Want, st: Style, s: AclState, i: nat, sep: char)
    requires i < |s.entries|
    ensures TextUpTo(w, st, s, i + 1, sep) ==
            if !Printed(w, s.entries[i]) then TextUpTo(w, st, s, i, sep)
            else if Lines(w, st, s.(entries := s.entries[..i])) == [] then Line(st, s.entries[i])
            else TextUpTo(w, st, s, i, sep) + [sep] + Line(st, s.entries[i])
    ensures |Lines(w, st, s.(entries := s.entries[..i + 1]))| ==
            |Lines(w, st, s.(entries := s.entries[..i]))| + if Printed(w, s.entries[i]) then 1 else 0
  {
    LinesStep(w, st, s, i);
    JoinAppend(Lines(w, st, s.(entries := s.entries[..i])), Line(st, s.entries[i]), sep);
    assert Lines(w, st, s.(entries := s.entries[..i])) + [] == Lines(w, st, s.(entries := s.entries[..i]));
  }

  lemma {:induction false} TextGrows(w: Want, st: Style, s: AclState, i: nat, sep: char)
    requires i <= |s.entries|
    ensures |TextUpTo(w, st, s, i, sep)| <= |Join(Lines(w, st, s), sep)|
    decreases |s.entries| - i
  {
    if i < |s.entries| {
      TextStep(w, st, s, i, sep);
      TextGrows(w, st, s, i + 1, sep);
      if Lines(w, st, s.(entries := s.entries[..i])) == [] {
        assert TextUpTo(w, st, s, i, sep) == "";
      }
    } else {
      assert s.entries[..i] == s.entries;
    }
  }

  lemma JoinThree(a: string, b: string, c: string, sep: char)
    ensures Join([a, b, c], sep) == a + [sep] + b + [sep] + c
  {
    JoinAppend([a, b], c, sep);
    JoinAppend([a], b, sep);
    assert [a, b, c] == [a, b] + [c] && [a, b] == [a] + [b];
  }

  method AppendMode(buf: array<char>, mode: Mode, st: Style, sep: char) returns (q: nat)
    requires |ModeText(st, mode, sep)| < buf.Length
    modifies buf
    ensures q == |ModeText(st, mode, sep)| && buf[..q] == ModeText(st, mode, sep)
  {
    q := AppendModeLine(buf, 0, UserObj, st, mode.user);
    assert buf[..q] == ModeLine(st, UserObj, mode.user);
    q := PutChar(buf, q, sep);
    q := AppendModeLine(buf, q, GroupObj, st, mode.group);
    q := PutChar(buf, q, sep);
    q := AppendModeLine(buf, q, Other, st, mode.other);
  }

  method AppendModeLine(buf: array<char>, p: nat, tag: Tag, st: Style, ps: Perms) returns (q: nat)
    requires p + |ModeLine(st, tag, ps)| < buf.Length
    modifies buf
    ensures q == p + |ModeLine(st, tag, ps)| && buf[..q] == old(buf[..p]) + ModeLine(st, tag, ps)
  {
    q := AppendEntry(buf, p, "", Access, tag, st, "", ps, -1);
  }

  function ModeText(st: Style, mode: Mode, sep: char): string {
    ModeLine(st, UserObj, mode.user) + [sep] + ModeLine(st, GroupObj, mode.group) + [sep] + ModeLine(st, Other, mode.other)
  }

  lemma ModeTextIsJoin(w: Want, st: Style, s: AclState, sep: char)
    ensures TextUpTo(w, st, s, 0, sep) == if Wanted(w, Access) then ModeText(st, s.mode, sep) else ""
    ensures |Lines(w, st, s.(entries := s.entries[..0]))| == if Wanted(w, Access) then 3 else 0
  {
    assert s.entries[..0] == [];
    assert Lines(w, st, s.(entries := [])) == ModeLines(w, st, s.mode);
    JoinThree(ModeLine(st, UserObj, s.mode.user), ModeLine(st, GroupObj, s.mode.group),
              ModeLine(st, Other, s.mode.other), sep);
  }

  /** The buffer holds the text of the first `i` entries. */
  ghost predicate Holds(buf: array<char>, p: nat, count: nat, w: Want, st: Style, s: AclState, i: nat, sep: char)
    requires i <= |s.entries|
    reads buf
  {
    && p < buf.Length && buf[..p] == TextUpTo(w, st, s, i, sep)
    && count == |Lines(w, st, s.(entries := s.entries[..i]))|
  }

  method AppendNext(buf: array<char>, p: nat, count: nat, w: Want, st: Style, sep: char, s: AclState, i: nat)
      returns (q: nat, count': nat)
    requires i < |s.entries| && Holds(buf, p, count, w, st, s, i, sep)
    requires |Join(Lines(w, st, s), sep)| < buf.Length
    modifies buf
    ensures Holds(buf, q, count', w, st, s, i + 1, sep)
  {
    var e := s.entries[i];
    TextStep(w, st, s, i, sep);
    TextGrows(w, st, s, i + 1, sep);
    q, count' := p, count;
    if Printed(w, e) {
      if count > 0 {
        q := PutChar(buf, q, sep);
      }
      q := AppendLine(buf, q, st, e);
      count' := count + 1;
    }
  }

  method AppendLine(buf: array<char>, p: nat, st: Style, e: AclEntry) returns (q: nat)
    requires p + |Line(st, e)| < buf.Length
    modifies buf
    ensures q == p + |Line(st, e)| && buf[..q] == old(buf[..p]) + Line(st, e)
  {
    var prefix := if e.kind == Default && st.markDefault then "default:" else "";
    var id := if e.name == "" || st.extraId then e.id else -1;
    q := AppendEntry(buf, p, prefix, e.kind, e.tag, st, e.name, e.permset, id);
  }

  /** Write all lines into a buffer of this length, and a terminator. */
  method PrintLines(w: Want, st: Style, s: AclState, sep: char, length: nat) returns (text: string)
    requires |Join(Lines(w, st, s), sep)| < length
    ensures text == Join(Lines(w, st, s), sep)
  {
    var buf := new char[length];
    var p: nat, count: nat := 0, 0;
    TextGrows(w, st, s, 0, sep);
    ModeTextIsJoin(w, st, s, sep);
    if Wanted(w, Access) {
      p := AppendMode(buf, s.mode, st, sep);
      count := 3;
    }
    var i := 0;
    while i < |s.entries|
      invariant 0 <= i <= |s.entries| && Holds(buf, p, count, w, st, s, i, sep)
    {
      p, count := AppendNext(buf, p, count, w, st, sep, s, i);
      i := i + 1;
    }
    assert s.entries[..i] == s.entries;
    buf[p] := '\0';
    text := buf[..p];
  }

  /** Print into a buffer of exactly the computed length. It must have room:
      nothing is checked while writing. */
  method ToTextInBuffer(acl: AclList, style: Style) returns (text: Option<string>)
    requires Inv(acl.State()) && HasRoom(acl.State(), style)
    ensures text == ToText(acl.State(), style)
  {
    var w := WantType(acl.types, style);
    if w == WantNothing {
      return None;
    }
    var st := EffectiveStyle(w, style);
    var length := TextLen(acl, w, st);
    if length == 0 {
      return None;
    }
    var s := AclState(acl.mode, acl.entries, acl.types);
    TextFits(s, style);
    var t := PrintLines(w, st, s, if style.comma then ',' else '\n', length);
    text := Some(t);
  }
}
