/** Splitting a command line into words, and that it undoes any way of
    spelling them. */
module CmdLine {
  import opened Wrappers

  // ----- words -----

  type Scanned = Option<(string, string)>

  function Prepend(t: string, r: Scanned): Scanned {
    match r
    case None => None
    case Some((w, rest)) => Some((t + w, rest))
  }

  /** The text up to the closing quote, and what is behind it. */
  function Quotation(s: string): (r: Scanned)
    ensures r.Some? ==> |r.value.1| < |s|
    decreases |s|
  {
    if s == "" then None
    else if s[0] == '\\' then if |s| > 1 then Prepend([s[1]], Quotation(s[2..])) else None
    else if s[0] == '"' then Some(("", s[1..]))
    else Prepend([s[0]], Quotation(s[1..]))
  }

  /** The word that begins here, and what is behind it. */
  function Word(s: string): (r: Scanned)
    ensures r.Some? ==> |r.value.1| <= |s| && (s != "" && s[0] != ' ' ==> |r.value.1| < |s|)
    decreases |s|
  {
    if s == "" || s[0] == ' ' then Some(("", s))
    else if s[0] == '\\' then if |s| > 1 then Prepend([s[1]], Word(s[2..])) else Some(("", ""))
    else if s[0] == '"' then
      match Quotation(s[1..])
      case None => None
      case Some((q, rest)) => Prepend(q, Word(rest))
    else Prepend([s[0]], Word(s[1..]))
  }

  function SkipSpaces(s: string): (r: string)
    ensures |r| <= |s| && (s != "" && s[0] == ' ' ==> |r| < |s|) && (r != "" ==> r[0] != ' ')
  {
    if s != "" && s[0] == ' ' then SkipSpaces(s[1..]) else s
  }

  function Argument(s: string): (r: Scanned)
    ensures r.Some? ==> |r.value.1| <= |s| && (s != "" ==> |r.value.1| < |s|)
  {
    Word(SkipSpaces(s))
  }

  // ----- the whole line -----

  datatype Status = Ok | Failed

  /** The arguments after the first. Where a word is empty, the string buffer
      still holds `last`, the argument before it, and that is taken instead. */
  function Arguments(last: string, s: string): (Status, seq<string>)
    decreases |s|
  {
    if s == "" then (Ok, [])
    else
      match Argument(s)
      case None => (Failed, [])
      case Some((w, rest)) =>
        if w == "" && rest == "" then (Ok, [])
        else
          var arg := if w == "" then last else w;
          var (status, more) := Arguments(arg, rest);
          (status, [arg] + more)
  }

  /** The part after the last slash. */
  function Basename(w: string): string {
    if w == "" then "" else if w[|w| - 1] == '/' then "" else Basename(w[..|w| - 1]) + [w[|w| - 1]]
  }

  datatype Parsed = Parsed(status: Status, path: Option<string>, argv: seq<string>)

  function ParseLine(cmd: string): Parsed {
    match Argument(cmd)
    case None => Parsed(Failed, None, [])
    case Some((w, rest)) =>
      if w == "" then Parsed(Failed, None, [])
      else
        var (status, more) := Arguments(w, rest);
        Parsed(status, Some(w), [Basename(w)] + more)
  }

  // ----- the program -----

  /** A growing string. Emptying it sets its length to zero and leaves the
      characters, up to their terminator, where they are. */
  class StringBuffer {
    var s: string
    var length: nat

    ghost predicate Valid()
      reads this
    {
      length <= |s|
    }

    ghost function Text(): string
      reads this
      requires Valid()
    {
      s[..length]
    }

    constructor ()
      ensures Valid() && s == ""
    {
      s, length := "", 0;
    }

    method Empty()
      modifies this`length
      ensures Valid() && Text() == ""
    {
      length := 0;
    }

    method Append(c: char)
      requires Valid()
      modifies this
      ensures Valid() && Text() == old(Text()) + [c] && s == Text()
    {
      s := s[..length] + [c];
      length := length + 1;
    }
  }

  lemma PrependTwice(a: string, b: string, r: Scanned)
    ensures Prepend(a, Prepend(b, r)) == Prepend(a + b, r)
  {
    if r.Some? {
      assert a + (b + r.value.0) == a + b + r.value.0;
    }
  }

  /** What is kept of the characters: the text, or if it is empty the old ones. */
  ghost predicate Keeps(buf: StringBuffer, was: string)
    reads buf
  {
    buf.Valid() && if buf.Text() == "" then buf.s == was else buf.s == buf.Text()
  }

  lemma PrependNothing(r: Scanned)
    ensures Prepend("", r) == r
  {
    if r.Some? {
      assert "" + r.value.0 == r.value.0;
    }
  }

  method ExtractQuotation(buf: StringBuffer, p: string, i: nat, ghost was: string) 
      returns (ok: bool, j: nat, ghost got: string)
    requires i < |p| && p[i] == '"' && Keeps(buf, was)
    modifies buf
    ensures i < j <= |p| && Keeps(buf, was) && buf.Text() == old(buf.Text()) + got
    ensures Quotation(p[i + 1..]) == if ok then Some((got, p[j..])) else None
  {
    ghost var before := buf.Text();
    got := "";
    j := i + 1;
    PrependNothing(Quotation(p[j..]));
    while j < |p| && p[j] != '"'
      invariant i < j <= |p| && Keeps(buf, was) && buf.Text() == before + got
      invariant Quotation(p[i + 1..]) == Prepend(got, Quotation(p[j..]))
    {
      ghost var rest := p[j..];
      if p[j] == '\\' {
        if j + 1 < |p| {
          assert rest[2..] == p[j + 2..];
          PrependTwice(got, [p[j + 1]], Quotation(p[j + 2..]));
          buf.Append(p[j + 1]);
          got := got + [p[j + 1]];
          j := j + 2;
        } else {
          assert p[j + 1..] == "";
          j := j + 1;
        }
      } else {
        assert rest[1..] == p[j + 1..];
        PrependTwice(got, [p[j]], Quotation(p[j + 1..]));
        buf.Append(p[j]);
        got := got + [p[j]];
        j := j + 1;
      }
    }
    ok := j < |p|;
    if ok {
      assert p[j..][1..] == p[j + 1..] && got + "" == got;
      j := j + 1;
    }
  }

  /** One turn of the loop over a word: a character or a quotation. */
  method AddPiece(buf: StringBuffer, p: string, i: nat, ghost was: string, ghost word: Scanned)
      returns (ok: bool, more: bool, j: nat)
    requires i < |p| && p[i] != ' ' && Keeps(buf, was) && word == Prepend(buf.Text(), Word(p[i..]))
    modifies buf
    ensures i < j <= |p| && Keeps(buf, was)
    ensures word == if !ok then None else if more then Prepend(buf.Text(), Word(p[j..])) else Some((buf.Text(), p[j..]))
  {
    ok, more, j := true, true, i + 1;
    ghost var rest, before := p[i..], buf.Text();
    assert rest[1..] == p[i + 1..];
    if p[i] == '\\' {
      if i + 1 < |p| {
        assert rest[2..] == p[i + 2..];
        PrependTwice(before, [p[i + 1]], Word(p[i + 2..]));
        buf.Append(p[i + 1]);
        j := i + 2;
      } else {
        more := false;
        assert before + "" == before;
      }
    } else if p[i] == '"' {
      ghost var got;
      ok, j, got := ExtractQuotation(buf, p, i, was);
      if ok {
        PrependTwice(before, got, Word(p[j..]));
      }
    } else {
      PrependTwice(before, [p[i]], Word(p[i + 1..]));
      buf.Append(p[i]);
    }
  }

  /** Empty the buffer and read the next argument into it. */
  method GetArgument(buf: StringBuffer, p: string, i: nat) returns (ok: bool, j: nat)
    requires i <= |p| && buf.Valid()
    modifies buf
    ensures buf.Valid() && i <= j <= |p| && (i < |p| ==> i < j || !ok)
    ensures ok ==> Argument(p[i..]) == Some((buf.Text(), p[j..])) && Keeps(buf, old(buf.s))
    ensures !ok ==> Argument(p[i..]) == None
  {
    ghost var was := buf.s;
    buf.Empty();
    j := i;
    while j < |p| && p[j] == ' '
      invariant i <= j <= |p| && SkipSpaces(p[j..]) == SkipSpaces(p[i..])
    {
      assert p[j..][1..] == p[j + 1..];
      j := j + 1;
    }
    ghost var word := Word(p[j..]);
    PrependNothing(word);
    var more := true;
    while more && j < |p| && p[j] != ' '
      invariant i <= j <= |p| && Keeps(buf, was)
      invariant word == if more then Prepend(buf.Text(), Word(p[j..])) else Some((buf.Text(), p[j..]))
      decreases |p| - j
    {
      var good;
      good, more, j := AddPiece(buf, p, j, was, word);
      if !good {
        return false, j;
      }
    }
    assert buf.Text() + "" == buf.Text();
    ok := true;
  }

  method FindBasename(w: string) returns (r: string)
    ensures r == Basename(w)
  {
    var i := |w|;
    assert w[..i] == w && Basename(w) + w[i..] == Basename(w);
    while i > 0 && w[i - 1] != '/'
      invariant 0 <= i <= |w| && Basename(w) == Basename(w[..i]) + w[i..]
    {
      assert w[..i][..i - 1] == w[..i - 1];
      assert [w[i - 1]] + w[i..] == w[i - 1..];
      i := i - 1;
    }
    assert Basename(w[..i]) == "" && "" + w[i..] == w[i..];
    r := w[i..];
  }

  /** Of the arguments `all`, those in `got` are read and the rest of the line
      holds the others. */
  ghost predicate Left(all: (Status, seq<string>), got: seq<string>, last: string, rest: string) {
    forall ask {:trigger Inspect(ask)} :: Inspect(ask) ==>
      all == (Arguments(last, rest).0, got + Arguments(last, rest).1)
  }

  lemma AtStart(last: string, rest: string)
    ensures Left(Arguments(last, rest), [], last, rest)
  {
    assert [] + Arguments(last, rest).1 == Arguments(last, rest).1;
  }

  lemma Turn(all: (Status, seq<string>), got: seq<string>, last: string, rest: string)
    requires Left(all, got, last, rest)
    ensures match Argument(rest)
            case None => all == (if rest == "" then Ok else Failed, got)
            case Some((w, rest')) =>
              if rest' == "" && w == "" then all == (Ok, got)
              else var arg := if w == "" then last else w; Left(all, got + [arg], arg, rest')
  {
    assert Inspect(true);
    var more := Arguments(last, rest).1;
    if more == [] {
      assert got + [] == got;
    } else {
      assert got + more == got + [more[0]] + more[1..];
    }
  }

  lemma {:induction false} Assoc<T>(a: seq<T>, b: seq<T>, c: seq<T>)
    ensures a + b + c == a + (b + c) && a + [] == a
  {
  }

  class Command {
    var path: Option<string>
    var argv: seq<string>

    constructor ()
      ensures path == None && argv == []
    {
      path, argv := None, [];
    }

    method Parse(cmd: string) returns (r: Status)
      modifies this
      ensures var parsed := ParseLine(cmd);
              && r == parsed.status && argv == old(argv) + parsed.argv
              && path == if parsed.path.Some? then parsed.path else old(path)
    {
      var buf := new StringBuffer();
      var ok, p := GetArgument(buf, cmd, 0);
      assert cmd[0..] == cmd;
      if !ok || buf.length == 0 {
        Assoc(argv, [], []);
        return Failed;
      }
      path := Some(buf.s);
      var base := FindBasename(buf.s);
      argv := argv + [base];
      ghost var more := Arguments(buf.s, cmd[p..]).1;
      Assoc(old(argv), [base], more);
      r := ParseRest(buf, cmd, p);
    }

    method ParseRest(buf: StringBuffer, cmd: string, p: nat) returns (r: Status)
      requires p <= |cmd| && buf.Valid()
      modifies this`argv, buf
      ensures r == Arguments(old(buf.s), cmd[p..]).0 && argv == old(argv) + Arguments(old(buf.s), cmd[p..]).1
    {
      ghost var all := Arguments(buf.s, cmd[p..]);
      ghost var got: seq<string> := [];
      AtStart(buf.s, cmd[p..]);
      var i, more := p, true;
      r := Ok;
      while more
        invariant p <= i <= |cmd| && buf.Valid() && argv == old(argv) + got
        invariant if more then Left(all, got, buf.s, cmd[i..]) else all == (r, got)
        decreases more, |cmd| - i
      {
        Turn(all, got, buf.s, cmd[i..]);
        var from, ok := i, false;
        ok, i := GetArgument(buf, cmd, i);
        if !ok {
          r, more := Failed, false;
        } else if i == from || (buf.length == 0 && i == |cmd|) {
          r, more := Ok, false;
        } else {
          argv := argv + [buf.s];
          got := got + [buf.s];
        }
      }
    }
  }
}
