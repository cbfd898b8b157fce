/** File flags as text: comma-separated names, a leading "no" for a flag that is
    cleared. A mask is the set of its bits. */
module FileFlags {
  import opened Wrappers
  import opened Text

  type Mask = set<nat>

  /** The name is the one of the cleared flag. `on` are the bits that are set
      when the flag is, `off` the ones that are cleared. */
  datatype Flag = Flag(name: string, on: Mask, off: Mask) {
    function Bits(): Mask {
      on + off
    }

    predicate IsSet(s: Mask, c: Mask) {
      s * on != {} || c * off != {}
    }

    predicate IsCleared(s: Mask, c: Mask) {
      s * off != {} || c * on != {}
    }
  }

  predicate IsSeparator(c: char) {
    c == '\t' || c == ' ' || c == ','
  }

  predicate Named(f: Flag) {
    |f.name| > 2 && f.name[..2] == "no" && forall c <- f.name :: !IsSeparator(c)
  }

  /** A table of flags. */
  predicate AllNamed(table: seq<Flag>) {
    forall f <- table :: Named(f)
  }

  // ----- printing -----

  function Tokens(table: seq<Flag>, s: Mask, c: Mask): seq<string>
    requires AllNamed(table)
  {
    if table == [] then []
    else
      var f := table[0];
      assert Named(f);
      if f.IsSet(s, c) then [f.name[2..]] + Tokens(table[1..], s - f.Bits(), c - f.Bits())
      else if f.IsCleared(s, c) then [f.name] + Tokens(table[1..], s - f.Bits(), c - f.Bits())
      else Tokens(table[1..], s, c)
  }

  /** The length that the first pass computes. */
  function Length(table: seq<Flag>, bits: Mask): nat {
    if table == [] then 0
    else if bits * table[0].Bits() != {} then |table[0].name| + 1 + Length(table[1..], bits - table[0].Bits())
    else Length(table[1..], bits)
  }

  function Print(table: seq<Flag>, s: Mask, c: Mask): Option<string>
    requires AllNamed(table)
  {
    if Length(table, s + c) == 0 then None else Some(Join(Tokens(table, s, c), ','))
  }

  lemma SameFlags(f: Flag, s: Mask, c: Mask)
    ensures f.IsSet(s, c) || f.IsCleared(s, c) <==> (s + c) * f.Bits() != {}
  {
    if b :| b in (s + c) * f.Bits() {
      assert b in s * f.on || b in c * f.off || b in s * f.off || b in c * f.on;
    }
    if f.IsSet(s, c) || f.IsCleared(s, c) {
      var b :| b in s * f.on || b in c * f.off || b in s * f.off || b in c * f.on;
      assert b in (s + c) * f.Bits();
    }
  }

  function Total(ts: seq<string>): nat {
    if ts == [] then 0 else |ts[0]| + 1 + Total(ts[1..])
  }

  lemma {:induction false} JoinTotal(ts: seq<string>)
    ensures ts != [] ==> |Join(ts, ',')| + 1 == Total(ts)
    decreases |ts|
  {
    if ts != [] {
      JoinFirst(ts, ',');
      JoinTotal(ts[1..]);
    }
  }

  /** The text and its terminator fit the computed length, for any table and
      any masks; there is a text when there is a token. */
  lemma {:induction false} TokensFit(table: seq<Flag>, s: Mask, c: Mask)
    requires AllNamed(table)
    ensures Total(Tokens(table, s, c)) <= Length(table, s + c)
    ensures Tokens(table, s, c) == [] <==> Length(table, s + c) == 0
  {
    if table != [] {
      var f := table[0];
      assert Named(f);
      SameFlags(f, s, c);
      if f.IsSet(s, c) || f.IsCleared(s, c) {
        assert (s - f.Bits()) + (c - f.Bits()) == s + c - f.Bits();
        TokensFit(table[1..], s - f.Bits(), c - f.Bits());
        var more := Tokens(table[1..], s - f.Bits(), c - f.Bits());
        assert Tokens(table, s, c)[1..] == more;
      } else {
        TokensFit(table[1..], s, c);
      }
    }
  }

  lemma PrintFits(table: seq<Flag>, s: Mask, c: Mask)
    requires AllNamed(table)
    ensures Print(table, s, c).Some? ==> |Print(table, s, c).value| + 1 <= Length(table, s + c)
  {
    TokensFit(table, s, c);
    JoinTotal(Tokens(table, s, c));
  }

  // ----- reading -----

  function SkipSeparators(s: string): (r: string)
    ensures |r| <= |s| && (r == "" || !IsSeparator(r[0]))
  {
    if s != "" && IsSeparator(s[0]) then SkipSeparators(s[1..]) else s
  }

  function TokenEnd(s: string): (n: nat)
    ensures n <= |s| && (s != "" && !IsSeparator(s[0]) ==> n > 0)
  {
    if s == "" || IsSeparator(s[0]) then 0 else 1 + TokenEnd(s[1..])
  }

  /** The bits that a token sets and clears. */
  function Lookup(table: seq<Flag>, t: string): Option<(Mask, Mask)>
    requires AllNamed(table)
  {
    if table == [] then None
    else
      var f := table[0];
      assert Named(f);
      if t == f.name then Some((f.off, f.on))
      else if t == f.name[2..] then Some((f.on, f.off))
      else Lookup(table[1..], t)
  }

  /** The bits set and cleared, and the text from the first unknown token on. */
  datatype Result = Result(on: Mask, off: Mask, failed: Option<string>)

  function Include(r: Result, t: Option<(Mask, Mask)>, at: string): Result {
    match t
    case Some((on, off)) => r.(on := r.on + on, off := r.off + off)
    case None => if r.failed.None? then r.(failed := Some(at)) else r
  }

  function ReadTokens(table: seq<Flag>, s: string, r: Result): Result
    requires AllNamed(table) && (s == "" || !IsSeparator(s[0]))
    decreases |s|
  {
    if s == "" then r
    else
      var n := TokenEnd(s);
      ReadTokens(table, SkipSeparators(s[n..]), Include(r, Lookup(table, s[..n]), s))
  }

  function Read(table: seq<Flag>, s: string): Result
    requires AllNamed(table)
  {
    ReadTokens(table, SkipSeparators(s), Result({}, {}, None))
  }

  // ----- reading what was printed -----

  predicate IsToken(t: string) {
    t != "" && forall c <- t :: !IsSeparator(c)
  }

  lemma {:induction false} TokenEndOf(t: string, tail: string)
    requires (forall c <- t :: !IsSeparator(c)) && (tail == "" || IsSeparator(tail[0]))
    ensures TokenEnd(t + tail) == |t|
  {
    if t == "" {
      assert t + tail == tail;
    } else {
      assert (t + tail)[1..] == t[1..] + tail;
      TokenEndOf(t[1..], tail);
    }
  }

  // ----- reading any text -----

  predicate IsGap(g: string) {
    forall c <- g :: c in {'\t', ' ', ','}
  }

  /** Each token with the gap behind it. */
  function Spread(ts: seq<string>, gs: seq<string>): string
    requires |ts| == |gs|
  {
    if ts == [] then "" else ts[0] + (gs[0] + Spread(ts[1..], gs[1..]))
  }

  /** Tokens have no tabs, spaces or commas, and there is at least one of them
      between two tokens. */
  predicate Spreadable(ts: seq<string>, gs: seq<string>) {
    && |ts| == |gs|
    && (forall i :: 0 <= i < |ts| ==> ts[i] != "" && (forall c <- ts[i] :: c !in {'\t', ' ', ','}) && IsGap(gs[i]))
    && (forall i :: 0 <= i < |ts| - 1 ==> gs[i] != "")
  }

  /** The tokens are looked up in order; a failure is the text from its token on. */
  function SpreadRead(table: seq<Flag>, ts: seq<string>, gs: seq<string>, r: Result): Result
    requires AllNamed(table) && |ts| == |gs|
  {
    if ts == [] then r else SpreadRead(table, ts[1..], gs[1..], Include(r, Lookup(table, ts[0]), Spread(ts, gs)))
  }

  lemma {:induction false} GapIsSkipped(g: string, s: string)
    requires IsGap(g) && (s == "" || !IsSeparator(s[0]))
    ensures SkipSeparators(g + s) == s
  {
    if g == "" {
      assert g + s == s;
    } else {
      assert (g + s)[1..] == g[1..] + s && g[0] in g && forall c <- g[1..] :: c in g;
      GapIsSkipped(g[1..], s);
    }
  }

  lemma {:induction false} SpreadBegins(ts: seq<string>, gs: seq<string>)
    requires Spreadable(ts, gs)
    ensures Spread(ts, gs) == "" <==> ts == []
    ensures ts != [] ==> !IsSeparator(Spread(ts, gs)[0])
  {
    if ts != [] {
      assert ts[0][0] in ts[0];
    }
  }

  lemma {:induction false} SpreadTokens(table: seq<Flag>, ts: seq<string>, gs: seq<string>, r: Result)
    requires AllNamed(table) && Spreadable(ts, gs) && (Spread(ts, gs) == "" || !IsSeparator(Spread(ts, gs)[0]))
    ensures ReadTokens(table, Spread(ts, gs), r) == SpreadRead(table, ts, gs, r)
    decreases |ts|
  {
    if ts != [] {
      var s, more := Spread(ts, gs), Spread(ts[1..], gs[1..]);
      SpreadBegins(ts, gs);
      SpreadBegins(ts[1..], gs[1..]);
      assert gs[0] == "" ==> ts[1..] == [] && gs[0] + more == "";
      assert gs[0] != "" ==> gs[0][0] in gs[0] && (gs[0] + more)[0] == gs[0][0];
      TokenEndOf(ts[0], gs[0] + more);
      assert s[..|ts[0]|] == ts[0] && s[|ts[0]|..] == gs[0] + more;
      GapIsSkipped(gs[0], more);
      SpreadTokens(table, ts[1..], gs[1..], Include(r, Lookup(table, ts[0]), s));
    }
  }

  /** Any text is read token by token, whatever the gaps. */
  lemma {:induction false} SpreadIsRead(table: seq<Flag>, g: string, ts: seq<string>, gs: seq<string>)
    requires AllNamed(table) && IsGap(g) && Spreadable(ts, gs)
    ensures Read(table, g + Spread(ts, gs)) == SpreadRead(table, ts, gs, Result({}, {}, None))
  {
    SpreadBegins(ts, gs);
    GapIsSkipped(g, Spread(ts, gs));
    SpreadTokens(table, ts, gs, Result({}, {}, None));
  }

  /** The first unknown token is reported, with the text behind it. */
  lemma {:induction false} FirstUnknown(table: seq<Flag>, ts: seq<string>, gs: seq<string>, r: Result, i: nat)
    requires AllNamed(table) && |ts| == |gs| && i <= |ts| && r.failed == None
    requires forall j :: 0 <= j < i ==> Lookup(table, ts[j]).Some?
    requires i < |ts| ==> Lookup(table, ts[i]) == None
    ensures SpreadRead(table, ts, gs, r).failed == if i < |ts| then Some(Spread(ts[i..], gs[i..])) else None
    decreases i
  {
    if i == 0 {
      if ts != [] {
        assert ts[0..] == ts && gs[0..] == gs;
        FailureIsKept(table, ts[1..], gs[1..], Include(r, None, Spread(ts, gs)));
      }
    } else {
      FirstUnknown(table, ts[1..], gs[1..], Include(r, Lookup(table, ts[0]), Spread(ts, gs)), i - 1);
      assert ts[1..][i - 1..] == ts[i..] && gs[1..][i - 1..] == gs[i..];
    }
  }

  lemma {:induction false} FailureIsKept(table: seq<Flag>, ts: seq<string>, gs: seq<string>, r: Result)
    requires AllNamed(table) && |ts| == |gs| && r.failed.Some?
    ensures SpreadRead(table, ts, gs, r).failed == r.failed
    decreases |ts|
  {
    if ts != [] {
      FailureIsKept(table, ts[1..], gs[1..], Include(r, Lookup(table, ts[0]), Spread(ts, gs)));
    }
  }

  /** All tokens are known: what they set and clear together. */
  function Gather(table: seq<Flag>, ts: seq<string>, r: Result): Result
    requires AllNamed(table)
  {
    if ts == [] then r else Gather(table, ts[1..], Include(r, Lookup(table, ts[0]), ""))
  }

  predicate AllKnown(table: seq<Flag>, ts: seq<string>)
    requires AllNamed(table)
  {
    forall t <- ts :: IsToken(t) && Lookup(table, t).Some?
  }

  lemma JoinBegins(ts: seq<string>)
    requires forall t <- ts :: IsToken(t)
    ensures var s := Join(ts, ','); s == "" || !IsSeparator(s[0])
  {
    if ts != [] {
      JoinFirst(ts, ',');
      assert IsToken(ts[0]);
    }
  }

  lemma JoinSplits(ts: seq<string>)
    requires ts != [] && forall t <- ts :: IsToken(t)
    ensures var s, n := Join(ts, ','), |ts[0]|;
            s != "" && TokenEnd(s) == n && s[..n] == ts[0] && SkipSeparators(s[n..]) == Join(ts[1..], ',')
  {
    var t := ts[0];
    assert IsToken(t);
    JoinFirst(ts, ',');
    var rest := Join(ts[1..], ',');
    var tail := if |ts| == 1 then "" else "," + rest;
    JoinBegins(ts[1..]);
    assert Join(ts, ',') == t + tail;
    TokenEndOf(t, tail);
    assert (t + tail)[|t|..] == tail;
    if |ts| > 1 {
      assert tail[1..] == rest;
      assert SkipSeparators(tail) == SkipSeparators(rest);
      assert SkipSeparators(rest) == rest;
    }
  }

  lemma {:induction false} JoinIsRead(table: seq<Flag>, ts: seq<string>, r: Result)
    requires AllNamed(table) && AllKnown(table, ts) && (Join(ts, ',') == "" || !IsSeparator(Join(ts, ',')[0]))
    ensures ReadTokens(table, Join(ts, ','), r) == Gather(table, ts, r)
    decreases |ts|
  {
    if ts != [] {
      assert IsToken(ts[0]) && Lookup(table, ts[0]).Some?;
      JoinSplits(ts);
      JoinBegins(ts[1..]);
      JoinIsRead(table, ts[1..], Include(r, Lookup(table, ts[0]), ""));
    }
  }

  /** Each flag is about one bit. */
  predicate SingleBit(f: Flag) {
    (f.off == {} && exists b <- f.on :: f.on == {b}) || (f.on == {} && exists b <- f.off :: f.off == {b})
  }

  /** No name can be taken for that of another flag. */
  predicate Unambiguous(table: seq<Flag>) {
    forall i, j :: 0 <= i < j < |table| ==>
      table[i].name != table[j].name && "no" + table[i].name != table[j].name && table[i].name != "no" + table[j].name
  }

  predicate GoodTable(table: seq<Flag>) {
    AllNamed(table) && Unambiguous(table) && forall f <- table :: SingleBit(f)
  }

  lemma {:induction false} LookupFinds(table: seq<Flag>, i: nat)
    requires AllNamed(table) && Unambiguous(table) && i < |table|
    ensures var f := table[i];
            Named(f) && Lookup(table, f.name) == Some((f.off, f.on)) && Lookup(table, f.name[2..]) == Some((f.on, f.off))
    decreases i
  {
    var f := table[i];
    assert Named(f) && f.name == "no" + f.name[2..];
    if i > 0 {
      var g := table[0];
      assert Named(g) && g.name == "no" + g.name[2..];
      assert table[1..][i - 1] == f;
      assert Unambiguous(table[1..]) by {
        forall a, b | 0 <= a < b < |table[1..]|
          ensures table[1..][a] == table[a + 1] && table[1..][b] == table[b + 1]
        {
        }
      }
      LookupFinds(table[1..], i - 1);
    }
  }

  /** The bits that the table knows. */
  function KnownBits(table: seq<Flag>): Mask {
    if table == [] then {} else table[0].Bits() + KnownBits(table[1..])
  }

  /** What the printed tokens say is set and cleared. */
  function Told(table: seq<Flag>, s: Mask, c: Mask): (Mask, Mask) {
    if table == [] then ({}, {})
    else
      var f := table[0];
      if f.IsSet(s, c) then
        var (on, off) := Told(table[1..], s - f.Bits(), c - f.Bits()); (f.on + on, f.off + off)
      else if f.IsCleared(s, c) then
        var (on, off) := Told(table[1..], s - f.Bits(), c - f.Bits()); (f.off + on, f.on + off)
      else Told(table[1..], s, c)
  }

  lemma {:induction false} TokensAreTold(table: seq<Flag>, i: nat, s: Mask, c: Mask, r: Result)
    requires AllNamed(table) && Unambiguous(table) && i <= |table|
    ensures AllKnown(table, Tokens(table[i..], s, c))
    ensures var (on, off) := Told(table[i..], s, c);
            Gather(table, Tokens(table[i..], s, c), r) == r.(on := r.on + on, off := r.off + off)
    decreases |table| - i
  {
    if i == |table| {
      assert r.on + {} == r.on && r.off + {} == r.off;
    } else {
      var f := table[i];
      LookupFinds(table, i);
      assert table[i..][1..] == table[i + 1..];
      if f.IsSet(s, c) {
        FirstIsTold(table, i, f.name[2..], f.on, f.off, s, c, r);
      } else if f.IsCleared(s, c) {
        FirstIsTold(table, i, f.name, f.off, f.on, s, c, r);
      } else {
        TokensAreTold(table, i + 1, s, c, r);
      }
    }
  }

  lemma {:induction false} FirstIsTold(table: seq<Flag>, i: nat, t: string, on: Mask, off: Mask, s: Mask, c: Mask, r: Result)
    requires AllNamed(table) && Unambiguous(table) && i < |table|
    requires Lookup(table, t) == Some((on, off)) && IsToken(t)
    ensures var (s', c') := (s - table[i].Bits(), c - table[i].Bits());
            var ts, told := [t] + Tokens(table[i + 1..], s', c'), Told(table[i + 1..], s', c');
            && AllKnown(table, ts)
            && Gather(table, ts, r) == r.(on := r.on + (on + told.0), off := r.off + (off + told.1))
    decreases |table| - i, 0
  {
    var s', c' := s - table[i].Bits(), c - table[i].Bits();
    var more, told := Tokens(table[i + 1..], s', c'), Told(table[i + 1..], s', c');
    var r' := r.(on := r.on + on, off := r.off + off);
    TokensAreTold(table, i + 1, s', c', r');
    assert ([t] + more)[1..] == more;
    assert r'.on + told.0 == r.on + (on + told.0) && r'.off + told.1 == r.off + (off + told.1);
  }

  /** No bit that is neither set nor cleared is told, none is told to be both,
      and every known one is told. */
  lemma {:induction false} ToldBits(table: seq<Flag>, s: Mask, c: Mask)
    requires forall f <- table :: SingleBit(f)
    ensures var (on, off) := Told(table, s, c);
            on <= s && off <= c && on !! off && on + off == (s + c) * KnownBits(table)
  {
    if table != [] {
      var f, rest := table[0], table[1..];
      assert SingleBit(f);
      var b :| f.Bits() == {b};
      if f.IsSet(s, c) || f.IsCleared(s, c) {
        SameFlags(f, s, c);
        ToldBits(rest, s - {b}, c - {b});
      } else {
        SameFlags(f, s, c);
        ToldBits(rest, s, c);
      }
    }
  }

  /** The text of two masks is read back, with no token failing, exactly when no
      known bit is in both; bits that the table does not know are lost. */
  lemma RoundTrip(table: seq<Flag>, s: Mask, c: Mask)
    requires GoodTable(table) && (s + c) * KnownBits(table) != {}
    ensures Print(table, s, c).Some?
    ensures Read(table, Print(table, s, c).value) == Result(s * KnownBits(table), c * KnownBits(table), None)
            <==> s * c * KnownBits(table) == {}
  {
    var (on, off) := Told(table, s, c);
    var known := KnownBits(table);
    ToldBits(table, s, c);
    assert table[0..] == table;
    TokensAreTold(table, 0, s, c, Result({}, {}, None));
    TokensFit(table, s, c);
    var ts := Tokens(table, s, c);
    JoinBegins(ts);
    JoinIsRead(table, ts, Result({}, {}, None));
    assert SkipSeparators(Join(ts, ',')) == Join(ts, ',');
    assert {} + on == on && {} + off == off;
    Exactly(on, off, s, c, known);
  }

  /** For one, a bit that is both set and cleared comes back as set only. */
  lemma BitInBoth(f: Flag)
    requires f == Flag("nodump", {0}, {})
    ensures GoodTable([f]) && Print([f], {0}, {0}) == Some("dump")
    ensures Read([f], "dump") == Result({0}, {}, None)
  {
    BothIsPrinted(f);
    BothIsRead(f);
  }

  lemma BothIsPrinted(f: Flag)
    requires f == Flag("nodump", {0}, {})
    ensures GoodTable([f]) && Print([f], {0}, {0}) == Some("dump")
  {
    assert f.name[2..] == "dump" && f.name[..2] == "no" && Named(f);
    assert [f][1..] == [] && 0 in {0} * f.on && 0 in ({0} + {0}) * f.Bits();
    assert Tokens([f], {0}, {0}) == ["dump"];
    JoinAppend([], "dump", ',');
  }

  lemma BothIsRead(f: Flag)
    requires f == Flag("nodump", {0}, {}) && Named(f)
    ensures Read([f], "dump") == Result({0}, {}, None)
  {
    var nothing: Result := Result({}, {}, None);
    assert f.name[2..] == "dump" && Join(["dump"], ',') == "dump";
    var none: Mask := {};
    assert none + {0} == {0} && none + none == none;
    assert Lookup([f], "dump") == Some(({0}, {})) && AllKnown([f], ["dump"]);
    JoinIsRead([f], ["dump"], nothing);
    assert SkipSeparators("dump") == "dump";
  }

  lemma Exactly(on: Mask, off: Mask, s: Mask, c: Mask, known: Mask)
    requires on <= s && off <= c && on !! off && on + off == (s + c) * known
    ensures on == s * known && off == c * known <==> s * c * known == {}
  {
    assert forall b :: b in on || b in off <==> b in on + off;
    if s * c * known == {} {
      forall b | b in known
        ensures !(b in s && b in c)
      {
        assert b in s && b in c ==> b in s * c * known;
      }
    } else {
      var b :| b in s * c * known;
      assert b in s * known && b in c * known;
    }
  }

  // ----- the program -----

  method ComputeLength(table: seq<Flag>, bitset: Mask, bitclear: Mask) returns (length: nat)
    ensures length == Length(table, bitset + bitclear)
  {
    var bits := bitset + bitclear;
    length := 0;
    var i := 0;
    while i < |table|
      invariant 0 <= i <= |table| && length + Length(table[i..], bits) == Length(table, bitset + bitclear)
    {
      assert table[i..][1..] == table[i + 1..];
      if bits * (table[i].on + table[i].off) != {} {
        length := length + |table[i].name| + 1;
        bits := bits - (table[i].on + table[i].off);
      }
      i := i + 1;
    }
  }

  lemma {:induction false} JoinPrefix(a: seq<string>, b: seq<string>)
    ensures |Join(a, ',')| <= |Join(a + b, ',')|
    decreases |b|
  {
    if b == [] {
      assert a + b == a;
    } else {
      JoinPrefix(a, b[..|b| - 1]);
      assert a + b == a + b[..|b| - 1] + [b[|b| - 1]];
      JoinAppend(a + b[..|b| - 1], b[|b| - 1], ',');
    }
  }

  /** The tokens in `got` are printed, those of the rest of the table not yet. */
  ghost predicate Printing(all: seq<string>, got: seq<string>, rest: seq<Flag>, s: Mask, c: Mask) {
    AllNamed(rest) && forall ask {:trigger Inspect(ask)} :: Inspect(ask) ==> all == got + Tokens(rest, s, c)
  }

  lemma PrintingStarts(table: seq<Flag>, s: Mask, c: Mask)
    requires AllNamed(table)
    ensures Printing(Tokens(table, s, c), [], table[0..], s, c)
  {
    assert table[0..] == table && [] + Tokens(table, s, c) == Tokens(table, s, c);
  }

  lemma PrintingEnds(all: seq<string>, got: seq<string>, s: Mask, c: Mask)
    requires Printing(all, got, [], s, c)
    ensures all == got
  {
    assert Inspect(true) && got + [] == got;
  }

  method AppendToken(buf: array<char>, p: nat, t: string, ghost all: seq<string>, ghost got: seq<string>)
      returns (q: nat)
    requires p < buf.Length && buf[..p] == Join(got, ',') && (p == 0 <==> got == [])
    requires got + [t] <= all && |Join(all, ',')| < buf.Length && t != ""
    modifies buf
    ensures 0 < q < buf.Length && buf[..q] == Join(got + [t], ',')
  {
    JoinAppend(got, t, ',');
    JoinPrefix(got + [t], all[|got| + 1..]);
    assert got + [t] + all[|got| + 1..] == all;
    q := p;
    if q > 0 {
      q := PutChar(buf, q, ',');
    }
    q := Put(buf, q, t);
  }

  /** What the printer does for one flag. */
  method PrintFlag(buf: array<char>, p: nat, table: seq<Flag>, i: nat, s: Mask, c: Mask,
                   ghost all: seq<string>, ghost got: seq<string>)
      returns (q: nat, s': Mask, c': Mask, ghost got': seq<string>)
    requires i < |table| && p < buf.Length && buf[..p] == Join(got, ',') && (p == 0 <==> got == [])
    requires Printing(all, got, table[i..], s, c) && |Join(all, ',')| < buf.Length
    modifies buf
    ensures q < buf.Length && buf[..q] == Join(got', ',') && (q == 0 <==> got' == [])
    ensures Printing(all, got', table[i + 1..], s', c')
  {
    assert Inspect(true);
    q, s', c', got' := p, s, c, got;
    var f := table[i];
    ghost var more := table[i..];
    assert more[0] == f && Named(f) && more[1..] == table[i + 1..];
    if f.IsSet(s, c) || f.IsCleared(s, c) {
      var t := if f.IsSet(s, c) then f.name[2..] else f.name;
      s', c' := s - (f.on + f.off), c - (f.on + f.off);
      assert all == got + [t] + Tokens(table[i + 1..], s', c');
      q := AppendToken(buf, p, t, all, got);
      got' := got + [t];
    }
  }

  method PrintInBuffer(table: seq<Flag>, set0: Mask, clear0: Mask) returns (text: Option<string>)
    requires AllNamed(table)
    ensures text == Print(table, set0, clear0)
  {
    var length := ComputeLength(table, set0, clear0);
    if length == 0 {
      return None;
    }
    ghost var all, got := Tokens(table, set0, clear0), [];
    assert |Join(all, ',')| < length by {
      PrintFits(table, set0, clear0);
    }
    var buf := new char[length];
    var bitset, bitclear := set0, clear0;
    var p: nat, i := 0, 0;
    PrintingStarts(table, set0, clear0);
    assert buf[..0] == Join([], ',');
    while i < |table|
      invariant 0 <= i <= |table| && p < buf.Length && buf[..p] == Join(got, ',') && (p == 0 <==> got == [])
      invariant Printing(all, got, table[i..], bitset, bitclear)
    {
      p, bitset, bitclear, got := PrintFlag(buf, p, table, i, bitset, bitclear, all, got);
      i := i + 1;
    }
    PrintingEnds(all, got, bitset, bitclear);
    buf[p] := '\0';
    text := Some(buf[..p]);
  }

  method FindFlag(table: seq<Flag>, t: string) returns (r: Option<(Mask, Mask)>)
    requires AllNamed(table)
    ensures r == Lookup(table, t)
  {
    var i := 0;
    while i < |table|
      invariant 0 <= i <= |table| && Lookup(table[i..], t) == Lookup(table, t)
    {
      var f := table[i];
      assert Named(f) && table[i..][1..] == table[i + 1..];
      if t == f.name {
        return Some((f.off, f.on));
      } else if t == f.name[2..] {
        return Some((f.on, f.off));
      }
      i := i + 1;
    }
    r := None;
  }

  method SkipFrom(s: string, i: nat) returns (j: nat)
    requires i <= |s|
    ensures i <= j <= |s| && s[j..] == SkipSeparators(s[i..])
  {
    j := i;
    while j < |s| && IsSeparator(s[j])
      invariant i <= j <= |s| && SkipSeparators(s[j..]) == SkipSeparators(s[i..])
    {
      assert s[j..][1..] == s[j + 1..];
      j := j + 1;
    }
  }

  method FindTokenEnd(s: string, i: nat) returns (j: nat)
    requires i <= |s|
    ensures i <= j <= |s| && j == i + TokenEnd(s[i..])
  {
    j := i;
    while j < |s| && !IsSeparator(s[j])
      invariant i <= j <= |s| && j + TokenEnd(s[j..]) == i + TokenEnd(s[i..])
    {
      assert s[j..][1..] == s[j + 1..];
      j := j + 1;
    }
  }

  function At(s: string, failed: Option<nat>): Option<string>
    requires failed.Some? ==> failed.value <= |s|
  {
    if failed.Some? then Some(s[failed.value..]) else None
  }

  /** One token. */
  method ReadFlag(table: seq<Flag>, s: string, start: nat, r: Result, failed: Option<nat>)
      returns (end: nat, r': Result, failed': Option<nat>)
    requires AllNamed(table) && start < |s| && !IsSeparator(s[start])
    requires (failed.Some? ==> failed.value <= |s|) && r.failed == At(s, failed)
    ensures start < end <= |s| && (end < |s| ==> !IsSeparator(s[end]))
    ensures (failed'.Some? ==> failed'.value <= |s|) && r'.failed == At(s, failed')
    ensures ReadTokens(table, s[start..], r) == ReadTokens(table, s[end..], r')
  {
    end := FindTokenEnd(s, start);
    assert s[start..][..end - start] == s[start..end] && s[start..][end - start..] == s[end..];
    var found := FindFlag(table, s[start..end]);
    r', failed' := r, failed;
    if found.Some? {
      r' := r.(on := r.on + found.value.0, off := r.off + found.value.1);
    } else if failed.None? {
      failed' := Some(start);
      r' := r.(failed := Some(s[start..]));
    }
    end := SkipFrom(s, end);
  }

  /** `failed` is the place of the first unknown token. */
  method ReadFlags(table: seq<Flag>, s: string) returns (on: Mask, off: Mask, failed: Option<nat>)
    requires AllNamed(table)
    ensures failed.Some? ==> failed.value <= |s|
    ensures Read(table, s) == Result(on, off, At(s, failed))
  {
    var r := Result({}, {}, None);
    failed := None;
    var start := SkipFrom(s, 0);
    assert s[0..] == s;
    while start < |s|
      invariant start <= |s| && (start < |s| ==> !IsSeparator(s[start]))
      invariant (failed.Some? ==> failed.value <= |s|) && r.failed == At(s, failed)
      invariant ReadTokens(table, s[start..], r) == Read(table, s)
    {
      start, r, failed := ReadFlag(table, s, start, r, failed);
    }
    on, off := r.on, r.off;
  }
}
