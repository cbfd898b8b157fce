/** The language of path patterns, and that the matcher decides it. */
module PathGlob {
  import opened Wrappers
  import opened PathClass
  import opened PathMatch

  // ----- separators -----

  /** A separator: a slash, or a dot that is a path element by itself. */
  predicate Separator(s: string, i: nat)
    requires i < |s|
  {
    s[i] == '/' || (s[i] == '.' && (i + 1 == |s| || s[i + 1] == '/'))
  }

  /** The first `k` characters are separators, and no more. */
  predicate Run(s: string, k: int) {
    0 <= k <= |s| && (forall i :: 0 <= i < k ==> Separator(s, i)) && (k < |s| ==> !Separator(s, k))
  }

  /** What the matcher skips is a run of separators. */
  lemma {:induction false} SkipsRun(s: string)
    ensures var r := SlashSkip(s); r == s[|s| - |r|..] && Run(s, |s| - |r|)
  {
    if Skippable(s) {
      SkipsRun(s[1..]);
      assert forall i :: 0 <= i < |s[1..]| ==> (Separator(s[1..], i) <==> Separator(s, i + 1));
      assert forall i :: 1 <= i < |s| ==> (Separator(s, i) <==> Separator(s[1..], i - 1));
    }
  }

  lemma RunIsUnique(s: string, j: int, k: int)
    requires Run(s, j) && Run(s, k)
    ensures j == k
  {
  }

  ghost predicate AllSeparators(s: string) {
    Run(s, |s|)
  }

  predicate DotSlash(s: string) {
    |s| >= 2 && s[0] == '.' && s[1] == '/'
  }

  /** Where a path element begins, a leading "./" and the separators behind it are
      passed over. */
  lemma {:induction false} DropDotIs(s: string)
    ensures var r := DropDot(s);
            if DotSlash(s) then |r| < |s| && r == s[|s| - |r|..] && Run(s, |s| - |r|) && r == SlashSkip(s) else r == s
  {
    if DotSlash(s) {
      SkipsRun(s);
      assert SlashSkip(s) == SlashSkip(s[1..]);
    }
  }

  lemma {:induction false} DropDotIsSuffix(s: string)
    ensures |DropDot(s)| <= |s| && DropDot(s) == s[|s| - |DropDot(s)|..]
  {
    DropDotIs(s);
  }

  lemma {:induction false} DropsSlashes(s: string)
    ensures var r := DropSlashes(s); r == s[|s| - |r|..] && (r != "" ==> r[0] != '/')
    ensures forall i :: 0 <= i < |s| - |DropSlashes(s)| ==> s[i] == '/'
  {
    if s != "" && s[0] == '/' {
      DropsSlashes(s[1..]);
    }
  }

  // ----- patterns -----

  /** The elements of a pattern. Separators match separators: in the middle, or
      first where a match begins; a leading "./" matches nothing by itself; and a
      final dollar sign is an anchor when there is none at the end. */
  datatype Elem = Star | Any | Lit(c: char) | Class(body: string) | Slash | First | Dot | End

  /** The first element; `start` is where a match begins. */
  function Head(flags: Flags, p: string, start: bool): Elem
    requires p != ""
  {
    if start && p[0] == '/' then First
    else if start && DotSlash(p) then Dot
    else if p[0] == '*' then Star
    else if p[0] == '?' then Any
    else if IsClass(p) then Class(ClassBody(p))
    else if p[0] == '\\' && |p| > 1 then Lit(p[1])
    else if p[0] == '/' then Slash
    else if p == "$" && flags.noAnchorEnd then End
    else Lit(p[0])
  }

  /** The pattern behind its first element. */
  function Following(p: string, start: bool): (more: string)
    requires p != ""
    ensures |more| < |p|
  {
    if start && p[0] == '/' then DropDot(DropSlashes(p))
    else if start && DotSlash(p) then SlashSkip(p[1..])
    else if p[0] == '*' then DropStars(p)
    else if IsClass(p) then p[|ClassBody(p)| + 2..]
    else if p[0] == '\\' && |p| > 1 then p[2..]
    else if p[0] == '/' then SlashSkip(p)
    else p[1..]
  }

  /** A match begins behind the first element: it is a star. */
  predicate Begins(p: string, start: bool)
    requires p != ""
  {
    !(start && (p[0] == '/' || DotSlash(p))) && p[0] == '*'
  }

  function Elems(flags: Flags, p: string, start: bool): (es: seq<Elem>)
    ensures p == "" <==> es == []
    decreases |p|
  {
    if p == "" then [] else [Head(flags, p, start)] + Elems(flags, Following(p, start), Begins(p, start))
  }

  /** No caret where a match begins, at the start or behind stars. */
  predicate Caretless(p: string, start: bool)
    decreases |p|
  {
    p == "" || (!(start && p[0] == '^') && Caretless(Following(p, start), Begins(p, start)))
  }

  /** An element that takes one character. */
  predicate One(e: Elem) {
    e.Any? || e.Lit? || e.Class?
  }

  ghost predicate Fits(order: Order, e: Elem, c: char) {
    match e
    case Any => true
    case Lit(d) => c == d
    case Class(body) => Complete(body) && ClassMatches(order, body, c)
    case _ => false
  }

  // ----- what the matcher takes -----

  /** What may remain of a subject: nothing, or separators that begin with a slash,
      or without an anchor at the end anything that does. */
  ghost predicate MayRemain(flags: Flags, s: string) {
    s == "" || (s[0] == '/' && (flags.noAnchorEnd || AllSeparators(s)))
  }

  /** Where matching goes on behind stars: anywhere before the end; but without
      an anchor at the start, and unless separators come first, only where no
      slash stands, or right behind one. */
  predicate MayBegin(flags: Flags, e: Elem, s: string, q: int) {
    if flags.noAnchorStart && e != First then (0 <= q < |s| && s[q] != '/') || (0 < q <= |s| && s[q - 1] == '/')
    else 0 <= q < |s|
  }

  /** The subject where a match begins. */
  function Begun(e: Elem, s: string): (r: string)
    ensures |r| <= |s|
  {
    if e == First then s else DropDot(s)
  }

  /** Each element takes its characters, stars what lies before a place where
      matching may go on, and the rest may remain. */
  ghost predicate Takes(flags: Flags, es: seq<Elem>, s: string)
    decreases |es|
  {
    if es == [] then MayRemain(flags, s)
    else
      match es[0]
      case Star =>
        |es| == 1 || exists q :: MayBegin(flags, es[1], s, q) && Takes(flags, es[1..], Begun(es[1], s[q..]))
      case First => s != "" && s[0] == '/' && Takes(flags, es[1..], DropDot(DropSlashes(s)))
      case Slash => (s == "" || s[0] == '/') && ((|es| == 1 && flags.noAnchorEnd) || Takes(flags, es[1..], SlashSkip(s)))
      case Dot => Takes(flags, es[1..], s)
      case End => AllSeparators(s)
      case _ => s != "" && Fits(flags.order, es[0], s[0]) && Takes(flags, es[1..], s[1..])
  }

  ghost predicate TakesAny(flags: Flags, es: seq<Elem>, ts: seq<string>) {
    exists t <- ts :: Takes(flags, es, t)
  }

  /** The suffixes that begin here or behind a slash. */
  function ElementsFrom(s: string): seq<string>
    decreases |s|
  {
    match BehindSlash(s)
    case None => [s]
    case Some(t) => [s] + ElementsFrom(t)
  }

  function EnteredAll(ts: seq<string>): seq<string> {
    seq(|ts|, i requires 0 <= i < |ts| => DropDot(ts[i]))
  }

  /** The suffixes that begin a path element. */
  function PathElements(s: string): seq<string> {
    EnteredAll(ElementsFrom(if s != "" && s[0] == '/' then s[1..] else s))
  }

  /** The suffixes that the entry point tries, by the first element. */
  function Subjects(flags: Flags, e: Elem, s: string): seq<string> {
    match e
    case Star => [DropDot(DropSlashes(s))]
    case First => [s]
    case _ => if flags.noAnchorStart then PathElements(s) else [DropDot(s)]
  }

  /** Those that are tried behind stars, in order. */
  function Tries(flags: Flags, e: Elem, s: string): seq<string> {
    if s == "" then [] else Subjects(flags, e, s) + Tries(flags, e, s[1..])
  }

  // ----- when the subject is overrun -----

  /** At the end of the subject, the first element is a class that matches the
      terminator. */
  ghost predicate TakesTerminator(order: Order, e: Elem) {
    e.Class? && Complete(e.body) && ClassMatches(order, e.body, '\0')
  }

  /** The subject runs out before such a class, along a way that is tried. */
  ghost predicate Overruns(flags: Flags, es: seq<Elem>, s: string)
    decreases |es|, 0
  {
    if es == [] then false
    else
      match es[0]
      case Star => |es| > 1 && OverrunsAny(flags, es[1..], Tries(flags, es[1], s))
      case First => s != "" && s[0] == '/' && Overruns(flags, es[1..], DropDot(DropSlashes(s)))
      case Slash =>
        (s == "" || s[0] == '/') && !(|es| == 1 && flags.noAnchorEnd) && Overruns(flags, es[1..], SlashSkip(s))
      case Dot => Overruns(flags, es[1..], s)
      case End => false
      case _ =>
        if s == "" then TakesTerminator(flags.order, es[0])
        else Fits(flags.order, es[0], s[0]) && Overruns(flags, es[1..], s[1..])
  }

  /** The first subject that is overrun or taken is overrun. */
  ghost predicate OverrunsAny(flags: Flags, es: seq<Elem>, ts: seq<string>)
    decreases |es|, |ts| + 1
  {
    ts != [] && (Overruns(flags, es, ts[0]) || (!Takes(flags, es, ts[0]) && OverrunsAny(flags, es, ts[1..])))
  }

  // ----- the suffixes that are tried -----

  /** A path element begins here: at the start, unless with a slash, or behind a
      slash. */
  predicate ElementStart(s: string, k: int) {
    0 <= k <= |s| && if k == 0 then s == "" || s[0] != '/' else s[k - 1] == '/'
  }

  /** At the start or behind a slash. */
  predicate RestStart(s: string, k: int) {
    0 <= k <= |s| && (k > 0 ==> s[k - 1] == '/')
  }

  /** Behind the next slash begins a place, and none lies between. */
  lemma {:induction false} NextStart(s: string) returns (n: nat)
    ensures match BehindSlash(s)
            case None => forall k :: RestStart(s, k) ==> k == 0
            case Some(t) =>
              0 < n <= |s| && s[n - 1] == '/' && t == s[n..] && forall k :: RestStart(s, k) ==> k == 0 || k >= n
  {
    n := 0;
    if s != "" {
      if s[0] == '/' {
        n := 1;
      } else {
        n := NextStart(s[1..]);
        forall k | RestStart(s, k) && k > 0
          ensures k > 1 && RestStart(s[1..], k - 1)
        {
        }
        n := n + 1;
      }
    }
  }

  lemma {:induction false} Suffix<T>(s: seq<T>, a: nat, b: nat)
    requires a + b <= |s|
    ensures s[a..][b..] == s[a + b..]
  {
  }

  lemma StartBehind(s: string, n: nat, k: int)
    requires 0 < n <= k && RestStart(s, k)
    ensures RestStart(s[n..], k - n) && s[n..][k - n..] == s[k..]
  {
  }

  lemma StartBefore(s: string, n: nat, k: int)
    requires 0 < n <= |s| && s[n - 1] == '/' && RestStart(s[n..], k)
    ensures RestStart(s, k + n) && s[n..][k..] == s[k + n..]
  {
  }

  lemma {:induction false} StartIsElement(s: string, k: int)
    requires RestStart(s, k)
    ensures s[k..] in ElementsFrom(s)
    decreases |s|
  {
    if k == 0 {
      assert s[k..] == s;
    } else {
      var n := NextStart(s);
      StartBehind(s, n, k);
      StartIsElement(s[n..], k - n);
    }
  }

  lemma {:induction false} ElementIsStart(s: string, t: string) returns (k: int)
    requires t in ElementsFrom(s)
    ensures RestStart(s, k) && t == s[k..]
    decreases |s|
  {
    if t == s {
      k := 0;
    } else {
      var n := NextStart(s);
      k := ElementIsStart(s[n..], t);
      StartBefore(s, n, k);
      k := k + n;
    }
  }

  lemma {:induction false} ElementsBegin(s: string, u: string)
    ensures u in ElementsFrom(if s != "" && s[0] == '/' then s[1..] else s) <==>
            exists k :: ElementStart(s, k) && u == s[k..]
  {
    var d := if s != "" && s[0] == '/' then 1 else 0;
    assert s[0..] == s;
    if u in ElementsFrom(s[d..]) {
      var k := ElementIsStart(s[d..], u);
      assert ElementStart(s, k + d) && s[d..][k..] == s[k + d..];
    }
    if k :| ElementStart(s, k) && u == s[k..] {
      StartIsElement(s[d..], k - d);
      assert s[d..][k - d..] == s[k..];
    }
  }

  lemma {:induction false} EnteredFrom(us: seq<string>, t: string) returns (u: string)
    requires t in EnteredAll(us)
    ensures u in us && t == DropDot(u)
  {
    var i :| 0 <= i < |us| && t == EnteredAll(us)[i];
    u := us[i];
  }

  lemma {:induction false} EnteredIn(us: seq<string>, u: string)
    requires u in us
    ensures DropDot(u) in EnteredAll(us)
  {
    var i :| 0 <= i < |us| && us[i] == u;
    assert EnteredAll(us)[i] == DropDot(u);
  }

  /** They are the suffixes from the places where an element begins. */
  lemma {:induction false} InPathElements(s: string, t: string)
    ensures t in PathElements(s) <==> exists k :: ElementStart(s, k) && t == DropDot(s[k..])
  {
    if t in PathElements(s) {
      var u := EnteredFrom(ElementsFrom(if s != "" && s[0] == '/' then s[1..] else s), t);
      ElementsBegin(s, u);
    }
    if k :| ElementStart(s, k) && t == DropDot(s[k..]) {
      ElementsBegin(s, s[k..]);
      EnteredIn(ElementsFrom(if s != "" && s[0] == '/' then s[1..] else s), s[k..]);
    }
  }

  /** Where the entry point tries at once. */
  predicate AtOnce(flags: Flags, e: Elem, s: string, q: int) {
    if flags.noAnchorStart && e != First then ElementStart(s, q) else q == 0
  }

  lemma BeginStep(flags: Flags, e: Elem, s: string, q: int)
    requires s != "" && e != Star
    ensures MayBegin(flags, e, s, q) <==> AtOnce(flags, e, s, q) || MayBegin(flags, e, s[1..], q - 1)
    ensures MayBegin(flags, e, s[1..], q - 1) ==> 0 < q <= |s| && s[1..][q - 1..] == s[q..]
  {
  }

  /** The subjects at one place. */
  lemma InSubjects(flags: Flags, e: Elem, s: string, t: string)
    requires e != Star
    ensures t in Subjects(flags, e, s) <==> exists q :: AtOnce(flags, e, s, q) && 0 <= q <= |s| && t == Begun(e, s[q..])
  {
    InPathElements(s, t);
    assert s[0..] == s;
    if t in Subjects(flags, e, s) && !(flags.noAnchorStart && e != First) {
      assert AtOnce(flags, e, s, 0) && t == Begun(e, s[0..]);
    }
  }

  /** Behind stars all places where matching may go on are tried, and no others. */
  lemma {:induction false} InTries(flags: Flags, e: Elem, s: string, t: string)
    requires e != Star
    ensures t in Tries(flags, e, s) <==> exists q :: MayBegin(flags, e, s, q) && t == Begun(e, s[q..])
    decreases |s|
  {
    if t in Tries(flags, e, s) {
      var q := TryBegins(flags, e, s, t);
    }
    if q :| MayBegin(flags, e, s, q) && t == Begun(e, s[q..]) {
      BeginIsTried(flags, e, s, q);
    }
  }

  lemma {:induction false} TryBegins(flags: Flags, e: Elem, s: string, t: string) returns (q: int)
    requires e != Star && t in Tries(flags, e, s)
    ensures MayBegin(flags, e, s, q) && t == Begun(e, s[q..])
    decreases |s|
  {
    if t in Subjects(flags, e, s) {
      InSubjects(flags, e, s, t);
      q :| AtOnce(flags, e, s, q) && 0 <= q <= |s| && t == Begun(e, s[q..]);
      BeginStep(flags, e, s, q);
    } else {
      q := TryBegins(flags, e, s[1..], t);
      q := q + 1;
      BeginStep(flags, e, s, q);
    }
  }

  lemma {:induction false} BeginIsTried(flags: Flags, e: Elem, s: string, q: int)
    requires e != Star && MayBegin(flags, e, s, q)
    ensures Begun(e, s[q..]) in Tries(flags, e, s)
    decreases |s|
  {
    BeginStep(flags, e, s, q);
    if AtOnce(flags, e, s, q) {
      InSubjects(flags, e, s, Begun(e, s[q..]));
    } else {
      BeginIsTried(flags, e, s[1..], q - 1);
    }
  }

  /** So behind stars a pattern takes one of the suffixes that are tried. */
  lemma {:induction false} TakesTries(flags: Flags, es: seq<Elem>, s: string)
    requires es != [] && es[0] != Star
    ensures TakesAny(flags, es, Tries(flags, es[0], s)) <==>
            exists q :: MayBegin(flags, es[0], s, q) && Takes(flags, es, Begun(es[0], s[q..]))
  {
    if TakesAny(flags, es, Tries(flags, es[0], s)) {
      var t :| t in Tries(flags, es[0], s) && Takes(flags, es, t);
      InTries(flags, es[0], s, t);
    }
    if q :| MayBegin(flags, es[0], s, q) && Takes(flags, es, Begun(es[0], s[q..])) {
      InTries(flags, es[0], s, Begun(es[0], s[q..]));
    }
  }

  // ----- the outcome over several subjects -----

  /** An outcome is the one that these say. */
  ghost predicate Decided(r: Outcome, accepts: bool, overruns: bool) {
    r == if overruns then Overrun else Answer(accepts)
  }

  /** The first outcome other than no is taken. */
  lemma FirstOutcome(r: Outcome, rest: Outcome, a: bool, o: bool, a': bool, o': bool)
    requires Decided(r, a, o) && Decided(rest, a', o')
    ensures Decided(if r != No then r else rest, a || a', o || (!a && o'))
  {
  }

  lemma {:induction false} AnyOf(flags: Flags, es: seq<Elem>, t: string)
    ensures TakesAny(flags, es, [t]) <==> Takes(flags, es, t)
    ensures OverrunsAny(flags, es, [t]) <==> Overruns(flags, es, t)
  {
    assert t in [t] && [t][1..] == [];
  }

  lemma {:induction false} AnyConcat(flags: Flags, es: seq<Elem>, a: seq<string>, b: seq<string>)
    ensures TakesAny(flags, es, a + b) <==> TakesAny(flags, es, a) || TakesAny(flags, es, b)
    ensures OverrunsAny(flags, es, a + b) <==>
            OverrunsAny(flags, es, a) || (!TakesAny(flags, es, a) && OverrunsAny(flags, es, b))
    decreases |a|
  {
    assert forall t :: t in a + b <==> t in a || t in b;
    if a == [] {
      assert a + b == b;
    } else {
      AnyConcat(flags, es, a[1..], b);
      assert (a + b)[1..] == a[1..] + b;
      assert forall t :: t in a <==> t == a[0] || t in a[1..];
    }
  }

  /** What the outcome is over several subjects, one after the other. */
  ghost predicate DecidedOver(r: Outcome, flags: Flags, es: seq<Elem>, ts: seq<string>) {
    Decided(r, TakesAny(flags, es, ts), OverrunsAny(flags, es, ts))
  }

  lemma {:induction false} FirstOfAll(r: Outcome, rest: Outcome, flags: Flags, es: seq<Elem>,
                                      a: seq<string>, b: seq<string>)
    requires DecidedOver(r, flags, es, a) && DecidedOver(rest, flags, es, b)
    ensures DecidedOver(if r != No then r else rest, flags, es, a + b)
  {
    AnyConcat(flags, es, a, b);
    FirstOutcome(r, rest, TakesAny(flags, es, a), OverrunsAny(flags, es, a),
                 TakesAny(flags, es, b), OverrunsAny(flags, es, b));
  }

  // ----- the matcher decides it -----

  ghost predicate DecidedFrom(r: Outcome, flags: Flags, es: seq<Elem>, s: string) {
    Decided(r, Takes(flags, es, s), Overruns(flags, es, s))
  }

  lemma {:induction false} NothingMatches(s: string, flags: Flags)
    ensures DecidedFrom(PmFrom("", s, flags), flags, [], s)
  {
    if s != "" && s[0] == '/' {
      AllSkipped(s);
    }
  }

  lemma {:induction false} AllSkipped(s: string)
    ensures SlashSkip(s) == "" <==> AllSeparators(s)
  {
    SkipsRun(s);
    if AllSeparators(s) {
      RunIsUnique(s, |s|, |s| - |SlashSkip(s)|);
    }
  }

  /** An element that takes one character. */
  lemma {:induction false} OneMatches(p: string, s: string, flags: Flags, e: Elem, more: string)
    requires One(e)
    requires s != "" ==> PmFrom(p, s, flags) == if Fits(flags.order, e, s[0]) then PmFrom(more, s[1..], flags) else No
    requires s == "" ==> PmFrom(p, s, flags) == if TakesTerminator(flags.order, e) then Overrun else No
    requires s != "" && Fits(flags.order, e, s[0]) ==>
               DecidedFrom(PmFrom(more, s[1..], flags), flags, Elems(flags, more, false), s[1..])
    ensures DecidedFrom(PmFrom(p, s, flags), flags, [e] + Elems(flags, more, false), s)
  {
    assert ([e] + Elems(flags, more, false))[1..] == Elems(flags, more, false);
  }

  lemma {:induction false} SlashMatches(p: string, s: string, flags: Flags)
    requires p != "" && p[0] == '/' && !IsClass(p)
    requires DecidedFrom(PmFrom(SlashSkip(p), SlashSkip(s), flags), flags, Elems(flags, SlashSkip(p), false), SlashSkip(s))
    ensures DecidedFrom(PmFrom(p, s, flags), flags, [Slash] + Elems(flags, SlashSkip(p), false), s)
  {
    assert ([Slash] + Elems(flags, SlashSkip(p), false))[1..] == Elems(flags, SlashSkip(p), false);
  }

  lemma {:induction false} EndMatches(p: string, s: string, flags: Flags)
    requires p == "$" && flags.noAnchorEnd
    ensures DecidedFrom(PmFrom(p, s, flags), flags, [End], s)
  {
    AllSkipped(s);
  }

  lemma {:induction false} PmFromDecides(p: string, s: string, flags: Flags)
    requires Caretless(p, false)
    ensures DecidedFrom(PmFrom(p, s, flags), flags, Elems(flags, p, false), s)
    decreases |p|, 1, 0
  {
    if p == "" {
      NothingMatches(s, flags);
    } else if p[0] == '*' {
      StarDecides(p, s, flags);
    } else if p[0] == '/' {
      PmFromDecides(SlashSkip(p), SlashSkip(s), flags);
      SlashMatches(p, s, flags);
    } else if p == "$" && flags.noAnchorEnd {
      EndMatches(p, s, flags);
    } else {
      OneDecides(p, s, flags);
    }
  }

  lemma {:induction false} OneDecides(p: string, s: string, flags: Flags)
    requires Caretless(p, false) && p != "" && p[0] != '*' && p[0] != '/' && !(p == "$" && flags.noAnchorEnd)
    ensures DecidedFrom(PmFrom(p, s, flags), flags, Elems(flags, p, false), s)
    decreases |p|, 0, 0
  {
    var es := Elems(flags, p, false);
    var more := if IsClass(p) then p[|ClassBody(p)| + 2..] else if p[0] == '\\' && |p| > 1 then p[2..] else p[1..];
    assert es == [es[0]] + Elems(flags, more, false);
    if s != "" {
      PmFromDecides(more, s[1..], flags);
    }
    OneMatches(p, s, flags, es[0], more);
  }

  lemma {:induction false} StarDecides(p: string, s: string, flags: Flags)
    requires Caretless(p, false) && p != "" && p[0] == '*'
    ensures DecidedFrom(PmFrom(p, s, flags), flags, Elems(flags, p, false), s)
    decreases |p|, 0, 0
  {
    var rest := DropStars(p);
    var es := Elems(flags, rest, true);
    assert ([Star] + es)[1..] == es;
    if rest != "" {
      NoStarFirst(flags, rest);
      TryDecides(rest, s, flags);
      TakesTries(flags, es, s);
    }
  }

  lemma {:induction false} NoStarFirst(flags: Flags, p: string)
    requires p != ""
    ensures var e := Elems(flags, p, true)[0]; (e == Star <==> p[0] == '*') && (e == First <==> p[0] == '/')
  {
  }

  lemma {:induction false} TryDecides(p: string, s: string, flags: Flags)
    requires p != "" && p[0] != '*' && Caretless(p, true)
    ensures DecidedOver(Try(p, s, flags), flags, Elems(flags, p, true), Tries(flags, Elems(flags, p, true)[0], s))
    decreases |p|, 6, |s|
  {
    if s != "" {
      var es := Elems(flags, p, true);
      MatchDecides(p, s, flags);
      TryDecides(p, s[1..], flags);
      FirstOfAll(Match(p, s, flags), Try(p, s[1..], flags), flags, es,
                 Subjects(flags, es[0], s), Tries(flags, es[0], s[1..]));
    }
  }

  /** Where a match begins, but with separators. */
  lemma {:induction false} PmDecides(p: string, s: string, flags: Flags)
    requires p != "" && p[0] != '/' && Caretless(p, true)
    ensures DecidedOver(Pm(p, s, flags), flags, Elems(flags, p, true), [DropDot(s)])
    decreases |p|, 2, 0
  {
    PmFromDecides(DropDot(p), DropDot(s), flags);
    AnyOf(flags, Elems(flags, p, true), DropDot(s));
    if DotSlash(p) {
      assert DropDot(p) == SlashSkip(p) == SlashSkip(p[1..]);
      assert ([Dot] + Elems(flags, SlashSkip(p), false))[1..] == Elems(flags, SlashSkip(p), false);
    }
  }

  lemma {:induction false} TryRestDecides(p: string, s: string, flags: Flags)
    requires p != "" && p[0] != '/' && Caretless(p, true)
    ensures DecidedOver(TryRest(p, s, flags), flags, Elems(flags, p, true), EnteredAll(ElementsFrom(s)))
    decreases |p|, 3, |s|
  {
    PmDecides(p, s, flags);
    match BehindSlash(s)
    case None =>
      EnteredCons(s, []);
    case Some(t) =>
      TryRestDecides(p, t, flags);
      FirstOfAll(Pm(p, s, flags), TryRest(p, t, flags), flags, Elems(flags, p, true),
                 [DropDot(s)], EnteredAll(ElementsFrom(t)));
      EnteredCons(s, ElementsFrom(t));
  }

  lemma {:induction false} EnteredCons(s: string, ts: seq<string>)
    ensures EnteredAll([s] + ts) == [DropDot(s)] + EnteredAll(ts) && EnteredAll([]) == []
    ensures ts == [] ==> EnteredAll([s]) == [DropDot(s)]
  {
    assert ts == [] ==> [s] + ts == [s];
  }

  lemma {:induction false} FirstEntry(p: string, s: string, flags: Flags)
    requires p != "" && p[0] == '/'
    ensures Match(p, s, flags) == if s == "" || s[0] != '/' then No
                                  else PmFrom(DropDot(DropSlashes(p)), DropDot(DropSlashes(s)), flags)
  {
  }

  lemma {:induction false} FirstTakes(flags: Flags, es: seq<Elem>, s: string)
    requires es != [] && es[0] == First
    ensures Takes(flags, es, s) <==> s != "" && s[0] == '/' && Takes(flags, es[1..], DropDot(DropSlashes(s)))
    ensures Overruns(flags, es, s) <==> s != "" && s[0] == '/' && Overruns(flags, es[1..], DropDot(DropSlashes(s)))
  {
  }

  lemma {:induction false} FirstDecides(p: string, s: string, flags: Flags)
    requires p != "" && p[0] == '/' && Caretless(p, true)
    ensures DecidedOver(Match(p, s, flags), flags, Elems(flags, p, true), [s])
    decreases |p|, 3, 0
  {
    var more := DropDot(DropSlashes(p));
    var es := Elems(flags, p, true);
    AnyOf(flags, es, s);
    assert es[1..] == Elems(flags, more, false);
    FirstTakes(flags, es, s);
    FirstEntry(p, s, flags);
    PmFromDecides(more, DropDot(DropSlashes(s)), flags);
  }

  /** The outcome is exactly what the subjects that the entry point tries say: an
      overrun, if the first one that is overrun or taken is overrun, or else a
      match if one is taken. */
  lemma {:induction false} MatchDecides(p: string, s: string, flags: Flags)
    requires Caretless(p, true) && p != ""
    ensures var es := Elems(flags, p, true);
            Decided(Match(p, s, flags), TakesAny(flags, es, Subjects(flags, es[0], s)),
                    OverrunsAny(flags, es, Subjects(flags, es[0], s)))
    decreases |p|, 5, 0
  {
    NoStarFirst(flags, p);
    if p[0] == '/' {
      FirstDecides(p, s, flags);
    } else if p[0] == '*' {
      PmDecides(p, DropSlashes(s), flags);
    } else if flags.noAnchorStart {
      TryRestDecides(p, if s != "" && s[0] == '/' then s[1..] else s, flags);
    } else {
      PmDecides(p, s, flags);
    }
  }
}
