/** What the elements of a path pattern stand for, character by character, and
    when the matcher decides the language of a pattern. */
module PathLanguage {
  import opened Wrappers
  import opened PathClass
  import opened PathMatch
  import opened PathGlob

  // ----- the language -----

  /** Separators in the middle of a pattern: all there are, beginning with a slash,
      or none at the end of the subject. */
  predicate SlashRun(s: string, j: int) {
    Run(s, j) && (s != "" ==> s[0] == '/')
  }

  /** A final dot behind nothing but slashes. */
  predicate DotAlone(s: string) {
    |s| >= 2 && s[|s| - 1] == '.' && forall i :: 0 <= i < |s| - 1 ==> s[i] == '/'
  }

  /** Separators where a match begins: all there are, but not a final dot that is
      alone. */
  predicate FirstRun(s: string, j: int) {
    s != "" && s[0] == '/' && if DotAlone(s) then j == |s| - 1 else Run(s, j)
  }

  /** The elements stand for the first `k` characters of a text. */
  ghost predicate Stands(order: Order, es: seq<Elem>, s: string, k: int)
    requires 0 <= k <= |s|
    decreases |es|
  {
    if es == [] then k == 0
    else
      match es[0]
      case Star => exists j :: 0 <= j <= k && Stands(order, es[1..], s[j..], k - j)
      case Slash => exists j :: 0 <= j <= k && SlashRun(s, j) && Stands(order, es[1..], s[j..], k - j)
      case First => exists j :: 0 <= j <= k && FirstRun(s, j) && Stands(order, es[1..], s[j..], k - j)
      case Dot => Stands(order, es[1..], s, k)
      case End => |es| == 1 && k == 0 && AllSeparators(s)
      case _ => k > 0 && Fits(order, es[0], s[0]) && Stands(order, es[1..], s[1..], k - 1)
  }

  /** What may remain behind the elements: what always may; or anything, behind an
      anchor, or behind final separators without an anchor. */
  ghost predicate Leaves(flags: Flags, es: seq<Elem>, rest: string) {
    MayRemain(flags, rest) || (es != [] && (es[|es| - 1] == End || (es[|es| - 1] == Slash && flags.noAnchorEnd)))
  }

  /** The elements stand for a prefix, and the rest may remain. */
  ghost predicate Accepts(flags: Flags, es: seq<Elem>, s: string) {
    exists k :: 0 <= k <= |s| && Stands(flags.order, es, s, k) && Leaves(flags, es, s[k..])
  }

  ghost predicate AcceptsAny(flags: Flags, es: seq<Elem>, ts: seq<string>) {
    exists t <- ts :: Accepts(flags, es, t)
  }

  // ----- how subjects are accepted -----

  lemma {:induction false} AcceptsNothing(flags: Flags, s: string)
    ensures Accepts(flags, [], s) <==> MayRemain(flags, s)
  {
    assert s[0..] == s;
    if MayRemain(flags, s) {
      assert Stands(flags.order, [], s, 0);
    }
  }

  lemma {:induction false} AcceptsOne(flags: Flags, es: seq<Elem>, s: string)
    requires es != [] && One(es[0])
    ensures Accepts(flags, es, s) <==> s != "" && Fits(flags.order, es[0], s[0]) && Accepts(flags, es[1..], s[1..])
  {
    if k :| 0 <= k <= |s| && Stands(flags.order, es, s, k) && Leaves(flags, es, s[k..]) {
      assert s[k..] == s[1..][k - 1..];
    }
    if s != "" && Fits(flags.order, es[0], s[0]) && Accepts(flags, es[1..], s[1..]) {
      var k :| 0 <= k <= |s[1..]| && Stands(flags.order, es[1..], s[1..], k) && Leaves(flags, es[1..], s[1..][k..]);
      assert s[k + 1..] == s[1..][k..];
      assert Stands(flags.order, es, s, k + 1);
    }
  }

  lemma {:induction false} AcceptsStar(flags: Flags, es: seq<Elem>, s: string)
    requires es != [] && es[0] == Star
    ensures Accepts(flags, es, s) <==> exists j :: 0 <= j <= |s| && Accepts(flags, es[1..], s[j..])
  {
    if k :| 0 <= k <= |s| && Stands(flags.order, es, s, k) && Leaves(flags, es, s[k..]) {
      var j :| 0 <= j <= k && Stands(flags.order, es[1..], s[j..], k - j);
      assert s[j..][k - j..] == s[k..];
      assert Accepts(flags, es[1..], s[j..]);
    }
    if j :| 0 <= j <= |s| && Accepts(flags, es[1..], s[j..]) {
      var k :| 0 <= k <= |s[j..]| && Stands(flags.order, es[1..], s[j..], k) && Leaves(flags, es[1..], s[j..][k..]);
      assert s[j + k..] == s[j..][k..] && (j + k) - j == k;
      assert Stands(flags.order, es, s, j + k);
    }
  }

  /** Separators that end at a known place. */
  lemma {:induction false} AcceptsRun(flags: Flags, es: seq<Elem>, s: string, j: nat)
    requires es != [] && (es[0] == First || (es[0] == Slash && |es| > 1)) && j <= |s|
    requires forall i :: (if es[0] == Slash then SlashRun(s, i) else FirstRun(s, i)) <==> i == j
    ensures Accepts(flags, es, s) <==> Accepts(flags, es[1..], s[j..])
  {
    if k :| 0 <= k <= |s| && Stands(flags.order, es, s, k) && Leaves(flags, es, s[k..]) {
      RunIsPassed(flags, es, s, j, k);
    }
    if k :| 0 <= k <= |s| - j && Stands(flags.order, es[1..], s[j..], k) && Leaves(flags, es[1..], s[j..][k..]) {
      RunPasses(flags, es, s, j, k);
    }
  }

  lemma {:induction false} RunIsPassed(flags: Flags, es: seq<Elem>, s: string, j: nat, k: nat)
    requires es != [] && (es[0] == First || (es[0] == Slash && |es| > 1)) && j <= |s| && k <= |s|
    requires forall i :: (if es[0] == Slash then SlashRun(s, i) else FirstRun(s, i)) <==> i == j
    requires Stands(flags.order, es, s, k) && Leaves(flags, es, s[k..])
    ensures Accepts(flags, es[1..], s[j..])
  {
    assert |es| > 1 ==> es[1..][|es[1..]| - 1] == es[|es| - 1];
    assert s[j..][k - j..] == s[k..];
  }

  lemma {:induction false} RunPasses(flags: Flags, es: seq<Elem>, s: string, j: nat, k: nat)
    requires es != [] && (es[0] == First || (es[0] == Slash && |es| > 1)) && j + k <= |s|
    requires if es[0] == Slash then SlashRun(s, j) else FirstRun(s, j)
    requires Stands(flags.order, es[1..], s[j..], k) && Leaves(flags, es[1..], s[j..][k..])
    ensures Accepts(flags, es, s)
  {
    assert |es| > 1 ==> es[1..][|es[1..]| - 1] == es[|es| - 1];
    assert s[j + k..] == s[j..][k..] && (j + k) - j == k;
    assert Stands(flags.order, es, s, j + k);
  }

  lemma {:induction false} AcceptsNoRun(flags: Flags, es: seq<Elem>, s: string)
    requires es != [] && (es[0] == Slash || es[0] == First)
    requires forall i :: !(if es[0] == Slash then SlashRun(s, i) else FirstRun(s, i))
    ensures !Accepts(flags, es, s)
  {
  }

  lemma {:induction false} AcceptsLastSlash(flags: Flags, s: string, j: nat)
    requires j <= |s| && forall i :: SlashRun(s, i) <==> i == j
    ensures Accepts(flags, [Slash], s) <==> flags.noAnchorEnd || MayRemain(flags, s[j..])
  {
    var es := [Slash];
    assert es[1..] == [];
    if flags.noAnchorEnd || MayRemain(flags, s[j..]) {
      assert Stands(flags.order, [], s[j..], 0);
      assert Stands(flags.order, es, s, j);
    }
  }

  lemma {:induction false} SlashRunIs(s: string)
    ensures var j := |s| - |SlashSkip(s)|;
            0 <= j <= |s| && s[j..] == SlashSkip(s) && (s == "" || s[0] == '/' ==> forall i :: SlashRun(s, i) <==> i == j)
  {
    var j := |s| - |SlashSkip(s)|;
    SkipsRun(s);
    forall i | SlashRun(s, i)
      ensures i == j
    {
      RunIsUnique(s, i, j);
    }
  }

  lemma {:induction false} RunBehind(s: string, a: nat, b: int)
    requires a <= |s| && (forall i :: 0 <= i < a ==> s[i] == '/') && Run(s[a..], b)
    ensures Run(s, a + b)
  {
    forall i | 0 <= i < a + b
      ensures Separator(s, i)
    {
      if i >= a {
        assert Separator(s[a..], i - a);
      }
    }
    assert b < |s[a..]| ==> !Separator(s[a..], b);
  }

  lemma {:induction false} FirstRunIs(s: string, u: string, r: string)
    requires s != "" && s[0] == '/' && u == DropSlashes(s) && r == DropDot(u)
    ensures |r| <= |s| && s[|s| - |r|..] == r && forall i :: FirstRun(s, i) <==> i == |s| - |r|
  {
    DropsSlashes(s);
    DropDotIs(u);
    SuffixOfSuffix(s, |s| - |u|, |u| - |r|);
    FirstRunOf(s, u, r);
  }

  lemma {:induction false} SuffixOfSuffix(s: string, a: nat, b: nat)
    requires a + b <= |s|
    ensures s[a..][b..] == s[a + b..]
  {
  }

  lemma {:induction false} FirstRunOf(s: string, u: string, r: string)
    requires s != "" && s[0] == '/' && |r| <= |u| <= |s| && u == s[|s| - |u|..] && (u != "" ==> u[0] != '/')
    requires forall i :: 0 <= i < |s| - |u| ==> s[i] == '/'
    requires if DotSlash(u) then Run(u, |u| - |r|) else r == u
    ensures forall i :: FirstRun(s, i) <==> i == |s| - |r|
  {
    if u == "." {
      assert DotAlone(s);
    } else {
      assert !DotAlone(s);
      FirstRunEnds(s, |s| - |u|, |u| - |r|);
    }
  }

  lemma {:induction false} FirstRunEnds(s: string, a: nat, b: nat)
    requires 0 < a && a + b <= |s| && (forall i :: 0 <= i < a ==> s[i] == '/')
    requires (a < |s| ==> s[a] != '/') && s[a..] != "."
    requires if DotSlash(s[a..]) then Run(s[a..], b) else b == 0
    ensures forall i :: Run(s, i) <==> i == a + b
  {
    if !DotSlash(s[a..]) {
      assert Run(s[a..], 0);
    }
    RunBehind(s, a, b);
    forall i | Run(s, i)
      ensures i == a + b
    {
      RunIsUnique(s, i, a + b);
    }
  }

  /** No element right behind stars is an anchor or a "./", or, without an anchor
      at the start, fits a slash. */
  ghost predicate StarsStop(flags: Flags, es: seq<Elem>) {
    forall i :: 0 <= i < |es| - 1 && es[i] == Star ==>
      es[i + 1] == First || (One(es[i + 1])
                             && (flags.noAnchorStart ==> !Fits(flags.order, es[i + 1], '/')))
  }

  /** No element right behind stars fits a dot, or the subject has no "./". */
  ghost predicate DotsStop(order: Order, es: seq<Elem>, s: string) {
    || (forall i :: 0 <= i < |es| - 1 && es[i] == Star ==> !Fits(order, es[i + 1], '.'))
    || (forall i :: 0 <= i < |s| - 1 && s[i] == '.' ==> s[i + 1] != '/')
  }

  lemma {:induction false} StopBehind(flags: Flags, es: seq<Elem>, s: string, j: nat)
    requires es != [] && j <= |s| && StarsStop(flags, es) && DotsStop(flags.order, es, s)
    ensures StarsStop(flags, es[1..]) && DotsStop(flags.order, es[1..], s[j..])
  {
    assert forall i :: 0 <= i < |es| - 1 ==> es[1..][i] == es[i + 1];
    if forall i :: 0 <= i < |s| - 1 && s[i] == '.' ==> s[i + 1] != '/' {
      assert forall i :: 0 <= i < |s| - j ==> s[j..][i] == s[j + i];
    }
  }

  lemma {:induction false} AcceptsSlash(flags: Flags, es: seq<Elem>, s: string)
    requires es != [] && es[0] == Slash
    ensures Accepts(flags, es, s) <==>
            (s == "" || s[0] == '/') && ((|es| == 1 && flags.noAnchorEnd) || Accepts(flags, es[1..], SlashSkip(s)))
  {
    SlashRunIs(s);
    if s != "" && s[0] != '/' {
      AcceptsNoRun(flags, es, s);
    } else if |es| > 1 {
      AcceptsRun(flags, es, s, |s| - |SlashSkip(s)|);
    } else {
      assert es == [Slash] && es[1..] == [];
      AcceptsLastSlash(flags, s, |s| - |SlashSkip(s)|);
      AcceptsNothing(flags, SlashSkip(s));
    }
  }

  lemma {:induction false} AcceptsFirst(flags: Flags, es: seq<Elem>, s: string)
    requires es != [] && es[0] == First
    ensures Accepts(flags, es, s) <==> s != "" && s[0] == '/' && Accepts(flags, es[1..], DropDot(DropSlashes(s)))
  {
    if s != "" && s[0] == '/' {
      FirstRunIs(s, DropSlashes(s), DropDot(DropSlashes(s)));
      AcceptsRun(flags, es, s, |s| - |DropDot(DropSlashes(s))|);
    } else {
      AcceptsNoRun(flags, es, s);
    }
  }

  lemma {:induction false} AcceptsDot(flags: Flags, es: seq<Elem>, s: string)
    requires es != [] && es[0] == Dot
    ensures Accepts(flags, es, s) <==> Accepts(flags, es[1..], s)
  {
    assert |es| > 1 ==> es[1..][|es[1..]| - 1] == es[|es| - 1];
    if k :| 0 <= k <= |s| && Stands(flags.order, es[1..], s, k) && Leaves(flags, es[1..], s[k..]) {
      assert Stands(flags.order, es, s, k);
    }
  }

  lemma {:induction false} AcceptsEnd(flags: Flags, s: string)
    ensures Accepts(flags, [End], s) <==> AllSeparators(s)
  {
    if AllSeparators(s) {
      assert Stands(flags.order, [End], s, 0);
    }
  }

  // ----- what is taken is what is accepted -----

  /** The matcher finds all that is accepted. */
  ghost predicate Finds(flags: Flags, es: seq<Elem>, s: string) {
    StarsStop(flags, es) && DotsStop(flags.order, es, s)
  }

  /** Anchors come last. */
  predicate EndIsLast(es: seq<Elem>) {
    forall i :: 0 <= i < |es| - 1 ==> es[i] != End
  }

  /** What is taken is always accepted. What is accepted is taken if what may stand
      behind stars is found there. */
  lemma {:induction false} TakesIsAccepts(flags: Flags, es: seq<Elem>, s: string)
    requires EndIsLast(es)
    ensures Takes(flags, es, s) ==> Accepts(flags, es, s)
    ensures Finds(flags, es, s) && Accepts(flags, es, s) ==> Takes(flags, es, s)
    decreases |es|, 3
  {
    if es == [] {
      AcceptsNothing(flags, s);
    } else if es[0] == Star {
      StarTakesIsAccepts(flags, es, s);
    } else if es[0] == End {
      assert es == [End];
      AcceptsEnd(flags, s);
    } else if es[0] == Slash || es[0] == First || es[0] == Dot {
      SeparatorsTakeIsAccept(flags, es, s);
    } else {
      AcceptsOne(flags, es, s);
      if s != "" {
        RestTakesIsAccepts(flags, es, s, 1);
      }
    }
  }

  lemma {:induction false} SeparatorsTakeIsAccept(flags: Flags, es: seq<Elem>, s: string)
    requires EndIsLast(es) && es != [] && (es[0] == Slash || es[0] == First || es[0] == Dot)
    ensures Takes(flags, es, s) ==> Accepts(flags, es, s)
    ensures Finds(flags, es, s) && Accepts(flags, es, s) ==> Takes(flags, es, s)
    decreases |es|, 2
  {
    if es[0] == Slash {
      AcceptsSlash(flags, es, s);
      SlashRunIs(s);
      RestTakesIsAccepts(flags, es, s, |s| - |SlashSkip(s)|);
    } else if es[0] == First {
      AcceptsFirst(flags, es, s);
      if s != "" && s[0] == '/' {
        FirstRunIs(s, DropSlashes(s), DropDot(DropSlashes(s)));
        RestTakesIsAccepts(flags, es, s, |s| - |DropDot(DropSlashes(s))|);
      }
    } else {
      AcceptsDot(flags, es, s);
      assert s[0..] == s;
      RestTakesIsAccepts(flags, es, s, 0);
    }
  }

  lemma {:induction false} RestTakesIsAccepts(flags: Flags, es: seq<Elem>, s: string, j: nat)
    requires EndIsLast(es) && es != [] && j <= |s|
    ensures Takes(flags, es[1..], s[j..]) ==> Accepts(flags, es[1..], s[j..])
    ensures Finds(flags, es, s) && Accepts(flags, es[1..], s[j..]) ==> Takes(flags, es[1..], s[j..])
    decreases |es|, 1
  {
    EndBehind(es);
    TakesIsAccepts(flags, es[1..], s[j..]);
    if Finds(flags, es, s) {
      StopBehind(flags, es, s, j);
    }
  }

  lemma {:induction false} BegunIsBehind(e: Elem, s: string, q: nat) returns (j: nat)
    requires q <= |s|
    ensures j <= |s| && Begun(e, s[q..]) == s[j..]
  {
    j := q;
    if e != First {
      var k := DropDotAt(s[q..]);
      SuffixOfSuffix(s, q, k);
      j := q + k;
    }
  }

  lemma {:induction false} DropDotAt(s: string) returns (k: nat)
    ensures k <= |s| && DropDot(s) == s[k..]
  {
    DropDotIsSuffix(s);
    k := |s| - |DropDot(s)|;
  }

  /** Where something is accepted behind stars it is tried. */
  lemma {:induction false} AcceptedIsTried(flags: Flags, es: seq<Elem>, s: string, j: nat)
    requires |es| > 1 && es[0] == Star && Finds(flags, es, s) && j <= |s| && Accepts(flags, es[1..], s[j..])
    ensures MayBegin(flags, es[1], s, j) && Begun(es[1], s[j..]) == s[j..]
  {
    assert es[1..][0] == es[1];
    if es[1] == First {
      AcceptsFirst(flags, es[1..], s[j..]);
    } else {
      AcceptsOne(flags, es[1..], s[j..]);
    }
  }

  lemma EndBehind(es: seq<Elem>)
    requires EndIsLast(es) && es != []
    ensures EndIsLast(es[1..])
  {
    assert forall i :: 0 <= i < |es| - 1 ==> es[1..][i] == es[i + 1];
  }

  lemma {:induction false} StarTaken(flags: Flags, es: seq<Elem>, s: string, q: int)
    requires EndIsLast(es) && |es| > 1 && es[0] == Star
    requires MayBegin(flags, es[1], s, q) && Takes(flags, es[1..], Begun(es[1], s[q..]))
    ensures Accepts(flags, es, s)
    decreases |es|, 0
  {
    var j := BegunIsBehind(es[1], s, q);
    EndBehind(es);
    TakesIsAccepts(flags, es[1..], s[j..]);
    AcceptsStar(flags, es, s);
  }

  lemma {:induction false} StarAccepted(flags: Flags, es: seq<Elem>, s: string, j: nat)
    requires EndIsLast(es) && |es| > 1 && es[0] == Star && Finds(flags, es, s)
    requires j <= |s| && Accepts(flags, es[1..], s[j..])
    ensures MayBegin(flags, es[1], s, j) && Takes(flags, es[1..], Begun(es[1], s[j..]))
    decreases |es|, 0
  {
    AcceptedIsTried(flags, es, s, j);
    EndBehind(es);
    StopBehind(flags, es, s, j);
    TakesIsAccepts(flags, es[1..], s[j..]);
  }

  lemma {:induction false} StarTakesIsAccepts(flags: Flags, es: seq<Elem>, s: string)
    requires EndIsLast(es) && es != [] && es[0] == Star
    ensures Takes(flags, es, s) ==> Accepts(flags, es, s)
    ensures Finds(flags, es, s) && Accepts(flags, es, s) ==> Takes(flags, es, s)
    decreases |es|, 1
  {
    if |es| == 1 {
      AcceptsStar(flags, es, s);
      assert es[1..] == [];
      AcceptsNothing(flags, s[|s|..]);
    } else {
      if q :| MayBegin(flags, es[1], s, q) && Takes(flags, es[1..], Begun(es[1], s[q..])) {
        StarTaken(flags, es, s, q);
      }
      if Finds(flags, es, s) && Accepts(flags, es, s) {
        AcceptsStar(flags, es, s);
        var j :| 0 <= j <= |s| && Accepts(flags, es[1..], s[j..]);
        StarAccepted(flags, es, s, j);
      }
    }
  }

  // ----- when the matcher decides the language -----

  lemma {:induction false} ElemsStep(flags: Flags, p: string, start: bool)
    requires p != ""
    ensures var es := Elems(flags, p, start);
            es == [es[0]] + Elems(flags, Following(p, start), Begins(p, start)) && (es[0] == End ==> |es| == 1)
            && (es[0] == Star <==> Begins(p, start))
  {
  }

  lemma {:induction false} EndsComeLast(flags: Flags, p: string, start: bool)
    ensures EndIsLast(Elems(flags, p, start))
    decreases |p|
  {
    var es := Elems(flags, p, start);
    if p != "" && |es| > 1 {
      var begins, more := Begins(p, start), Following(p, start);
      ElemsStep(flags, p, start);
      EndsComeLast(flags, more, begins);
      EndPrepended(es[0], Elems(flags, more, begins));
    }
  }

  lemma EndPrepended(e: Elem, es: seq<Elem>)
    requires EndIsLast(es) && (e != End || es == [])
    ensures EndIsLast([e] + es)
  {
    assert forall i :: 0 < i < |[e] + es| ==> ([e] + es)[i] == es[i - 1];
  }

  /** Whatever the flags, nothing outside the language of a pattern matches. */
  lemma {:induction false} OnlyAcceptedMatches(p: string, s: string, flags: Flags)
    requires Caretless(p, true) && p != "" && Match(p, s, flags) == Yes
    ensures var es := Elems(flags, p, true); AcceptsAny(flags, es, Subjects(flags, es[0], s))
  {
    var es := Elems(flags, p, true);
    MatchDecides(p, s, flags);
    EndsComeLast(flags, p, true);
    var t :| t in Subjects(flags, es[0], s) && Takes(flags, es, t);
    TakesIsAccepts(flags, es, t);
  }

  /** The matcher decides the language over the subjects that it tries, as long as
      none is overrun first, if what may stand behind stars is found there. */
  lemma {:induction false} LanguageDecides(p: string, s: string, flags: Flags)
    requires Caretless(p, true) && p != ""
    requires StarsStop(flags, Elems(flags, p, true)) && DotsStop(flags.order, Elems(flags, p, true), s)
    ensures var es := Elems(flags, p, true);
            Decided(Match(p, s, flags), AcceptsAny(flags, es, Subjects(flags, es[0], s)),
                    OverrunsAny(flags, es, Subjects(flags, es[0], s)))
  {
    var es := Elems(flags, p, true);
    MatchDecides(p, s, flags);
    EndsComeLast(flags, p, true);
    forall t <- Subjects(flags, es[0], s)
      ensures Takes(flags, es, t) <==> Accepts(flags, es, t)
    {
      var j := SubjectIsSuffix(flags, es[0], s, t);
      DotsStopBehind(flags.order, es, s, j);
      TakesIsAccepts(flags, es, t);
    }
  }

  lemma {:induction false} DotsStopBehind(order: Order, es: seq<Elem>, s: string, j: nat)
    requires j <= |s| && DotsStop(order, es, s)
    ensures DotsStop(order, es, s[j..])
  {
    if forall i :: 0 <= i < |s| - 1 && s[i] == '.' ==> s[i + 1] != '/' {
      assert forall i :: 0 <= i < |s| - j ==> s[j..][i] == s[j + i];
    }
  }

  lemma {:induction false} SubjectIsSuffix(flags: Flags, e: Elem, s: string, t: string) returns (j: nat)
    requires t in Subjects(flags, e, s)
    ensures j <= |s| && t == s[j..]
  {
    if e == Star {
      j := StarSubject(s, DropSlashes(s), t);
    } else {
      InSubjects(flags, e, s, t);
      var q :| AtOnce(flags, e, s, q) && 0 <= q <= |s| && t == Begun(e, s[q..]);
      j := BegunIsBehind(e, s, q);
    }
  }

  lemma {:induction false} StarSubject(s: string, u: string, r: string) returns (j: nat)
    requires u == DropSlashes(s) && r == DropDot(u)
    ensures j <= |s| && r == s[j..]
  {
    var a := DropSlashesAt(s);
    var k := DropDotAt(s[a..]);
    SuffixOfSuffix(s, a, k);
    j := a + k;
  }

  lemma {:induction false} DropSlashesAt(s: string) returns (k: nat)
    ensures k <= |s| && DropSlashes(s) == s[k..]
  {
    DropsSlashes(s);
    k := |s| - |DropSlashes(s)|;
  }

  // ----- when no subject is overrun -----

  /** The subject may run out before a class that matches the terminator, along
      any way. */
  ghost predicate Reaches(flags: Flags, es: seq<Elem>, s: string)
    decreases |es|
  {
    if es == [] then false
    else
      match es[0]
      case Star => |es| > 1 && exists q :: MayBegin(flags, es[1], s, q) && Reaches(flags, es[1..], Begun(es[1], s[q..]))
      case First => s != "" && s[0] == '/' && Reaches(flags, es[1..], DropDot(DropSlashes(s)))
      case Slash => (s == "" || s[0] == '/') && Reaches(flags, es[1..], SlashSkip(s))
      case Dot => Reaches(flags, es[1..], s)
      case End => false
      case _ =>
        if s == "" then TakesTerminator(flags.order, es[0])
        else Fits(flags.order, es[0], s[0]) && Reaches(flags, es[1..], s[1..])
  }

  ghost predicate ReachesAny(flags: Flags, es: seq<Elem>, ts: seq<string>) {
    exists t <- ts :: Reaches(flags, es, t)
  }

  /** No stars right behind stars. */
  predicate StarsApart(es: seq<Elem>) {
    forall i :: 0 <= i < |es| - 1 && es[i] == Star ==> es[i + 1] != Star
  }

  lemma {:induction false} OverrunIsReached(flags: Flags, es: seq<Elem>, s: string)
    requires StarsApart(es) && Overruns(flags, es, s)
    ensures Reaches(flags, es, s)
    decreases |es|, 0
  {
    assert forall i :: 0 <= i < |es| - 1 ==> es[1..][i] == es[i + 1];
    match es[0]
    case Star =>
      var t := OverrunAnyIsReached(flags, es[1..], Tries(flags, es[1], s));
      InTries(flags, es[1], s, t);
    case First => OverrunIsReached(flags, es[1..], DropDot(DropSlashes(s)));
    case Slash => OverrunIsReached(flags, es[1..], SlashSkip(s));
    case Dot => OverrunIsReached(flags, es[1..], s);
    case End =>
    case _ =>
      if s != "" {
        OverrunIsReached(flags, es[1..], s[1..]);
      }
  }

  lemma {:induction false} OverrunAnyIsReached(flags: Flags, es: seq<Elem>, ts: seq<string>) returns (t: string)
    requires StarsApart(es) && OverrunsAny(flags, es, ts)
    ensures t in ts && Reaches(flags, es, t)
    decreases |es|, |ts| + 1
  {
    if Overruns(flags, es, ts[0]) {
      t := ts[0];
      OverrunIsReached(flags, es, t);
    } else {
      t := OverrunAnyIsReached(flags, es, ts[1..]);
    }
  }

  lemma {:induction false} StarsAreApart(flags: Flags, p: string, start: bool)
    ensures StarsApart(Elems(flags, p, start))
    decreases |p|
  {
    var es := Elems(flags, p, start);
    if p != "" && |es| > 1 {
      var begins, more := Begins(p, start), Following(p, start);
      ElemsStep(flags, p, start);
      StarsAreApart(flags, more, begins);
      if begins && more != "" {
        NoStarFirst(flags, more);
      }
      ApartPrepended(es[0], Elems(flags, more, begins));
    }
  }

  lemma ApartPrepended(e: Elem, es: seq<Elem>)
    requires StarsApart(es) && (e == Star && es != [] ==> es[0] != Star)
    ensures StarsApart([e] + es)
  {
    assert forall i :: 0 < i < |[e] + es| ==> ([e] + es)[i] == es[i - 1];
  }

  /** Where no class that matches the terminator can be reached at the end of a
      subject, the matcher simply decides the language. */
  lemma {:induction false} MatchIsLanguage(p: string, s: string, flags: Flags)
    requires Caretless(p, true) && p != ""
    requires StarsStop(flags, Elems(flags, p, true)) && DotsStop(flags.order, Elems(flags, p, true), s)
    requires !ReachesAny(flags, Elems(flags, p, true), Subjects(flags, Elems(flags, p, true)[0], s))
    ensures var es := Elems(flags, p, true);
            Match(p, s, flags) == Answer(AcceptsAny(flags, es, Subjects(flags, es[0], s)))
  {
    var es := Elems(flags, p, true);
    LanguageDecides(p, s, flags);
    StarsAreApart(flags, p, true);
    if OverrunsAny(flags, es, Subjects(flags, es[0], s)) {
      var t := OverrunAnyIsReached(flags, es, Subjects(flags, es[0], s));
    }
  }
}
