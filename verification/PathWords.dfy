/** What common patterns match: paths of plain words, anchored patterns and
    exclusions; and what a star may lose. */
module PathWords {
  import opened Wrappers
  import opened PathClass
  import opened PathMatch
  import opened PathGlob
  import opened PathSafety
  import opened PathLanguage

  // ----- paths of plain words -----

  /** A character that stands for itself. */
  predicate Plain(c: char) {
    c != '*' && c != '?' && c != '[' && c != '\\' && c != '/' && c != '^' && c != '$'
  }

  predicate IsWord(w: string) {
    w != "" && w != "." && forall c <- w :: Plain(c)
  }

  /** The words with a slash between neighbours, and perhaps one behind the last. */
  function Path(ws: seq<string>, slash: bool): (p: string)
    requires ws != []
  {
    ws[0] + if |ws| > 1 then "/" + Path(ws[1..], slash) else if slash then "/" else ""
  }

  /** The words stand in the subject in this order, with separators between
      neighbours, and the rest may remain. */
  ghost predicate WordsIn(flags: Flags, ws: seq<string>, s: string)
    requires ws != []
  {
    && ws[0] <= s
    && var u := s[|ws[0]|..];
       if |ws| == 1 then u == "" || (u[0] == '/' && (flags.noAnchorEnd || AllSeparators(u)))
       else u != "" && u[0] == '/' && exists k :: Run(u, k) && WordsIn(flags, ws[1..], u[k..])
  }

  /** The same behind a leading "./" and separators, if there is one. */
  ghost predicate WordsFrom(flags: Flags, ws: seq<string>, s: string)
    requires ws != []
  {
    if DotSlash(s) then exists k :: Run(s, k) && WordsIn(flags, ws, s[k..]) else WordsIn(flags, ws, s)
  }

  function Lits(w: string): (es: seq<Elem>)
    ensures |es| == |w|
  {
    seq(|w|, i requires 0 <= i < |w| => Lit(w[i]))
  }

  lemma {:induction false} PlainElem(flags: Flags, p: string)
    requires p != "" && Plain(p[0])
    ensures Elems(flags, p, false) == [Lit(p[0])] + Elems(flags, p[1..], false)
  {
  }

  lemma {:induction false} ElemsOfWord(flags: Flags, w: string, tail: string)
    requires forall c <- w :: Plain(c)
    ensures Elems(flags, w + tail, false) == Lits(w) + Elems(flags, tail, false)
  {
    if w == "" {
      assert w + tail == tail && Lits(w) + Elems(flags, tail, false) == Elems(flags, tail, false);
    } else {
      var p := w + tail;
      assert p[1..] == w[1..] + tail && p[0] == w[0] && Plain(p[0]);
      PlainElem(flags, p);
      ElemsOfWord(flags, w[1..], tail);
      LitsStep(w);
      Assoc([Lit(w[0])], Lits(w[1..]), Elems(flags, tail, false));
    }
  }

  lemma LitsStep(w: string)
    requires w != ""
    ensures Lits(w) == [Lit(w[0])] + Lits(w[1..])
  {
  }

  lemma {:induction false} Assoc<T>(a: seq<T>, b: seq<T>, c: seq<T>)
    ensures a + (b + c) == (a + b) + c
  {
  }

  lemma {:induction false} WordBegins(w: string, tail: string)
    requires IsWord(w) && (tail != "" ==> tail[0] == '/')
    ensures var p := w + tail; p[0] != '/' && p[0] != '*' && p[0] != '^' && !DotSlash(p) && !Separator(p, 0)
  {
    assert Plain(w[0]);
    if |w| > 1 {
      assert Plain(w[1]) && (w + tail)[1] == w[1];
    }
  }

  lemma {:induction false} PastSlash(p: string)
    requires p != "" ==> !Separator(p, 0)
    ensures SlashSkip("/" + p) == p
  {
    assert ("/" + p)[1..] == p && !Skippable(p);
  }

  lemma {:induction false} TakesWord(flags: Flags, w: string, es: seq<Elem>, s: string)
    ensures Takes(flags, Lits(w) + es, s) <==> w <= s && Takes(flags, es, s[|w|..])
  {
    if w == "" {
      assert Lits(w) + es == es && s[0..] == s;
    } else {
      var all := Lits(w) + es;
      assert all[1..] == Lits(w[1..]) + es;
      if s != "" {
        TakesWord(flags, w[1..], es, s[1..]);
        assert w <= s <==> w[0] == s[0] && w[1..] <= s[1..];
        assert w <= s ==> s[1..][|w| - 1..] == s[|w|..];
      }
    }
  }

  predicate AllWords(ws: seq<string>) {
    ws != [] && forall w <- ws :: IsWord(w)
  }

  /** What follows the first word. */
  function Tail(ws: seq<string>, slash: bool): (t: string)
    requires ws != []
    ensures t != "" ==> t[0] == '/'
  {
    if |ws| > 1 then "/" + Path(ws[1..], slash) else if slash then "/" else ""
  }

  lemma {:induction false} PathBegins(ws: seq<string>, slash: bool)
    requires AllWords(ws)
    ensures var p := Path(ws, slash);
            p != "" && p[0] != '/' && p[0] != '*' && p[0] != '^' && !DotSlash(p) && !Separator(p, 0)
  {
    assert IsWord(ws[0]) && Path(ws, slash) == ws[0] + Tail(ws, slash);
    WordBegins(ws[0], Tail(ws, slash));
  }

  lemma {:induction false} TailElems(flags: Flags, ws: seq<string>, slash: bool)
    requires AllWords(ws)
    ensures Elems(flags, Tail(ws, slash), false) ==
            if |ws| > 1 then [Slash] + Elems(flags, Path(ws[1..], slash), false) else if slash then [Slash] else []
  {
    if |ws| > 1 {
      assert IsWord(ws[1]) && AllWords(ws[1..]);
      PathBegins(ws[1..], slash);
      PastSlash(Path(ws[1..], slash));
    } else if slash {
      PastSlash("");
      assert "/" + "" == "/";
      assert [Slash] + [] == [Slash];
    }
  }

  lemma {:induction false} PathTakes(flags: Flags, ws: seq<string>, slash: bool, s: string)
    requires AllWords(ws)
    ensures Takes(flags, Elems(flags, Path(ws, slash), false), s) <==> WordsIn(flags, ws, s)
    decreases |ws|
  {
    var w, tail := ws[0], Tail(ws, slash);
    assert IsWord(w) && Path(ws, slash) == w + tail;
    ElemsOfWord(flags, w, tail);
    TakesWord(flags, w, Elems(flags, tail, false), s);
    TailElems(flags, ws, slash);
    if w <= s {
      var u := s[|w|..];
      if |ws| > 1 {
        assert AllWords(ws[1..]);
        SlashAndPath(flags, ws, slash, u);
      } else {
        LastTakes(flags, slash, u);
      }
    }
  }

  /** A slash behind the last word changes nothing. */
  lemma {:induction false} LastTakes(flags: Flags, slash: bool, u: string)
    ensures Takes(flags, if slash then [Slash] else [], u) <==> MayRemain(flags, u)
  {
    var es := [Slash];
    assert es[1..] == [];
    AllSkipped(u);
    assert Takes(flags, [], SlashSkip(u)) <==> SlashSkip(u) == "";
  }

  lemma {:induction false} SlashAndPath(flags: Flags, ws: seq<string>, slash: bool, u: string)
    requires |ws| > 1 && AllWords(ws) && AllWords(ws[1..])
    ensures Takes(flags, [Slash] + Elems(flags, Path(ws[1..], slash), false), u) <==>
            u != "" && u[0] == '/' && exists k :: Run(u, k) && WordsIn(flags, ws[1..], u[k..])
    decreases |ws|, 0
  {
    var more := Elems(flags, Path(ws[1..], slash), false);
    var es := [Slash] + more;
    assert es[1..] == more;
    PathBegins(ws[1..], slash);
    SlashTakes(flags, es, u);
    PathTakes(flags, ws[1..], slash, SlashSkip(u));
    assert IsWord(ws[1..][0]);
    WordsBehind(flags, ws[1..], u);
  }

  lemma {:induction false} SlashTakes(flags: Flags, es: seq<Elem>, u: string)
    requires |es| > 1 && es[0] == Slash
    ensures Takes(flags, es, u) <==> (u == "" || u[0] == '/') && Takes(flags, es[1..], SlashSkip(u))
  {
  }

  lemma {:induction false} WordsBehind(flags: Flags, ws: seq<string>, u: string)
    requires ws != [] && ws[0] != ""
    ensures (u == "" || u[0] == '/') && WordsIn(flags, ws, SlashSkip(u)) <==>
            u != "" && u[0] == '/' && exists k :: Run(u, k) && WordsIn(flags, ws, u[k..])
  {
    if u != "" {
      SkipsRun(u);
      WordsPast(flags, ws, u, SlashSkip(u));
    }
  }

  lemma {:induction false} WordsPast(flags: Flags, ws: seq<string>, u: string, r: string)
    requires ws != [] && |r| <= |u| && r == u[|u| - |r|..] && Run(u, |u| - |r|)
    ensures (exists k :: Run(u, k) && WordsIn(flags, ws, u[k..])) <==> WordsIn(flags, ws, r)
  {
    var j := |u| - |r|;
    if k :| Run(u, k) && WordsIn(flags, ws, u[k..]) {
      RunIsUnique(u, k, j);
    }
  }

  lemma {:induction false} WordsFromEntered(flags: Flags, ws: seq<string>, s: string)
    requires ws != []
    ensures WordsFrom(flags, ws, s) <==> WordsIn(flags, ws, DropDot(s))
  {
    DropDotIs(s);
    if DotSlash(s) {
      WordsPast(flags, ws, s, DropDot(s));
    }
  }

  lemma {:induction false} PathIsHarmless(order: Order, p: string)
    requires '[' !in p && '\\' !in p
    ensures Harmless(order, p)
  {
    if p != "" {
      assert p[0] in p && forall c <- p[1..] :: c in p;
      PathIsHarmless(order, p[1..]);
    }
  }

  lemma {:induction false} PathIsPlain(ws: seq<string>, slash: bool)
    requires AllWords(ws)
    ensures forall c <- Path(ws, slash) :: Plain(c) || c == '/'
    decreases |ws|
  {
    assert IsWord(ws[0]);
    if |ws| > 1 {
      assert AllWords(ws[1..]);
      PathIsPlain(ws[1..], slash);
    }
  }

  lemma {:induction false} PathElems(flags: Flags, ws: seq<string>, slash: bool)
    requires AllWords(ws)
    ensures var p := Path(ws, slash);
            && p != "" && Caretless(p, true) && Elems(flags, p, true) == Elems(flags, p, false)
            && Elems(flags, p, true)[0].Lit?
  {
    var p := Path(ws, slash);
    PathBegins(ws, slash);
    PathIsPlain(ws, slash);
    PlainIsCaretless(p);
    assert p[0] in p;
  }

  lemma {:induction false} PlainIsCaretless(p: string)
    requires forall c <- p :: Plain(c) || c == '/'
    ensures Caretless(p, false)
    decreases |p|
  {
    if p != "" {
      SkipsRun(p);
      assert p[0] in p;
      PlainIsCaretless(if p[0] == '/' then SlashSkip(p) else p[1..]);
    }
  }

  /** A pattern of plain words, with or without a final slash, matches a subject, or
      without an anchor at the start one of its path elements, exactly when the
      words stand there. */
  lemma {:induction false} WordsDecide(ws: seq<string>, slash: bool, s: string, flags: Flags)
    requires AllWords(ws)
    ensures Match(Path(ws, slash), s, flags) == Yes <==>
            if flags.noAnchorStart then exists k :: ElementStart(s, k) && WordsFrom(flags, ws, s[k..])
            else WordsFrom(flags, ws, s)
  {
    var p := Path(ws, slash);
    var es := Elems(flags, p, true);
    PathElems(flags, ws, slash);
    PathIsPlain(ws, slash);
    PathIsHarmless(flags.order, p);
    NeverOverruns(p, s, flags);
    MatchDecides(p, s, flags);
    forall t: string
      ensures Takes(flags, es, t) <==> WordsIn(flags, ws, t)
    {
      PathTakes(flags, ws, slash, t);
    }
    if flags.noAnchorStart {
      WordsSomewhere(flags, es, ws, s);
    } else {
      AnyOf(flags, es, DropDot(s));
      WordsFromEntered(flags, ws, s);
    }
  }

  lemma {:induction false} WordsSomewhere(flags: Flags, es: seq<Elem>, ws: seq<string>, s: string)
    requires ws != [] && forall t: string :: Takes(flags, es, t) <==> WordsIn(flags, ws, t)
    ensures TakesAny(flags, es, PathElements(s)) <==> exists k :: ElementStart(s, k) && WordsFrom(flags, ws, s[k..])
  {
    if TakesAny(flags, es, PathElements(s)) {
      var t :| t in PathElements(s) && Takes(flags, es, t);
      InPathElements(s, t);
      var k :| ElementStart(s, k) && t == DropDot(s[k..]);
      WordsFromEntered(flags, ws, s[k..]);
    }
    if k :| ElementStart(s, k) && WordsFrom(flags, ws, s[k..]) {
      WordsFromEntered(flags, ws, s[k..]);
      InPathElements(s, DropDot(s[k..]));
    }
  }

  // ----- anchors, exclusions, and what a star may lose -----

  /** A caret is an anchor at the start. */
  lemma CaretAnchors(p: string, s: string, flags: Flags)
    requires p != "" && p[0] != '^'
    ensures Match("^" + p, s, flags) == Match(p, s, flags.(noAnchorStart := false))
  {
    assert ("^" + p)[1..] == p;
  }

  /** Alone it matches what may remain, and a second one stands for itself. */
  lemma {:induction false} LoneCarets(p: string, s: string, flags: Flags)
    ensures Match("^", s, flags) == Answer(MayRemain(flags, DropDot(s)))
    ensures Match("^^" + p, s, flags) == Match("\\^" + p, s, flags.(noAnchorStart := false))
  {
    var anchored := flags.(noAnchorStart := false);
    var u := DropDot(s);
    assert "^"[1..] == "" && DropDot("") == "";
    assert Match("^", s, flags) == Pm("", s, anchored) == PmFrom("", u, anchored);
    AllSkipped(u);
    CaretIsPlain("^" + p, "\\^" + p, u, anchored);
    assert ("^^" + p)[1..] == "^" + p;
    assert Match("^^" + p, s, flags) == Pm("^" + p, s, anchored);
    assert Match("\\^" + p, s, anchored) == Pm("\\^" + p, s, anchored);
  }

  lemma {:induction false} CaretIsPlain(p: string, q: string, u: string, flags: Flags)
    requires p != "" && p[0] == '^' && |q| > 1 && q[0] == '\\' && q[1..] == p
    ensures DropDot(p) == p && DropDot(q) == q && PmFrom(p, u, flags) == PmFrom(q, u, flags)
  {
    assert q[1] == '^' && q[2..] == p[1..];
  }

  /** Behind stars it is an anchor for what follows. */
  lemma {:induction false} CaretBehindStar(p: string, s: string, flags: Flags)
    requires p != "" && p[0] != '^' && p[0] != '*'
    ensures Match("*^" + p, s, flags) == Match("*" + p, s, flags.(noAnchorStart := false))
  {
    var q, anchored := "^" + p, flags.(noAnchorStart := false);
    StarIsTry(q, s, flags);
    StarIsTry(p, s, anchored);
    assert "*^" + p == "*" + q;
    CaretIsTried(p, DropDot(DropSlashes(s)), flags);
  }

  lemma {:induction false} StarIsTry(p: string, s: string, flags: Flags)
    requires p != "" && p[0] != '*'
    ensures Match("*" + p, s, flags) == Try(p, DropDot(DropSlashes(s)), flags)
  {
    var q := "*" + p;
    assert q[1..] == p && DropStars(q) == p && DropSlashes(q) == q && DropDot(q) == q;
    assert Match(q, s, flags) == Pm(q, DropSlashes(s), flags);
  }

  lemma {:induction false} CaretIsTried(p: string, s: string, flags: Flags)
    requires p != "" && p[0] != '^'
    ensures Try("^" + p, s, flags) == Try(p, s, flags.(noAnchorStart := false))
    decreases |s|
  {
    if s != "" {
      CaretAnchors(p, s, flags);
      CaretIsTried(p, s[1..], flags);
    }
  }

  lemma {:induction false} EnteredStarts(s: string, k: int) returns (j: int)
    requires ElementStart(s, k)
    ensures k <= j <= |s| && s[j..] == DropDot(s[k..]) && (j < |s| ==> ElementStart(s, j))
  {
    j := BegunIsBehind(Star, s, k);
    if DotSlash(s[k..]) && j < |s| {
      var t := s[k..];
      DropDotIs(t);
      assert Run(t, j - k);
      assert Separator(t, j - k - 1) && t[j - k - 1] == s[j - 1];
    }
  }

  lemma {:induction false} TakesLetter(flags: Flags, es: seq<Elem>, b: char, u: string)
    requires es == [Lit(b)]
    ensures Takes(flags, es, u) <==> u != "" && u[0] == b && MayRemain(flags, u[1..])
  {
    assert es[1..] == [];
  }

  /** The letter stands at `j`, and what is behind it may remain. */
  ghost predicate LetterAt(flags: Flags, b: char, u: string, j: int) {
    0 <= j < |u| && u[j] == b && MayRemain(flags, u[j + 1..])
  }

  lemma {:induction false} StarLetterTaken(flags: Flags, es: seq<Elem>, b: char, u: string, q: int) returns (j: nat)
    requires es == [Lit(b)] && MayBegin(flags, Lit(b), u, q) && Takes(flags, es, Begun(Lit(b), u[q..]))
    ensures LetterAt(flags, b, u, j)
  {
    j := BegunIsBehind(Lit(b), u, q);
    TakesLetter(flags, es, b, u[j..]);
    assert u[j..][1..] == u[j + 1..];
  }

  lemma {:induction false} StarLetterTakes(flags: Flags, es: seq<Elem>, b: char, u: string, j: int)
    requires es == [Lit(b)] && b != '/' && b != '.' && LetterAt(flags, b, u, j)
    ensures MayBegin(flags, Lit(b), u, j) && Takes(flags, es, Begun(Lit(b), u[j..]))
  {
    assert u[j..][1..] == u[j + 1..] && Begun(Lit(b), u[j..]) == u[j..];
    TakesLetter(flags, es, b, u[j..]);
  }

  lemma {:induction false} StarTakes(flags: Flags, es: seq<Elem>, u: string)
    requires |es| > 1 && es[0] == Star
    ensures Takes(flags, es, u) <==>
            exists q :: MayBegin(flags, es[1], u, q) && Takes(flags, es[1..], Begun(es[1], u[q..]))
  {
  }

  lemma {:induction false} StarLetter(flags: Flags, es: seq<Elem>, b: char, u: string)
    requires b != '/' && b != '.' && es == [Star, Lit(b)]
    ensures Takes(flags, es, u) <==> exists j :: LetterAt(flags, b, u, j)
  {
    var last := es[1..];
    assert last == [Lit(b)] && es[1] == Lit(b);
    StarTakes(flags, es, u);
    if q :| MayBegin(flags, Lit(b), u, q) && Takes(flags, last, Begun(Lit(b), u[q..])) {
      var j := StarLetterTaken(flags, last, b, u, q);
    }
    if j :| LetterAt(flags, b, u, j) {
      StarLetterTakes(flags, last, b, u, j);
    }
  }

  lemma {:induction false} LetterStarLetter(flags: Flags, es: seq<Elem>, a: char, b: char, t: string)
    requires b != '/' && b != '.' && es == [Lit(a), Star, Lit(b)]
    ensures Takes(flags, es, t) <==> t != "" && t[0] == a && exists j :: LetterAt(flags, b, t[1..], j)
  {
    assert es[1..] == [Star, Lit(b)];
    if t != "" {
      StarLetter(flags, es[1..], b, t[1..]);
    }
  }

  lemma {:induction false} LetterBehind(flags: Flags, b: char, s: string, k: nat, j: int)
    requires k <= |s|
    ensures LetterAt(flags, b, s[k..], j) <==> 0 <= j && LetterAt(flags, b, s, k + j)
  {
    if 0 <= j < |s| - k {
      assert s[k..][j + 1..] == s[k + j + 1..] && s[k..][j] == s[k + j];
    }
  }

  lemma {:induction false} LettersElems(a: char, b: char, flags: Flags)
    requires Plain(a) && Plain(b) && a != '.'
    ensures var p := [a, '*', b];
            Elems(flags, p, true) == [Lit(a), Star, Lit(b)] && Caretless(p, true) && Harmless(flags.order, p)
  {
    var p := [a, '*', b];
    assert p[1..] == ['*', b] && ['*', b][1..] == [b] && [b][1..] == "";
    PlainElem(flags, p);
    assert Elems(flags, p, true) == Elems(flags, p, false);
    assert DropStars(['*', b]) == [b];
    LastLetter(b, flags);
    assert Elems(flags, ['*', b], false) == [Star] + Elems(flags, [b], true);
    PathIsHarmless(flags.order, p);
  }

  lemma {:induction false} LastLetter(b: char, flags: Flags)
    requires Plain(b)
    ensures Elems(flags, [b], true) == [Lit(b)] && Caretless([b], true)
  {
    var p := [b];
    assert p[1..] == "";
    PlainElem(flags, p);
    assert [Lit(b)] + [] == [Lit(b)];
  }

  /** The first letter stands first, and the second one further on. */
  ghost predicate LettersAt(flags: Flags, a: char, b: char, s: string, k: int, j: int) {
    0 <= k < j && k < |s| && s[k] == a && LetterAt(flags, b, s, j)
  }

  lemma {:induction false} LettersShift(flags: Flags, a: char, b: char, s: string, u: string)
    requires s != "" && u == s[1..]
    ensures (s[0] == a && exists j :: LetterAt(flags, b, u, j)) <==> exists j :: LettersAt(flags, a, b, s, 0, j)
  {
    if j :| LetterAt(flags, b, u, j) {
      LetterBehind(flags, b, s, 1, j);
      assert s[0] == a ==> LettersAt(flags, a, b, s, 0, j + 1);
    }
    if j :| LettersAt(flags, a, b, s, 0, j) {
      LetterBehind(flags, b, s, 1, j - 1);
    }
  }

  /** The letters are found in the element that begins at `k`, or further on. */
  lemma {:induction false} LettersSomewhere(flags: Flags, es: seq<Elem>, a: char, b: char, s: string)
    requires a != '.'
    requires forall t: string {:trigger Takes(flags, es, t)} ::
               Takes(flags, es, t) <==> t != "" && exists j :: LettersAt(flags, a, b, t, 0, j)
    ensures TakesAny(flags, es, PathElements(s)) <==>
            exists k, j :: ElementStart(s, k) && LettersAt(flags, a, b, s, k, j)
  {
    if TakesAny(flags, es, PathElements(s)) {
      var t :| t in PathElements(s) && Takes(flags, es, t);
      InPathElements(s, t);
      var i :| ElementStart(s, i) && t == DropDot(s[i..]);
      var k := EnteredStarts(s, i);
      var j :| LettersAt(flags, a, b, t, 0, j);
      LetterBehind(flags, b, s, k, j);
      assert LettersAt(flags, a, b, s, k, k + j);
    }
    if k, j :| ElementStart(s, k) && LettersAt(flags, a, b, s, k, j) {
      var t := s[k..];
      LetterBehind(flags, b, s, k, j - k);
      assert LettersAt(flags, a, b, t, 0, j - k);
      InPathElements(s, t);
      assert DropDot(t) == t;
    }
  }

  lemma {:induction false} LettersTake(flags: Flags, es: seq<Elem>, a: char, b: char, t: string)
    requires b != '/' && b != '.' && es == [Lit(a), Star, Lit(b)]
    ensures Takes(flags, es, t) <==> t != "" && exists j :: LettersAt(flags, a, b, t, 0, j)
  {
    LetterStarLetter(flags, es, a, b, t);
    if t != "" {
      LettersShift(flags, a, b, t, t[1..]);
    }
  }

  /** An element begins with one letter at `k`, and the same or another one ends
      with the other letter at `j`. */
  predicate Spans(a: char, b: char, s: string, k: int, j: int) {
    ElementStart(s, k) && k < j < |s| && s[k] == a && s[j] == b && (j + 1 == |s| || s[j + 1] == '/')
  }

  /** In an exclusion 'a*b' matches "foo/a1111/222b/bar": both anchors are off, and
      the star crosses slashes. */
  lemma {:induction false} ExclusionMatches(a: char, b: char, s: string, flags: Flags)
    requires Plain(a) && Plain(b) && a != '.' && b != '.' && flags.noAnchorStart && flags.noAnchorEnd
    ensures Match([a, '*', b], s, flags) == Yes <==>
            exists k, j :: Spans(a, b, s, k, j)
  {
    var p := [a, '*', b];
    LettersElems(a, b, flags);
    NeverOverruns(p, s, flags);
    MatchDecides(p, s, flags);
    ExclusionTakes(flags, Elems(flags, p, true), a, b, s);
  }

  lemma {:induction false} ExclusionTakes(flags: Flags, es: seq<Elem>, a: char, b: char, s: string)
    requires es == [Lit(a), Star, Lit(b)] && a != '.' && b != '/' && b != '.' && flags.noAnchorEnd
    ensures TakesAny(flags, es, PathElements(s)) <==>
            exists k, j :: Spans(a, b, s, k, j)
  {
    forall t: string
      ensures Takes(flags, es, t) <==> t != "" && exists j :: LettersAt(flags, a, b, t, 0, j)
    {
      LettersTake(flags, es, a, b, t);
    }
    LettersSomewhere(flags, es, a, b, s);
    LettersEnd(flags, a, b, s);
  }

  lemma {:induction false} LettersEnd(flags: Flags, a: char, b: char, s: string)
    requires flags.noAnchorEnd
    ensures (exists k, j :: ElementStart(s, k) && LettersAt(flags, a, b, s, k, j)) <==>
            exists k, j :: Spans(a, b, s, k, j)
  {
    if k, j :| ElementStart(s, k) && LettersAt(flags, a, b, s, k, j) {
      assert j + 1 < |s| ==> s[j + 1..][0] == s[j + 1];
      assert Spans(a, b, s, k, j);
    }
    if k, j :| Spans(a, b, s, k, j) {
      assert j + 1 < |s| ==> s[j + 1..][0] == s[j + 1];
      assert LettersAt(flags, a, b, s, k, j);
    }
  }

  /** A question mark right behind a star fits a slash, which is skipped there
      without an anchor: "x*?b" does not match "x/b" as it does with one. */
  lemma StarSkipsSlash(flags: Flags)
    requires !flags.noAnchorEnd
    ensures Match("x*?b", "x/b", flags) == Answer(!flags.noAnchorStart)
  {
    var p, s := "x*?b", "x/b";
    assert p[1..] == "*?b" && p[1..][1..] == "?b" && "?b"[1..] == "b" && "b"[1..] == "";
    assert s[1..] == "/b" && "/b"[1..] == "b";
    assert DropDot(p) == p && DropDot(s) == s && DropDot("?b") == "?b" && DropDot("/b") == "/b" && DropDot("b") == "b";
    assert DropDot("") == "" && DropStars("*?b") == "?b";
    assert BehindSlash("b") == None && BehindSlash("") == None;
    assert BehindSlash("/b") == Some("b") && BehindSlash(s) == Some("b");
    assert PmFrom("b", "", flags) == No && PmFrom("b", "b", flags) == Yes;
    assert PmFrom("?b", "b", flags) == No && PmFrom("?b", "/b", flags) == Yes && Pm("?b", "/b", flags) == Yes;
    assert Pm("?b", "b", flags) == No;
    if flags.noAnchorStart {
      assert TryRest("?b", "b", flags) == No;
      assert Match("?b", "/b", flags) == No && Match("?b", "b", flags) == No;
      assert Try("?b", "b", flags) == No;
      assert Try("?b", "/b", flags) == No;
      assert PmFrom("*?b", "/b", flags) == No;
      assert Pm(p, s, flags) == No;
      assert Pm(p, "b", flags) == No;
      assert TryRest(p, "b", flags) == No;
      assert TryRest(p, s, flags) == No;
    } else {
      assert Match("?b", "/b", flags) == Yes;
      assert Try("?b", "/b", flags) == Yes;
      assert PmFrom("*?b", "/b", flags) == Yes;
    }
  }
}
