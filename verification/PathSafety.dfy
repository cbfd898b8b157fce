/** When the path matcher reads past the terminator of its subject. */
module PathSafety {
  import opened Wrappers
  import opened PathClass
  import opened PathMatch
  import opened PathGlob

  /** No class of the pattern matches the terminator. */
  ghost predicate Harmless(order: Order, p: string)
    decreases |p|
  {
    if p == "" then true
    else if IsClass(p) then !ClassMatches(order, ClassBody(p), '\0') && Harmless(order, p[|ClassBody(p)| + 2..])
    else if p[0] == '\\' && |p| > 1 then Harmless(order, p[2..])
    else Harmless(order, p[1..])
  }

  /** The pattern behind its first element. */
  function Rest(p: string): (r: string)
    requires p != ""
    ensures |r| < |p|
  {
    if IsClass(p) then p[|ClassBody(p)| + 2..] else if p[0] == '\\' && |p| > 1 then p[2..] else p[1..]
  }

  lemma HarmlessRest(order: Order, p: string)
    requires Harmless(order, p) && p != ""
    ensures Harmless(order, Rest(p)) && (IsClass(p) ==> !ClassMatches(order, ClassBody(p), '\0'))
  {
  }

  lemma {:induction false} HarmlessSkips(order: Order, p: string)
    requires Harmless(order, p)
    ensures Harmless(order, SlashSkip(p)) && Harmless(order, DropStars(p)) && Harmless(order, DropSlashes(p))
  {
    if p != "" && (p[0] == '/' || p[0] == '.' || p[0] == '*') {
      HarmlessRest(order, p);
      HarmlessSkips(order, p[1..]);
    }
  }

  lemma {:induction false} PmFromStays(p: string, s: string, flags: Flags)
    requires Harmless(flags.order, p)
    ensures PmFrom(p, s, flags) != Overrun
    decreases |p|, 1, 0
  {
    if p != "" {
      HarmlessRest(flags.order, p);
      HarmlessSkips(flags.order, p);
      if p[0] == '*' {
        if DropStars(p) != "" {
          TryStays(DropStars(p), s, flags);
        }
      } else if p[0] == '/' {
        PmFromStays(SlashSkip(p), SlashSkip(s), flags);
      } else if s != "" {
        PmFromStays(Rest(p), s[1..], flags);
      }
    }
  }

  lemma {:induction false} PmStays(p: string, s: string, flags: Flags)
    requires Harmless(flags.order, p)
    ensures Pm(p, s, flags) != Overrun
    decreases |p|, 2, 0
  {
    if |p| >= 2 && p[0] == '.' && p[1] == '/' {
      HarmlessRest(flags.order, p);
      HarmlessSkips(flags.order, p[1..]);
    }
    PmFromStays(DropDot(p), DropDot(s), flags);
  }

  lemma {:induction false} TryStays(p: string, s: string, flags: Flags)
    requires Harmless(flags.order, p)
    ensures Try(p, s, flags) != Overrun
    decreases |p|, 6, |s|
  {
    if s != "" {
      NeverOverruns(p, s, flags);
      TryStays(p, s[1..], flags);
    }
  }

  lemma {:induction false} TryRestStays(p: string, s: string, flags: Flags)
    requires Harmless(flags.order, p)
    ensures TryRest(p, s, flags) != Overrun
    decreases |p|, 3, |s|
  {
    PmStays(p, s, flags);
    if BehindSlash(s).Some? {
      TryRestStays(p, BehindSlash(s).value, flags);
    }
  }

  /** If no class of a pattern matches the terminator, no subject is overrun,
      whatever the flags. */
  lemma {:induction false} NeverOverruns(p: string, s: string, flags: Flags)
    requires Harmless(flags.order, p)
    ensures Match(p, s, flags) != Overrun
    decreases |p|, 5, 0
  {
    if p != "" {
      HarmlessRest(flags.order, p);
      var p' := if p[0] == '^' then p[1..] else p;
      var flags' := if p[0] == '^' then flags.(noAnchorStart := false) else flags;
      HarmlessSkips(flags.order, p');
      if p' != "" && (p'[0] == '*' || p'[0] == '/') {
        PmStays(DropSlashes(p'), DropSlashes(s), flags');
      } else if flags'.noAnchorStart {
        TryRestStays(p', if s != "" && s[0] == '/' then s[1..] else s, flags');
      } else {
        PmStays(p', s, flags');
      }
    }
  }

  /** If one does, there is a pattern and a subject that is: the class alone, and
      nothing. */
  lemma ClassOverruns(body: string, flags: Flags)
    requires ClassEnd(body + "]") == |body| && Complete(body) && ClassMatches(flags.order, body, '\0')
    ensures Match("[" + body + "]", "", flags) == Overrun
  {
    var p := "[" + body + "]";
    assert p[1..] == body + "]" && p[1..][..|body|] == body;
    assert IsClass(p) && ClassBody(p) == body;
    assert DropDot(p) == p && DropDot("") == "";
    assert Pm(p, "", flags) == Overrun;
    assert TryRest(p, "", flags) == Overrun;
  }

  /** A class need not be negated for that: with signed characters a range from a
      byte above 127 to one below goes up through the terminator. */
  lemma SignedRangeOverruns(lo: char, hi: char, flags: Flags)
    requires 128 <= lo as int < 256 && 0 < hi as int < 128 && hi != '\\' && hi != ']' && flags.order == Signed
    ensures Match("[" + [lo, '-', hi] + "]", "", flags) == Overrun
  {
    var body := [lo, '-', hi];
    assert body[1..] == ['-', hi] && body[1..][1..] == [hi] && [hi][1..] == "";
    assert Complete("") && Complete([hi]) && Complete(['-', hi]) && Complete(body);
    assert Items("") == [] && Items(body) == [Range(lo, hi)] + Items("");
    assert Range(lo, hi) in Items(body) && Crosses(Signed, Range(lo, hi));
    TerminatorMatches(Signed, body);
    ClosedByBracket(lo, hi);
    ClassOverruns(body, flags);
  }

  lemma ClosedByBracket(lo: char, hi: char)
    requires lo != '\\' && lo != ']' && hi != '\\' && hi != ']'
    ensures ClassEnd([lo, '-', hi] + "]") == |[lo, '-', hi]|
  {
    var q := [lo, '-', hi] + "]";
    assert q[1..] == ['-', hi, ']'] && q[1..][1..] == [hi, ']'] && q[1..][1..][1..] == [']'];
    assert ClassEnd([']']) == 0 && ClassEnd([hi, ']']) == 1 && ClassEnd(['-', hi, ']']) == 2;
  }
}
