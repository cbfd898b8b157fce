/** The path matcher. A C string is the characters before its terminator. */
module PathMatch {
  import opened Wrappers
  import opened PathClass

  /** The two flags of a caller, and the order of characters, which the compiler
      chooses. */
  datatype Flags = Flags(noAnchorStart: bool, noAnchorEnd: bool, order: Order)

  /** A match can run past the terminator of the subject: a class can match the
      terminator itself. What happens then is undefined. */
  datatype Outcome = Yes | No | Overrun

  function Answer(b: bool): Outcome {
    if b then Yes else No
  }

  predicate Skippable(s: string) {
    s != "" && (s[0] == '/' || (s[0] == '.' && (|s| == 1 || s[1] == '/')))
  }

  function SlashSkip(s: string): (r: string)
    ensures |r| <= |s| && (Skippable(s) ==> |r| < |s|) && !Skippable(r)
  {
    if Skippable(s) then SlashSkip(s[1..]) else s
  }

  /** Without a leading "./". */
  function DropDot(s: string): (r: string)
    ensures |r| <= |s|
  {
    if |s| >= 2 && s[0] == '.' && s[1] == '/' then SlashSkip(s[1..]) else s
  }

  function DropStars(p: string): (r: string)
    ensures |r| <= |p| && (p != "" && p[0] == '*' ==> |r| < |p|) && (r != "" ==> r[0] != '*')
  {
    if p != "" && p[0] == '*' then DropStars(p[1..]) else p
  }

  function DropSlashes(p: string): (r: string)
    ensures |r| <= |p|
  {
    if p != "" && p[0] == '/' then DropSlashes(p[1..]) else p
  }

  /** Where a class body ends, or the length if no bracket ends it. */
  function ClassEnd(q: string): (n: nat)
    ensures n <= |q| && (n < |q| ==> q[n] == ']')
    decreases |q|
  {
    if q == "" || q[0] == ']' then 0
    else if q[0] == '\\' && |q| > 1 then 2 + ClassEnd(q[2..])
    else 1 + ClassEnd(q[1..])
  }

  lemma {:induction false} ClassIsComplete(q: string)
    requires ClassEnd(q) < |q|
    ensures Complete(q[..ClassEnd(q)])
    decreases |q|
  {
    var n := ClassEnd(q);
    if n > 0 {
      if q[0] == '\\' && |q| > 1 {
        ClassIsComplete(q[2..]);
        assert q[..n][2..] == q[2..][..n - 2];
      } else {
        ClassIsComplete(q[1..]);
        assert q[..n][1..] == q[1..][..n - 1];
      }
    }
  }

  /** The pattern begins with a closed class. */
  predicate IsClass(p: string) {
    p != "" && p[0] == '[' && ClassEnd(p[1..]) < |p| - 1
  }

  function ClassBody(p: string): (b: string)
    requires IsClass(p)
    ensures Complete(b) && |b| + 2 <= |p|
  {
    ClassIsComplete(p[1..]);
    p[1..][..ClassEnd(p[1..])]
  }

  lemma ShownIsSkipped(c: char, rest: string)
    ensures ClassEnd(Show(c) + rest) == |Show(c)| + ClassEnd(rest)
  {
    assert (Show(c) + rest)[|Show(c)|..] == rest;
  }

  lemma ItemIsSkipped(item: Item, rest: string)
    ensures ClassEnd(ShowItem(item) + rest) == |ShowItem(item)| + ClassEnd(rest)
  {
    match item
    case Single(c) => ShownIsSkipped(c, rest);
    case Range(lo, hi) =>
      var tail := "-" + (Show(hi) + rest);
      assert tail[1..] == Show(hi) + rest && ShowItem(item) + rest == Show(lo) + tail;
      ShownIsSkipped(hi, rest);
      ShownIsSkipped(lo, tail);
  }

  lemma {:induction false} ItemsAreSkipped(items: seq<Item>)
    ensures ClassEnd(ShowItems(items) + "]") == |ShowItems(items)|
  {
    if items != [] {
      var more := ShowItems(items[1..]);
      ItemsAreSkipped(items[1..]);
      ItemIsSkipped(items[0], more + "]");
      assert ShowItems(items) + "]" == ShowItem(items[0]) + (more + "]");
    }
  }

  lemma ClassIsSkipped(mark: string, items: seq<Item>)
    requires mark in {"", "!", "^"}
    ensures var b := ShowClass(mark, items); ClassEnd(b + "]") == |b|
  {
    ItemsAreSkipped(items);
    var shown, b := ShowItems(items), ShowClass(mark, items);
    if mark != "" {
      assert b + "]" == [mark[0]] + (shown + "]");
      assert ([mark[0]] + (shown + "]"))[1..] == shown + "]";
    } else {
      assert b == shown;
    }
  }

  /** Every class, of any items or of all but them, can be written in a pattern:
      its body is found whole. */
  lemma ShownClassIsFound(mark: string, items: seq<Item>, rest: string)
    requires mark in {"", "!", "^"}
    ensures var b := ShowClass(mark, items);
            IsClass("[" + b + "]" + rest) && ClassBody("[" + b + "]" + rest) == b
  {
    var b := ShowClass(mark, items);
    var p := "[" + b + "]" + rest;
    ClassIsSkipped(mark, items);
    EndIsFirst(b, rest);
    assert p[1..] == b + "]" + rest && p[1..][..|b|] == b;
  }

  /** What is behind the bracket that ends a class does not matter. */
  lemma {:induction false} EndIsFirst(q: string, rest: string)
    requires ClassEnd(q + "]") == |q|
    ensures ClassEnd(q + "]" + rest) == |q|
    decreases |q|
  {
    if q != "" {
      var n := if q[0] == '\\' && |q + "]"| > 1 then 2 else 1;
      assert (q + "]")[n..] == q[n..] + "]" && (q + "]" + rest)[n..] == q[n..] + "]" + rest;
      EndIsFirst(q[n..], rest);
    }
  }

  // ----- what the matcher computes -----

  ghost function Pm(p: string, s: string, flags: Flags): Outcome
    decreases |p|, 2, 0
  {
    PmFrom(DropDot(p), DropDot(s), flags)
  }

  /** The first characters are equal. */
  predicate SameFirst(c: char, s: string) {
    s != "" && s[0] == c
  }

  ghost function PmFrom(p: string, s: string, flags: Flags): Outcome
    decreases |p|, 1, 0
  {
    if p == "" then
      Answer(if s != "" && s[0] == '/' then flags.noAnchorEnd || SlashSkip(s) == "" else s == "")
    else if p[0] == '?' then
      if s == "" then No else PmFrom(p[1..], s[1..], flags)
    else if p[0] == '*' then
      var rest := DropStars(p);
      if rest == "" then Yes else Try(rest, s, flags)
    else if IsClass(p) then
      if s == "" then
        if ClassMatches(flags.order, ClassBody(p), '\0') then Overrun else No
      else if ClassMatches(flags.order, ClassBody(p), s[0]) then PmFrom(p[|ClassBody(p)| + 2..], s[1..], flags)
      else No
    else if p[0] == '\\' && |p| > 1 then
      if SameFirst(p[1], s) then PmFrom(p[2..], s[1..], flags) else No
    else if p[0] == '/' then
      if s != "" && s[0] != '/' then No
      else
        var p', s' := SlashSkip(p), SlashSkip(s);
        if p' == "" && flags.noAnchorEnd then Yes else PmFrom(p', s', flags)
    else if p == "$" && flags.noAnchorEnd then Answer(SlashSkip(s) == "")
    else if SameFirst(p[0], s) then PmFrom(p[1..], s[1..], flags)
    else No
  }

  /** The first of the suffixes but the empty one that has an answer other than no. */
  ghost function Try(p: string, s: string, flags: Flags): Outcome
    decreases |p|, 6, |s|
  {
    if s == "" then No
    else
      var r := Match(p, s, flags);
      if r != No then r else Try(p, s[1..], flags)
  }

  /** What is behind the next slash. */
  function BehindSlash(s: string): (r: Option<string>)
    ensures r.Some? ==> |r.value| < |s|
  {
    if s == "" then None else if s[0] == '/' then Some(s[1..]) else BehindSlash(s[1..])
  }

  /** The same over the suffixes that begin a path element. */
  ghost function TryElements(p: string, s: string, flags: Flags): Outcome
    decreases |p|, 4, 0
  {
    TryRest(p, if s != "" && s[0] == '/' then s[1..] else s, flags)
  }

  ghost function TryRest(p: string, s: string, flags: Flags): Outcome
    decreases |p|, 3, |s|
  {
    var r := Pm(p, s, flags);
    if r != No then r
    else
      match BehindSlash(s)
      case None => No
      case Some(t) => TryRest(p, t, flags)
  }

  /** The main entry point. */
  ghost function Match(p: string, s: string, flags: Flags): Outcome
    decreases |p|, 5, 0
  {
    if p == "" then Answer(s == "")
    else
      var p' := if p[0] == '^' then p[1..] else p;
      var flags' := if p[0] == '^' then flags.(noAnchorStart := false) else flags;
      if p' != "" && p'[0] == '/' && (s == "" || s[0] != '/') then No
      else if p' != "" && (p'[0] == '*' || p'[0] == '/') then Pm(DropSlashes(p'), DropSlashes(s), flags')
      else if flags'.noAnchorStart then TryElements(p', s, flags')
      else Pm(p', s, flags')
  }

  // ----- the matcher -----

  method SkipSlashes(s: string, i: nat) returns (j: nat)
    requires i <= |s|
    ensures i <= j <= |s| && s[j..] == SlashSkip(s[i..])
  {
    j := i;
    while j < |s| && (s[j] == '/' || (s[j] == '.' && (j + 1 == |s| || s[j + 1] == '/')))
      invariant i <= j <= |s| && SlashSkip(s[j..]) == SlashSkip(s[i..])
    {
      assert Skippable(s[j..]) && s[j..][1..] == s[j + 1..];
      j := j + 1;
    }
    assert !Skippable(s[j..]);
  }

  method SkipDot(s: string, i: nat) returns (j: nat)
    requires i <= |s|
    ensures i <= j <= |s| && s[j..] == DropDot(s[i..])
  {
    j := i;
    if i + 1 < |s| && s[i] == '.' && s[i + 1] == '/' {
      assert s[i..][1..] == s[i + 1..];
      j := SkipSlashes(s, i + 1);
    }
  }

  method FindClassEnd(p: string, i: nat) returns (end: nat)
    requires i <= |p|
    ensures i <= end <= |p| && end == i + ClassEnd(p[i..])
  {
    end := i;
    while end < |p| && p[end] != ']'
      invariant i <= end <= |p| && end + ClassEnd(p[end..]) == i + ClassEnd(p[i..])
    {
      if p[end] == '\\' && end + 1 < |p| {
        assert p[end..][2..] == p[end + 2..];
        end := end + 1;
      } else {
        assert p[end..][1..] == p[end + 1..];
      }
      end := end + 1;
    }
  }

  /** The class at `i`, if there is a closed one, against a character. */
  method TryClass(order: Order, p: string, i: nat, c: char) returns (end: nat, r: bool)
    requires i < |p| && p[i] == '[' && '\0' !in p
    ensures IsClass(p[i..]) <==> end < |p|
    ensures end < |p| ==> end == i + |ClassBody(p[i..])| + 1 && (r <==> ClassMatches(order, ClassBody(p[i..]), c))
  {
    assert p[i..][1..] == p[i + 1..];
    end := FindClassEnd(p, i + 1);
    r := false;
    if end < |p| {
      var body := p[i + 1..end];
      assert body == ClassBody(p[i..]);
      r := PmList(order, body, c);
    }
  }

  /** The answer at `i` and `j`, or places further on with the same answer. */
  ghost predicate Turned(p: string, i: nat, s: string, j: nat, flags: Flags, done: bool, r: Outcome, i': nat, j': nat)
    requires i <= |p| && j <= |s|
  {
    if done then r == PmFrom(p[i..], s[j..], flags)
    else i < i' <= |p| && j' <= |s| && PmFrom(p[i'..], s[j'..], flags) == PmFrom(p[i..], s[j..], flags)
  }

  method ClassTurn(p: string, i: nat, s: string, j: nat, flags: Flags)
      returns (closed: bool, done: bool, r: Outcome, i': nat, j': nat)
    requires i < |p| && j <= |s| && '\0' !in p && p[i] == '['
    ensures closed <==> IsClass(p[i..])
    ensures i <= i' <= |p| && j' <= |s|
    ensures closed ==> Turned(p, i, s, j, flags, done, r, i', j')
  {
    done, r, i', j' := true, No, i, j;
    var end, matches := TryClass(flags.order, p, i, if j < |s| then s[j] else '\0');
    closed := end < |p|;
    if closed && matches {
      if j == |s| {
        r := Overrun;
      } else {
        done, i', j' := false, end + 1, j + 1;
        assert p[i..][|ClassBody(p[i..])| + 2..] == p[end + 1..] && s[j..][1..] == s[j + 1..];
      }
    }
  }

  method SlashTurn(p: string, i: nat, s: string, j: nat, flags: Flags)
      returns (done: bool, r: Outcome, i': nat, j': nat)
    requires i < |p| && j <= |s| && p[i] == '/'
    ensures i <= i' <= |p| && j' <= |s| && Turned(p, i, s, j, flags, done, r, i', j')
  {
    done, r, i', j' := true, No, i, j;
    if j == |s| || s[j] == '/' {
      i' := SkipSlashes(p, i);
      j' := SkipSlashes(s, j);
      done := i' == |p| && flags.noAnchorEnd;
      r := Yes;
    }
  }

  /** One turn of the loop: an answer, or less of the pattern to match. */
  method Turn(p: string, i: nat, s: string, j: nat, flags: Flags) returns (done: bool, r: Outcome, i': nat, j': nat)
    requires i <= |p| && j <= |s| && '\0' !in p
    ensures i <= i' <= |p| && j' <= |s| && Turned(p, i, s, j, flags, done, r, i', j')
    decreases |p| - i, 1, 0
  {
    done, r, i', j' := true, No, i, j;
    if i == |p| {
      var k := j;
      if j < |s| && s[j] == '/' {
        if flags.noAnchorEnd {
          return true, Yes, i, j;
        }
        k := SkipSlashes(s, j);
      }
      r := Answer(k == |s|);
      return;
    }
    assert p[i..][1..] == p[i + 1..];
    assert j < |s| ==> s[j..][1..] == s[j + 1..];
    if p[i] == '?' {
      return j == |s|, No, i + 1, if j < |s| then j + 1 else j;
    }
    if p[i] == '*' {
      r := Stars(p, i, s, j, flags);
      return;
    }
    if p[i] == '[' {
      var closed;
      closed, done, r, i', j' := ClassTurn(p, i, s, j, flags);
      if closed {
        return;
      }
      done, r := true, No;
    }
    if p[i] == '\\' && i + 1 < |p| {
      assert p[i..][2..] == p[i + 2..];
      if j < |s| && s[j] == p[i + 1] {
        done, i', j' := false, i + 2, j + 1;
      }
      return;
    }
    if p[i] == '/' {
      done, r, i', j' := SlashTurn(p, i, s, j, flags);
      return;
    }
    if p[i] == '$' && i + 1 == |p| && flags.noAnchorEnd {
      var k := SkipSlashes(s, j);
      r := Answer(k == |s|);
      return;
    }
    if j < |s| && s[j] == p[i] {
      done, i', j' := false, i + 1, j + 1;
    }
  }

  method Stars(p: string, i: nat, s: string, j: nat, flags: Flags) returns (r: Outcome)
    requires i < |p| && j <= |s| && p[i] == '*' && '\0' !in p
    ensures r == PmFrom(p[i..], s[j..], flags)
    decreases |p| - i, 0, 0
  {
    var k := i;
    while k < |p| && p[k] == '*'
      invariant i <= k <= |p| && DropStars(p[k..]) == DropStars(p[i..])
      invariant k == i ==> p[k] == '*'
    {
      assert p[k..][1..] == p[k + 1..];
      k := k + 1;
    }
    assert p[k..] == DropStars(p[i..]);
    if k == |p| {
      return Yes;
    }
    var t := j;
    while t < |s|
      invariant j <= t <= |s| && Try(p[k..], s[t..], flags) == Try(p[k..], s[j..], flags)
    {
      assert s[t..][1..] == s[t + 1..];
      r := MatchAt(p, k, s, t, flags);
      if r != No {
        return;
      }
      t := t + 1;
    }
    r := No;
  }

  method PmAt(p: string, start: nat, s: string, from: nat, flags: Flags) returns (r: Outcome)
    requires start <= |p| && from <= |s| && '\0' !in p
    ensures r == Pm(p[start..], s[from..], flags)
    decreases |p| - start, 2, 0
  {
    var i: nat := SkipDot(p, start);
    var j: nat := SkipDot(s, from);
    var done := false;
    r := No;
    while !done
      invariant start <= i <= |p| && j <= |s|
      invariant if done then r == Pm(p[start..], s[from..], flags)
                else PmFrom(p[i..], s[j..], flags) == Pm(p[start..], s[from..], flags)
      decreases !done, |p| - i
    {
      done, r, i, j := Turn(p, i, s, j, flags);
    }
  }

  method MatchAt(p: string, start: nat, s: string, from: nat, flags: Flags) returns (r: Outcome)
    requires start <= |p| && from <= |s| && '\0' !in p
    ensures r == Match(p[start..], s[from..], flags)
    decreases |p| - start, 5, 0
  {
    if start == |p| {
      return Answer(from == |s|);
    }
    var i, j, flags' := start, from, flags;
    if p[i] == '^' {
      assert p[start..][1..] == p[start + 1..];
      i := i + 1;
      flags' := flags.(noAnchorStart := false);
    }
    if i < |p| && p[i] == '/' && (j == |s| || s[j] != '/') {
      return No;
    }
    if i < |p| && (p[i] == '*' || p[i] == '/') {
      i := SkipOnlySlashes(p, i);
      j := SkipOnlySlashes(s, j);
      r := PmAt(p, i, s, j, flags');
    } else if flags'.noAnchorStart {
      r := ElementsAt(p, i, s, j, flags');
    } else {
      r := PmAt(p, i, s, j, flags');
    }
  }

  method SkipOnlySlashes(s: string, i: nat) returns (j: nat)
    requires i <= |s|
    ensures i <= j <= |s| && s[j..] == DropSlashes(s[i..])
  {
    j := i;
    while j < |s| && s[j] == '/'
      invariant i <= j <= |s| && DropSlashes(s[j..]) == DropSlashes(s[i..])
    {
      assert s[j..][1..] == s[j + 1..];
      j := j + 1;
    }
  }

  method FindSlash(s: string, i: nat) returns (j: nat)
    requires i <= |s|
    ensures i <= j <= |s| && BehindSlash(s[i..]) == if j < |s| then Some(s[j + 1..]) else None
  {
    j := i;
    while j < |s| && s[j] != '/'
      invariant i <= j <= |s| && BehindSlash(s[j..]) == BehindSlash(s[i..])
    {
      assert s[j..][1..] == s[j + 1..];
      j := j + 1;
    }
    if j < |s| {
      assert s[j..][1..] == s[j + 1..];
    }
  }

  /** `want` is the answer of the elements that are left. */
  ghost predicate RestIs(p: string, s: string, flags: Flags, want: Outcome) {
    forall ask {:trigger Inspect(ask)} :: Inspect(ask) ==> TryRest(p, s, flags) == want
  }

  lemma RestStarts(p: string, s: string, flags: Flags)
    ensures RestIs(p, if s != "" && s[0] == '/' then s[1..] else s, flags, TryElements(p, s, flags))
  {
  }

  ghost predicate PmIs(p: string, s: string, flags: Flags, r: Outcome) {
    forall ask {:trigger Inspect(ask)} :: Inspect(ask) ==> r == Pm(p, s, flags)
  }

  lemma RestStep(p: string, s: string, flags: Flags, want: Outcome, r: Outcome)
    requires RestIs(p, s, flags, want) && PmIs(p, s, flags, r)
    ensures if r != No then want == r
            else
              match BehindSlash(s)
              case None => want == No
              case Some(t) => RestIs(p, t, flags, want)
  {
    assert Inspect(true);
  }

  method ElementsAt(p: string, i: nat, s: string, j: nat, flags: Flags) returns (r: Outcome)
    requires i <= |p| && j <= |s| && '\0' !in p
    ensures r == TryElements(p[i..], s[j..], flags)
    decreases |p| - i, 4, 0
  {
    ghost var want := TryElements(p[i..], s[j..], flags);
    RestStarts(p[i..], s[j..], flags);
    var t := j;
    if t < |s| && s[t] == '/' {
      assert s[j..][1..] == s[j + 1..];
      t := t + 1;
    }
    r := No;
    var more := true;
    while more
      invariant j <= t <= |s| && if more then RestIs(p[i..], s[t..], flags, want) else r == want
      decreases more, |s| - t
    {
      r, more, t := TryElement(p, i, s, t, flags, want);
    }
  }

  method TryElement(p: string, i: nat, s: string, t: nat, flags: Flags, ghost want: Outcome)
      returns (r: Outcome, more: bool, t': nat)
    requires i <= |p| && t <= |s| && '\0' !in p && RestIs(p[i..], s[t..], flags, want)
    ensures t <= t' <= |s|
    ensures if more then t < t' && RestIs(p[i..], s[t'..], flags, want) else r == want
    decreases |p| - i, 3, 1
  {
    r := ElementAt(p, i, s, t, flags);
    RestStep(p[i..], s[t..], flags, want, r);
    t' := FindSlash(s, t);
    more := r == No && t' < |s|;
    if more {
      t' := t' + 1;
    }
  }

  method ElementAt(p: string, i: nat, s: string, t: nat, flags: Flags) returns (r: Outcome)
    requires i <= |p| && t <= |s| && '\0' !in p
    ensures PmIs(p[i..], s[t..], flags, r)
    decreases |p| - i, 3, 0
  {
    r := PmAt(p, i, s, t, flags);
  }
}
