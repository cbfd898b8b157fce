/** Character classes of path patterns: what a body between brackets denotes,
    and the scanner that answers for one character. */
module PathClass {
  import opened Wrappers

  /** A body is a string of these. A range always holds its first character,
      even when it is written backwards. */
  datatype Item = Single(c: char) | Range(lo: char, hi: char)

  /** Whether plain characters of C have a sign is up to the compiler. */
  datatype Order = Unsigned | Signed

  /** The value of a byte as a plain character. */
  function Rank(order: Order, c: char): int {
    var n := c as int; if order == Signed && 128 <= n < 256 then n - 256 else n
  }

  /** A character lies in a range of characters. */
  predicate Between(order: Order, lo: char, c: char, hi: char) {
    Rank(order, lo) <= Rank(order, c) <= Rank(order, hi)
  }

  predicate Covers(order: Order, item: Item, c: char) {
    match item
    case Single(d) => c == d
    case Range(lo, hi) => c == lo || Between(order, lo, c, hi)
  }

  /** No backslash is the last character. */
  predicate Complete(b: string) {
    b == "" || if b[0] == '\\' then |b| >= 2 && Complete(b[2..]) else Complete(b[1..])
  }

  /** How many characters the first one takes with its backslash. */
  function Width(b: string): (n: nat)
    requires b != "" && Complete(b)
    ensures 1 <= n <= |b| && Complete(b[n..])
  {
    if b[0] == '\\' then 2 else 1
  }

  /** A range follows: a dash that is not the last character. */
  predicate Dashed(b: string) {
    |b| > 1 && b[0] == '-'
  }

  function Items(b: string): seq<Item>
    requires Complete(b)
    decreases |b|
  {
    if b == "" then []
    else
      var n := Width(b);
      var lo, rest := b[n - 1], b[n..];
      if b[0] != '-' && Dashed(rest) then
        var hi := rest[1..];
        var m := Width(hi);
        [Range(lo, hi[m - 1])] + Items(hi[m..])
      else [Single(lo)] + Items(rest)
  }

  ghost predicate Denotes(order: Order, b: string, c: char)
    requires Complete(b)
  {
    exists item <- Items(b) :: Covers(order, item, c)
  }

  predicate Negated(body: string) {
    body != "" && (body[0] == '!' || body[0] == '^')
  }

  function Positive(body: string): (b: string)
    ensures Complete(body) ==> Complete(b)
  {
    if Negated(body) then body[1..] else body
  }

  /** A class matches what its body denotes, a negated one everything else. */
  ghost predicate ClassMatches(order: Order, body: string, c: char)
    requires Complete(body)
  {
    Denotes(order, Positive(body), c) != Negated(body)
  }

  // ----- the scanner -----

  /** What is still denoted where a range may begin with a character read before. */
  ghost predicate Ahead(order: Order, start: char, b: string, c: char)
    requires Complete(b)
  {
    if start != '\0' && Dashed(b) then
      var hi := b[1..];
      Between(order, start, c, hi[Width(hi) - 1]) || Denotes(order, hi[Width(hi)..], c)
    else Denotes(order, b, c)
  }

  lemma ConsDenotes(order: Order, b: string, item: Item, rest: string, c: char)
    requires Complete(b) && Complete(rest) && Items(b) == [item] + Items(rest)
    ensures Denotes(order, b, c) <==> Covers(order, item, c) || Denotes(order, rest, c)
  {
    assert forall x :: x in Items(b) <==> x == item || x in Items(rest);
  }

  /** A character that begins no range yet: the rest is ahead of it. */
  lemma Step(order: Order, b: string, c: char)
    requires Complete(b) && b != "" && '\0' !in b
    ensures var n := Width(b);
            Denotes(order, b, c) <==> c == b[n - 1] || Ahead(order, if b[0] == '-' then '\0' else b[n - 1], b[n..], c)
  {
    var n := Width(b);
    var lo, rest := b[n - 1], b[n..];
    if b[0] != '-' && Dashed(rest) {
      var hi := rest[1..];
      var m := Width(hi);
      ConsDenotes(order, b, Range(lo, hi[m - 1]), hi[m..], c);
    } else {
      ConsDenotes(order, b, Single(lo), rest, c);
    }
  }

  /** `want` is what the unread rest says. */
  ghost predicate Says(order: Order, start: char, b: string, c: char, want: bool)
    requires Complete(b)
  {
    forall ask {:trigger Inspect(ask)} :: Inspect(ask) ==> Ahead(order, start, b, c) == want
  }

  lemma AtStart(order: Order, b: string, c: char)
    requires Complete(b)
    ensures Says(order, '\0', b, c, Denotes(order, b, c))
  {
  }

  lemma AtEnd(order: Order, start: char, c: char, want: bool)
    requires Says(order, start, "", c, want)
    ensures !want
  {
    assert Inspect(true);
  }

  lemma AfterChar(order: Order, start: char, b: string, c: char, want: bool)
    requires Complete(b) && b != "" && '\0' !in b && (start == '\0' || !Dashed(b)) && Says(order, start, b, c, want)
    ensures var n := Width(b);
            if c == b[n - 1] then want else Says(order, if b[0] == '-' then '\0' else b[n - 1], b[n..], c, want)
  {
    assert Inspect(true);
    Step(order, b, c);
  }

  lemma AfterRange(order: Order, start: char, b: string, c: char, want: bool)
    requires Complete(b) && start != '\0' && Dashed(b) && Says(order, start, b, c, want)
    ensures var hi := b[1..];
            if Between(order, start, c, hi[Width(hi) - 1]) then want else Says(order, '\0', hi[Width(hi)..], c, want)
  {
    assert Inspect(true);
  }

  /** A dash behind a character that can begin a range. */
  method RangeTurn(order: Order, body: string, p: nat, rangeStart: char, c: char, ghost want: bool)
      returns (hit: bool, p': nat)
    requires p + 1 < |body| && body[p] == '-' && rangeStart != '\0' && Complete(body[p..])
    requires Says(order, rangeStart, body[p..], c, want)
    ensures p < p' <= |body| && Complete(body[p'..])
    ensures if hit then want else Says(order, '\0', body[p'..], c, want)
  {
    AfterRange(order, rangeStart, body[p..], c, want);
    ghost var hi := body[p + 1..];
    assert body[p..][1..] == hi;
    p' := p + 1;
    if body[p'] == '\\' {
      p' := p' + 1;
    }
    hit := Between(order, rangeStart, c, body[p']);
    p' := p' + 1;
    assert hi[Width(hi)..] == body[p'..];
  }

  /** Any other character, perhaps with a backslash before it. */
  method CharTurn(order: Order, body: string, p: nat, rangeStart: char, c: char, ghost want: bool)
      returns (hit: bool, next: char, p': nat)
    requires p < |body| && '\0' !in body && Complete(body[p..])
    requires body[p] != '-' || rangeStart == '\0' || p + 1 == |body|
    requires Says(order, rangeStart, body[p..], c, want)
    ensures p < p' <= |body| && Complete(body[p'..])
    ensures if hit then want else Says(order, next, body[p'..], c, want)
  {
    ghost var b := body[p..];
    assert '\0' !in b;
    AfterChar(order, rangeStart, b, c, want);
    assert b[Width(b)..] == body[p + Width(b)..];
    p', next := p, '\0';
    if body[p] == '\\' {
      p' := p + 1;
      next := body[p'];
    } else if body[p] != '-' {
      next := body[p];
    }
    hit := body[p'] == c;
    p' := p' + 1;
  }

  method PmList(order: Order, body: string, c: char) returns (r: bool)
    requires Complete(body) && '\0' !in body
    ensures r <==> ClassMatches(order, body, c)
  {
    ghost var want := Denotes(order, Positive(body), c);
    AtStart(order, Positive(body), c);
    var p: nat := if Negated(body) then 1 else 0;
    var match', nomatch := !Negated(body), Negated(body);
    var rangeStart, hit := '\0', false;
    while p < |body|
      invariant p <= |body| && Complete(body[p..]) && Says(order, rangeStart, body[p..], c, want)
    {
      var next := '\0';
      if body[p] == '-' && rangeStart != '\0' && p != |body| - 1 {
        hit, p := RangeTurn(order, body, p, rangeStart, c, want);
      } else {
        hit, next, p := CharTurn(order, body, p, rangeStart, c, want);
      }
      if hit {
        return match';
      }
      rangeStart := next;
    }
    assert body[p..] == "";
    AtEnd(order, rangeStart, c, want);
    r := nomatch;
  }

  // ----- the terminator -----

  /** A range of signed characters that goes up through zero. */
  predicate Crosses(order: Order, item: Item) {
    item.Range? && Rank(order, item.lo) < 0 < Rank(order, item.hi)
  }

  lemma {:induction false} ItemsAreNotNul(b: string)
    requires Complete(b) && '\0' !in b
    ensures forall item <- Items(b) :: if item.Single? then item.c != '\0' else item.lo != '\0' && item.hi != '\0'
    decreases |b|
  {
    if b != "" {
      var rest := b[Width(b)..];
      if b[0] != '-' && Dashed(rest) {
        ItemsAreNotNul(rest[1..][Width(rest[1..])..]);
      } else {
        ItemsAreNotNul(rest);
      }
    }
  }

  /** A class matches the terminator when it is negated and no range goes up
      through zero, or the other way round. */
  lemma {:induction false} TerminatorMatches(order: Order, body: string)
    requires Complete(body) && '\0' !in body
    ensures ClassMatches(order, body, '\0') <==>
            Negated(body) != exists item <- Items(Positive(body)) :: Crosses(order, item)
  {
    ItemsAreNotNul(Positive(body));
    assert forall item <- Items(Positive(body)) :: Covers(order, item, '\0') <==> Crosses(order, item);
  }

  // ----- what items mean -----

  function Show(c: char): string {
    if c == '\\' || c == '-' || c == ']' || c == '!' || c == '^' then ['\\', c] else [c]
  }

  /** The text of an item, special characters escaped. */
  function ShowItem(item: Item): string {
    match item
    case Single(c) => Show(c)
    case Range(lo, hi) => Show(lo) + "-" + Show(hi)
  }

  function ShowItems(items: seq<Item>): string {
    if items == [] then "" else ShowItem(items[0]) + ShowItems(items[1..])
  }

  lemma {:induction false} CompleteAppend(c: char, b: string)
    requires Complete(b)
    ensures Complete(Show(c) + b) && Width(Show(c) + b) == |Show(c)|
    ensures (Show(c) + b)[|Show(c)| - 1] == c && (Show(c) + b)[|Show(c)|..] == b && (Show(c) + b)[0] != '-'
  {
  }

  lemma ShowIsUndashed(items: seq<Item>)
    ensures !Dashed(ShowItems(items))
  {
    if items != [] {
      var s := ShowItems(items);
      var c := match items[0] case Single(c) => c case Range(lo, hi) => lo;
      assert s[0] == Show(c)[0];
    }
  }

  lemma {:induction false} ReadSingle(c: char, rest: string)
    requires Complete(rest) && !Dashed(rest)
    ensures Complete(Show(c) + rest) && Items(Show(c) + rest) == [Single(c)] + Items(rest)
  {
    CompleteAppend(c, rest);
  }

  lemma {:induction false} ReadRange(lo: char, hi: char, rest: string)
    requires Complete(rest)
    ensures var b := Show(lo) + "-" + Show(hi) + rest;
            Complete(b) && Items(b) == [Range(lo, hi)] + Items(rest)
  {
    var high := Show(hi) + rest;
    CompleteAppend(hi, rest);
    assert ("-" + high)[1..] == high && Complete("-" + high);
    CompleteAppend(lo, "-" + high);
    Regroup(Show(lo), "-", Show(hi), rest);
    RangeBegins(Show(lo) + ("-" + high), lo, high, hi, rest);
  }

  lemma {:induction false} Regroup<T>(a: seq<T>, b: seq<T>, c: seq<T>, d: seq<T>)
    ensures a + b + c + d == a + (b + (c + d))
  {
  }

  lemma {:induction false} RangeBegins(b: string, lo: char, high: string, hi: char, rest: string)
    requires Complete(b) && b != "" && b[0] != '-' && b[Width(b) - 1] == lo && b[Width(b)..] == "-" + high
    requires Complete(high) && high != "" && high[Width(high) - 1] == hi && high[Width(high)..] == rest
    ensures Items(b) == [Range(lo, hi)] + Items(rest)
  {
    assert ("-" + high)[1..] == high;
  }

  /** Any items can be written, and are read back. */
  lemma {:induction false} ItemsOfShow(items: seq<Item>)
    ensures Complete(ShowItems(items)) && Items(ShowItems(items)) == items
    decreases |items|
  {
    if items != [] {
      var rest := ShowItems(items[1..]);
      ItemsOfShow(items[1..]);
      ShowIsUndashed(items[1..]);
      assert items == [items[0]] + items[1..];
      match items[0]
      case Single(c) => ReadSingle(c, rest);
      case Range(lo, hi) => ReadRange(lo, hi, rest);
    }
  }

  /** A class of any items, or behind either mark of all but them. */
  function ShowClass(mark: string, items: seq<Item>): string
    requires mark in {"", "!", "^"}
  {
    mark + ShowItems(items)
  }

  lemma ShowIsPositive(items: seq<Item>)
    ensures !Negated(ShowItems(items))
  {
    if items != [] {
      var c := match items[0] case Single(c) => c case Range(lo, hi) => lo;
      assert ShowItems(items)[0] == Show(c)[0];
    }
  }

  /** It matches what its items cover, or what they do not. */
  lemma ClassOfShow(order: Order, mark: string, items: seq<Item>, c: char)
    requires mark in {"", "!", "^"}
    ensures Complete(ShowClass(mark, items))
    ensures ClassMatches(order, ShowClass(mark, items), c) <==>
            (mark != "") != exists item <- items :: Covers(order, item, c)
  {
    var shown, b := ShowItems(items), ShowClass(mark, items);
    ItemsOfShow(items);
    ShowIsPositive(items);
    assert if mark != "" then b[1..] == shown else b == shown;
  }

  /** A dash stands for itself where a class begins, and at its end. */
  lemma {:induction false} PlainDashes(a: char, rest: string)
    requires Complete(rest) && a != '\\' && a != '-'
    ensures Complete(['-'] + rest) && Items(['-'] + rest) == [Single('-')] + Items(rest)
    ensures Complete([a, '-']) && Items([a, '-']) == [Single(a), Single('-')]
  {
    assert (['-'] + rest)[1..] == rest;
    assert [a, '-'][1..] == ['-'] && ['-'][1..] == "";
  }
}
