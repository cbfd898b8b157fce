/** Spelling words on a command line, and reading them back. */
module CmdQuote {
  import opened Wrappers
  import opened CmdLine

  // ----- spelling -----

  datatype Quoted = Bare(c: char) | Slashed(c: char)

  /** A word is spelled in pieces: plain characters, escaped ones, and
      quotations. */
  datatype Piece = Plain(c: char) | Escaped(c: char) | Quote(qs: seq<Quoted>)

  predicate Quotable(qs: seq<Quoted>) {
    forall q <- qs :: q.Bare? ==> q.c != '"' && q.c != '\\'
  }

  predicate Correct(p: Piece) {
    match p
    case Plain(c) => c != ' ' && c != '"' && c != '\\'
    case Escaped(_) => true
    case Quote(qs) => Quotable(qs)
  }

  function ShowQuoted(qs: seq<Quoted>): string {
    if qs == [] then "" else (if qs[0].Bare? then [qs[0].c] else ['\\', qs[0].c]) + ShowQuoted(qs[1..])
  }

  function QuotedWord(qs: seq<Quoted>): string {
    if qs == [] then "" else [qs[0].c] + QuotedWord(qs[1..])
  }

  function ShowPiece(p: Piece): (s: string)
    ensures s != ""
  {
    match p
    case Plain(c) => [c]
    case Escaped(c) => ['\\', c]
    case Quote(qs) => "\"" + (ShowQuoted(qs) + "\"")
  }

  function Show(ps: seq<Piece>): string {
    if ps == [] then "" else ShowPiece(ps[0]) + Show(ps[1..])
  }

  function PieceWord(p: Piece): string {
    match p
    case Plain(c) => [c]
    case Escaped(c) => [c]
    case Quote(qs) => QuotedWord(qs)
  }

  function Meant(ps: seq<Piece>): string {
    if ps == [] then "" else PieceWord(ps[0]) + Meant(ps[1..])
  }

  /** Some spaces, and a word in at least one piece. */
  datatype Spelled = Spelled(gap: nat, pieces: seq<Piece>)

  function Spaces(n: nat): string {
    if n == 0 then "" else " " + Spaces(n - 1)
  }

  /** The words of a line, and spaces at its end. */
  function Line(ws: seq<Spelled>, end: nat): string {
    if ws == [] then Spaces(end) else Spaces(ws[0].gap) + (Show(ws[0].pieces) + Line(ws[1..], end))
  }

  function Words(ws: seq<Spelled>): (words: seq<string>)
    ensures |words| == |ws|
  {
    if ws == [] then [] else [Meant(ws[0].pieces)] + Words(ws[1..])
  }

  predicate CorrectWord(w: Spelled) {
    w.pieces != [] && forall p <- w.pieces :: Correct(p)
  }

  /** All words behind a space. */
  predicate Separated(ws: seq<Spelled>) {
    forall w <- ws :: CorrectWord(w) && w.gap > 0
  }

  /** Every word can be spelled. */
  function InQuotes(w: string): seq<Quoted> {
    if w == "" then [] else [Slashed(w[0])] + InQuotes(w[1..])
  }

  lemma EveryWordIsSpelled(w: string)
    ensures Correct(Quote(InQuotes(w))) && Meant([Quote(InQuotes(w))]) == w
  {
    InQuotesMeans(w);
    assert [Quote(InQuotes(w))][1..] == [];
  }

  lemma {:induction false} InQuotesMeans(w: string)
    ensures Quotable(InQuotes(w)) && QuotedWord(InQuotes(w)) == w
  {
    if w != "" {
      InQuotesMeans(w[1..]);
      assert w == [w[0]] + w[1..];
    }
  }

  // ----- reading one word -----

  lemma {:induction false} QuotationOfShow(qs: seq<Quoted>, rest: string)
    requires Quotable(qs)
    ensures Quotation(ShowQuoted(qs) + "\"" + rest) == Some((QuotedWord(qs), rest))
  {
    var s := ShowQuoted(qs) + "\"" + rest;
    if qs == [] {
      assert s[1..] == rest;
    } else {
      var more := ShowQuoted(qs[1..]) + "\"" + rest;
      QuotationOfShow(qs[1..], rest);
      if qs[0].Bare? {
        assert s[1..] == more;
      } else {
        assert s[2..] == more;
      }
    }
  }

  lemma WordOfEscaped(c: char, rest: string)
    ensures Word(['\\', c] + rest) == Prepend([c], Word(rest))
  {
    assert (['\\', c] + rest)[2..] == rest;
  }

  lemma WordOfPlain(c: char, rest: string)
    requires c != ' ' && c != '"' && c != '\\'
    ensures Word([c] + rest) == Prepend([c], Word(rest))
  {
    assert ([c] + rest)[1..] == rest;
  }

  lemma WordOfQuote(qs: seq<Quoted>, rest: string)
    requires Quotable(qs)
    ensures Word("\"" + (ShowQuoted(qs) + "\"") + rest) == Prepend(QuotedWord(qs), Word(rest))
  {
    var s, inner := "\"" + (ShowQuoted(qs) + "\"") + rest, ShowQuoted(qs) + "\"" + rest;
    assert s[1..] == inner;
    QuotationOfShow(qs, rest);
  }

  lemma WordOfPiece(p: Piece, rest: string)
    requires Correct(p)
    ensures Word(ShowPiece(p) + rest) == Prepend(PieceWord(p), Word(rest))
  {
    match p
    case Plain(c) => WordOfPlain(c, rest);
    case Escaped(c) => WordOfEscaped(c, rest);
    case Quote(qs) => WordOfQuote(qs, rest);
  }

  lemma {:induction false} WordOfShow(ps: seq<Piece>, rest: string)
    requires (forall p <- ps :: Correct(p)) && (rest == "" || rest[0] == ' ')
    ensures Word(Show(ps) + rest) == Some((Meant(ps), rest))
  {
    if ps == [] {
      assert Show(ps) + rest == rest;
    } else {
      var more := Show(ps[1..]) + rest;
      WordOfShow(ps[1..], rest);
      WordOfPiece(ps[0], more);
      Assoc(ShowPiece(ps[0]), Show(ps[1..]), rest);
    }
  }

  lemma {:induction false} SkipsSpaces(n: nat, s: string)
    requires s != "" && s[0] != ' '
    ensures SkipSpaces(Spaces(n) + s) == s
  {
    if n == 0 {
      assert Spaces(n) + s == s;
    } else {
      SkipsSpaces(n - 1, s);
      assert (Spaces(n) + s)[1..] == Spaces(n - 1) + s;
    }
  }

  lemma ShowBegins(w: Spelled, rest: string)
    requires CorrectWord(w)
    ensures Show(w.pieces) + rest != "" && (Show(w.pieces) + rest)[0] != ' '
  {
    var p := w.pieces[0];
    assert Correct(p);
    assert Show(w.pieces)[0] == ShowPiece(p)[0];
  }

  lemma ArgumentOfLine(w: Spelled, rest: string)
    requires CorrectWord(w) && (rest == "" || rest[0] == ' ')
    ensures Argument(Spaces(w.gap) + (Show(w.pieces) + rest)) == Some((Meant(w.pieces), rest))
  {
    ShowBegins(w, rest);
    SkipsSpaces(w.gap, Show(w.pieces) + rest);
    WordOfShow(w.pieces, rest);
  }

  lemma LineBegins(ws: seq<Spelled>, end: nat)
    requires Separated(ws)
    ensures Line(ws, end) == "" <==> ws == [] && end == 0
    ensures Line(ws, end) != "" ==> Line(ws, end)[0] == ' '
  {
  }

  lemma {:induction false} NothingButSpaces(n: nat)
    ensures SkipSpaces(Spaces(n)) == ""
  {
    if n > 0 {
      NothingButSpaces(n - 1);
      assert Spaces(n)[1..] == Spaces(n - 1);
    }
  }

  // ----- reading all words -----

  /** The arguments that come back after `last`: an empty word comes back as the
      argument before it, and not at all at the very end of the line. */
  function ReadBack(last: string, words: seq<string>, spaced: bool): seq<string>
    decreases |words|
  {
    if words == [] || (|words| == 1 && words[0] == "" && !spaced) then []
    else
      var arg := if words[0] == "" then last else words[0];
      [arg] + ReadBack(arg, words[1..], spaced)
  }

  lemma {:induction false} ArgumentsOfLine(last: string, ws: seq<Spelled>, end: nat)
    requires Separated(ws)
    ensures Arguments(last, Line(ws, end)) == (Ok, ReadBack(last, Words(ws), end > 0))
    decreases |ws|
  {
    if ws == [] {
      NothingButSpaces(end);
    } else {
      var w, rest := ws[0], Line(ws[1..], end);
      LineBegins(ws, end);
      LineBegins(ws[1..], end);
      ArgumentOfLine(w, rest);
      var word := Meant(w.pieces);
      if word != "" || rest != "" {
        ArgumentsOfLine(if word == "" then last else word, ws[1..], end);
      }
      assert Words(ws)[1..] == Words(ws[1..]);
    }
  }

  lemma {:induction false} ReadBackExact(last: string, words: seq<string>, spaced: bool)
    requires last != ""
    ensures ReadBack(last, words, spaced) == words <==> forall w <- words :: w != ""
    decreases |words|
  {
    if words != [] && words[0] == "" {
      assert words[0] in words;
    } else if words != [] {
      var first, rest := words[0], words[1..];
      ReadBackExact(first, rest, spaced);
      assert ReadBack(last, words, spaced) == [first] + ReadBack(first, rest, spaced);
      assert ReadBack(last, words, spaced)[1..] == ReadBack(first, rest, spaced);
      assert words == [first] + rest;
      assert forall w <- words :: w == first || w in rest;
      assert forall w <- rest :: w in words;
    }
  }

  /** Words come back from any spelling of them exactly when none is empty. */
  lemma SplittingUndoesSpelling(w: Spelled, ws: seq<Spelled>, end: nat)
    requires CorrectWord(w) && Separated(ws)
    ensures var path := Meant(w.pieces);
            ParseLine(Line([w] + ws, end)) == Parsed(Ok, Some(path), [Basename(path)] + Words(ws))
            <==> path != "" && forall word <- Words(ws) :: word != ""
  {
    var path := Meant(w.pieces);
    assert ([w] + ws)[1..] == ws;
    LineBegins(ws, end);
    ArgumentOfLine(w, Line(ws, end));
    if path != "" {
      ArgumentsOfLine(path, ws, end);
      ReadBackExact(path, Words(ws), end > 0);
      var more := ReadBack(path, Words(ws), end > 0);
      assert ([Basename(path)] + more)[1..] == more && ([Basename(path)] + Words(ws))[1..] == Words(ws);
    }
  }

  lemma ReadBackGap(last: string, word: string, spaced: bool)
    requires word != ""
    ensures ReadBack(last, ["", word], spaced) == [last, word]
  {
    var one, two := [word], ["", word];
    assert one[1..] == [] && two[1..] == one;
    assert ReadBack(last, one, spaced) == [word] + ReadBack(word, [], spaced);
    assert ReadBack(last, two, spaced) == [last] + ReadBack(last, one, spaced);
  }

  /** An empty quotation between two words does not give an empty argument but
      the word before it once more. */
  lemma EmptyWordRepeats(a: Spelled, b: Spelled, end: nat)
    requires CorrectWord(a) && CorrectWord(b) && b.gap > 0 && Meant(a.pieces) != "" && Meant(b.pieces) != ""
    ensures var path, none := Meant(a.pieces), Spelled(1, [Quote([])]);
            ParseLine(Line([a] + [none, b], end)) == Parsed(Ok, Some(path), [Basename(path), path, Meant(b.pieces)])
  {
    var path, none, word := Meant(a.pieces), Spelled(1, [Quote([])]), Meant(b.pieces);
    var ws := [none, b];
    WordsOfTwo(none, b);
    ReadBackGap(path, word, end > 0);
    LineOfWords(a, ws, end);
  }

  /** So does one behind the last word, if spaces end the line; if not, it gives
      no argument. */
  lemma SpaceRepeats(a: Spelled, end: nat)
    requires CorrectWord(a) && Meant(a.pieces) != ""
    ensures var path, none := Meant(a.pieces), Spelled(1, [Quote([])]);
            ParseLine(Line([a] + [none], end))
              == Parsed(Ok, Some(path), if end > 0 then [Basename(path), path] else [Basename(path)])
  {
    var path, none := Meant(a.pieces), Spelled(1, [Quote([])]);
    assert [none][1..] == [] && [Quote([])][1..] == [] && [""][1..] == [];
    assert Meant([Quote([])]) == "" && Words([none]) == [Meant(none.pieces)] + Words([none][1..]);
    assert ReadBack(path, [""], end > 0) == if end > 0 then [path] + ReadBack(path, [], true) else [];
    LineOfWords(a, [none], end);
  }

  /** What a line gives whose first word is not empty. */
  lemma LineOfWords(a: Spelled, ws: seq<Spelled>, end: nat)
    requires CorrectWord(a) && Separated(ws) && Meant(a.pieces) != ""
    ensures var path := Meant(a.pieces);
            ParseLine(Line([a] + ws, end)) == Parsed(Ok, Some(path), [Basename(path)] + ReadBack(path, Words(ws), end > 0))
  {
    assert ([a] + ws)[1..] == ws;
    LineBegins(ws, end);
    ArgumentOfLine(a, Line(ws, end));
    ArgumentsOfLine(Meant(a.pieces), ws, end);
  }

  lemma WordsOfTwo(a: Spelled, b: Spelled)
    ensures Words([a, b]) == [Meant(a.pieces), Meant(b.pieces)]
    ensures Meant([Quote([])]) == ""
  {
    assert [a, b][1..] == [b] && [b][1..] == [];
    assert [Quote([])][1..] == [];
  }

  // ----- lines that are refused -----

  lemma {:induction false} OpenQuotation(qs: seq<Quoted>)
    requires Quotable(qs)
    ensures Quotation(ShowQuoted(qs)) == None
  {
    if qs != [] {
      var s, more := ShowQuoted(qs), ShowQuoted(qs[1..]);
      OpenQuotation(qs[1..]);
      if qs[0].Bare? {
        assert s[1..] == more;
      } else {
        assert s[2..] == more;
      }
    }
  }

  lemma {:induction false} OpenWord(ps: seq<Piece>, qs: seq<Quoted>)
    requires (forall p <- ps :: Correct(p)) && Quotable(qs)
    ensures Word(Show(ps) + ("\"" + ShowQuoted(qs))) == None
  {
    var open := "\"" + ShowQuoted(qs);
    if ps == [] {
      OpenQuotation(qs);
      assert Show(ps) + open == open && open[1..] == ShowQuoted(qs);
    } else {
      OpenWord(ps[1..], qs);
      WordOfPiece(ps[0], Show(ps[1..]) + open);
      Assoc(ShowPiece(ps[0]), Show(ps[1..]), open);
    }
  }

  /** A quotation that is still open at the end is an error, in the path as in an
      argument; words before it have been split. */
  lemma {:induction false} OpenQuotationFails(gap: nat, ps: seq<Piece>, qs: seq<Quoted>, last: string)
    requires (forall p <- ps :: Correct(p)) && Quotable(qs)
    ensures var line := Spaces(gap) + (Show(ps) + ("\"" + ShowQuoted(qs)));
            ParseLine(line) == Parsed(Failed, None, []) && Arguments(last, line) == (Failed, [])
  {
    var s := Show(ps) + ("\"" + ShowQuoted(qs));
    OpenWord(ps, qs);
    if ps == [] {
      assert s == "\"" + ShowQuoted(qs);
    } else {
      ShowBegins(Spelled(gap, ps), "\"" + ShowQuoted(qs));
    }
    SkipsSpaces(gap, s);
  }

  /** A line without a path, or with an empty one, is an error too. */
  lemma {:induction false} EmptyPathFails(w: Spelled, rest: string, end: nat)
    requires CorrectWord(w) && Meant(w.pieces) == "" && (rest == "" || rest[0] == ' ')
    ensures ParseLine(Spaces(w.gap) + (Show(w.pieces) + rest)) == Parsed(Failed, None, [])
    ensures ParseLine(Spaces(end)) == Parsed(Failed, None, [])
  {
    ArgumentOfLine(w, rest);
    NothingButSpaces(end);
  }

  lemma {:induction false} TailOf<T>(w: seq<T>, k: nat)
    requires k < |w|
    ensures w[k..] == w[..|w| - 1][k..] + [w[|w| - 1]]
  {
  }

  lemma {:induction false} BasenameHasNoSlash(w: string)
    ensures forall i :: 0 <= i < |Basename(w)| ==> Basename(w)[i] != '/'
    ensures |Basename(w)| <= |w|
  {
    if w != "" {
      BasenameHasNoSlash(w[..|w| - 1]);
    }
  }

  /** The first argument is the part of the path behind its last slash. */
  lemma {:induction false} BasenameIsLast(w: string)
    ensures |Basename(w)| <= |w| && forall i :: 0 <= i < |Basename(w)| ==> Basename(w)[i] != '/'
    ensures var k := |w| - |Basename(w)|; w[k..] == Basename(w) && (k > 0 ==> w[k - 1] == '/')
  {
    BasenameHasNoSlash(w);
    if w != "" && w[|w| - 1] != '/' {
      var front := w[..|w| - 1];
      BasenameIsLast(front);
      TailOf(w, |front| - |Basename(front)|);
    }
  }
}
