/** Joined pieces of text, and the character buffers that they are written into. */
module Text {

  function Join(lines: seq<string>, sep: char): string {
    if lines == [] then ""
    else if |lines| == 1 then lines[0]
    else Join(lines[..|lines| - 1], sep) + [sep] + lines[|lines| - 1]
  }

  lemma JoinAppend(ls: seq<string>, l: string, sep: char)
    ensures Join(ls + [l], sep) == if ls == [] then l else Join(ls, sep) + [sep] + l
  {
    assert (ls + [l])[..|ls|] == ls;
  }

  lemma {:induction false} JoinFirst(ls: seq<string>, sep: char)
    requires ls != []
    ensures Join(ls, sep) == ls[0] + if |ls| == 1 then "" else [sep] + Join(ls[1..], sep)
    decreases |ls|
  {
    if |ls| > 1 {
      var front, last := ls[..|ls| - 1], ls[|ls| - 1];
      JoinFirst(front, sep);
      if |ls| == 2 {
        assert ls[1..] == [last];
      } else {
        assert front[1..] == ls[1..][..|ls| - 2];
        assert Join(ls[1..], sep) == Join(front[1..], sep) + [sep] + last;
      }
    }
  }

  // ----- writing -----

  /** Copy a string and its terminator; `q` is the place of the terminator. */
  method Put(buf: array<char>, p: nat, s: string) returns (q: nat)
    requires p + |s| < buf.Length
    modifies buf
    ensures q == p + |s| && buf[..q] == old(buf[..p]) + s
  {
    var i := 0;
    while i < |s|
      invariant 0 <= i <= |s|
      invariant buf[..p + i] == old(buf[..p]) + s[..i]
    {
      buf[p + i] := s[i];
      i := i + 1;
    }
    q := p + i;
    buf[q] := '\0';
  }

  method PutChar(buf: array<char>, p: nat, c: char) returns (q: nat)
    requires p < buf.Length
    modifies buf
    ensures q == p + 1 && buf[..q] == old(buf[..p]) + [c]
  {
    buf[p] := c;
    q := p + 1;
  }
}
