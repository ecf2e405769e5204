/**
 Python's `splitlines`, with the line ends kept or dropped. Keeping them cuts the text
 into the one sequence of pieces that are lines: `IsCut` says which, without the loop.
 */
module LineSplitting {
  import opened Sequences
  import opened Text

  predicate OneLine(s: string) {
    forall i :: 0 <= i < |s| ==> !IsLineEnd(s[i])
  }

  /** The text's lines with their line ends. */
  function SplitKeep(text: string): seq<string> {
    KeepFrom(text, "")
  }

  function KeepFrom(text: string, line: string): seq<string>
    decreases |text|
  {
    if text == "" then (if line == "" then [] else [line])
    else if !IsLineEnd(text[0]) then KeepFrom(text[1..], line + [text[0]])
    else if text[0] == '\r' && |text| > 1 && text[1] == '\n' then [line + "\r\n"] + KeepFrom(text[2..], "")
    else [line + [text[0]]] + KeepFrom(text[1..], "")
  }

  function Concat(pieces: seq<string>): string {
    if pieces == [] then "" else pieces[0] + Concat(pieces[1..])
  }

  lemma {:induction false} ConcatAppend(a: seq<string>, b: seq<string>)
    ensures Concat(a + b) == Concat(a) + Concat(b)
  {
    if a == [] {
      assert a + b == b;
    } else {
      assert (a + b)[1..] == a[1..] + b;
      ConcatAppend(a[1..], b);
    }
  }

  lemma ConcatOne(s: string)
    ensures Concat([s]) == s
  {
    assert [s][1..] == [];
  }

  lemma {:induction false} KeepAll(text: string, line: string)
    ensures Concat(KeepFrom(text, line)) == line + text
    decreases |text|
  {
    if text == "" {
      ConcatOne(line);
    } else if !IsLineEnd(text[0]) {
      KeepAll(text[1..], line + [text[0]]);
      assert line + [text[0]] + text[1..] == line + text;
    } else if text[0] == '\r' && |text| > 1 && text[1] == '\n' {
      KeepAll(text[2..], "");
      assert (line + "\r\n") + ("" + text[2..]) == line + text;
    } else {
      KeepAll(text[1..], "");
      assert (line + [text[0]]) + ("" + text[1..]) == line + text;
    }
  }

  lemma {:induction false} KeepOne(s: string, line: string)
    requires line + s != "" && forall i :: 0 <= i < |s| ==> !IsLineEnd(s[i])
    ensures KeepFrom(s, line) == [line + s]
    decreases |s|
  {
    if s == "" {
      Nothing(line);
    } else {
      KeepOne(s[1..], line + [s[0]]);
      assert line + [s[0]] + s[1..] == line + s;
    }
  }

  // ----- the lines of a text

  predicate Ended(piece: string) {
    piece != "" && IsLineEnd(piece[|piece| - 1])
  }

  /** Something, with a line end nowhere but at its end; CR LF is one. */
  predicate IsPiece(piece: string) {
    piece != "" &&
    forall i :: 0 <= i < |piece| - 1 && IsLineEnd(piece[i]) ==> i == |piece| - 2 && piece[i..] == "\r\n"
  }

  /** The cut between two pieces is after a line end, and not inside CR LF. */
  predicate CutBetween(piece: string, next: string) {
    Ended(piece) && !(piece[|piece| - 1] == '\r' && next != "" && next[0] == '\n')
  }

  /** Pieces cut at every line end, and nowhere else. */
  predicate IsCut(pieces: seq<string>) {
    && (forall k :: 0 <= k < |pieces| ==> IsPiece(pieces[k]))
    && forall k :: 0 < k < |pieces| ==> CutBetween(pieces[k - 1], pieces[k])
  }

  lemma CutCons(piece: string, rest: seq<string>)
    requires IsPiece(piece) && IsCut(rest) && (rest != [] ==> CutBetween(piece, rest[0]))
    ensures IsCut([piece] + rest)
  {
    var all := [piece] + rest;
    forall k | 0 < k < |all| ensures CutBetween(all[k - 1], all[k]) {
      if k > 1 {
        assert all[k - 1] == rest[k - 2] && all[k] == rest[k - 1];
      }
    }
  }

  lemma FirstCharacter(pieces: seq<string>)
    requires pieces != [] && pieces[0] != ""
    ensures Concat(pieces) != "" && Concat(pieces)[0] == pieces[0][0]
  {}

  /** A piece closed by `end` goes in front of the pieces of the rest. */
  lemma LineClosed(line: string, end: string, rest: string)
    requires OneLine(line) && IsCut(KeepFrom(rest, ""))
    requires end == "\r\n" || (|end| == 1 && IsLineEnd(end[0]) && (end == "\r" && rest != "" ==> rest[0] != '\n'))
    ensures IsCut([line + end] + KeepFrom(rest, ""))
  {
    var pieces := KeepFrom(rest, "");
    if pieces != [] {
      assert IsPiece(pieces[0]);
      FirstCharacter(pieces);
      KeepAll(rest, "");
      assert "" + rest == rest;
    }
    CutCons(line + end, pieces);
  }

  lemma {:induction false} KeepIsCut(text: string, line: string)
    requires OneLine(line)
    ensures IsCut(KeepFrom(text, line))
    decreases |text|
  {
    if text != "" {
      if !IsLineEnd(text[0]) {
        KeepIsCut(text[1..], line + [text[0]]);
      } else if text[0] == '\r' && |text| > 1 && text[1] == '\n' {
        KeepIsCut(text[2..], "");
        LineClosed(line, "\r\n", text[2..]);
      } else {
        KeepIsCut(text[1..], "");
        LineClosed(line, [text[0]], text[1..]);
      }
    }
  }

  /** Splitting loses nothing, cuts at every line end and nowhere else. */
  lemma CutAtLineEnds(text: string)
    ensures IsCut(SplitKeep(text)) && Concat(SplitKeep(text)) == text
  {
    KeepIsCut(text, "");
    KeepAll(text, "");
    Nothing(text);
  }

  /** Two ways to cut a text, the first cut in one before that in the other: the characters around it. */
  lemma AroundCut(a: seq<string>, b: seq<string>)
    requires a != [] && b != [] && a[0] != "" && Concat(a) == Concat(b)
    requires forall k :: 0 <= k < |a| ==> IsPiece(a[k])
    ensures var n := |a[0]|;
      n < |b[0]| ==> |a| > 1 && a[1] != "" && a[0][n - 1] == b[0][n - 1] && a[1][0] == b[0][n]
  {
    var text, n := Concat(a), |a[0]|;
    if n < |b[0]| {
      assert text == a[0] + Concat(a[1..]) && text == b[0] + Concat(b[1..]);
      assert a[1..] != [];
      assert a[1..][0] == a[1] && IsPiece(a[1]);
      FirstCharacter(a[1..]);
      assert a[0][n - 1] == text[n - 1] && text[n] == Concat(a[1..])[0];
    }
  }

  lemma InsidePiece(piece: string, n: nat)
    requires IsPiece(piece)
    ensures 0 < n < |piece| && IsLineEnd(piece[n - 1]) ==> piece[n - 1] == '\r' && piece[n] == '\n'
  {
    if 0 < n < |piece| && IsLineEnd(piece[n - 1]) {
      assert piece[n - 1..] == "\r\n";
      assert piece[n - 1] == piece[n - 1..][0] && piece[n] == piece[n - 1..][1];
    }
  }

  lemma FirstPieces(a: seq<string>, b: seq<string>)
    requires IsCut(a) && IsCut(b) && a != [] && b != [] && Concat(a) == Concat(b)
    ensures |a[0]| >= |b[0]|
  {
    assert IsPiece(a[0]) && IsPiece(b[0]);
    AroundCut(a, b);
    InsidePiece(b[0], |a[0]|);
    assert |a| > 1 ==> CutBetween(a[0], a[1]);
  }

  /** No other pieces that make the text are cut that way. */
  lemma {:induction false} OneWayToCut(a: seq<string>, b: seq<string>)
    requires IsCut(a) && IsCut(b) && Concat(a) == Concat(b)
    ensures a == b
  {
    if a != [] && b != [] {
      FirstPieces(a, b);
      FirstPieces(b, a);
      assert Concat(a)[..|a[0]|] == a[0] && Concat(b)[..|b[0]|] == b[0];
      assert Concat(a)[|a[0]|..] == Concat(a[1..]) && Concat(b)[|b[0]|..] == Concat(b[1..]);
      CutTail(a);
      CutTail(b);
      OneWayToCut(a[1..], b[1..]);
      assert a == [a[0]] + a[1..] && b == [b[0]] + b[1..];
    } else {
      SomeText(a);
      SomeText(b);
    }
  }

  lemma SomeText(pieces: seq<string>)
    requires IsCut(pieces)
    ensures pieces == [] <==> Concat(pieces) == ""
  {
    if pieces != [] {
      assert IsPiece(pieces[0]);
    }
  }

  lemma CutTail(pieces: seq<string>)
    requires IsCut(pieces) && pieces != []
    ensures IsCut(pieces[1..])
  {
    var tail := pieces[1..];
    forall k | 0 < k < |tail| ensures CutBetween(tail[k - 1], tail[k]) {
      assert tail[k - 1] == pieces[k] && tail[k] == pieces[k + 1];
    }
  }

  // ----- line ends dropped

  /** The text's lines: a line end closes a line, CR LF counts once, and nothing follows the last one. */
  function SplitLines(text: string): seq<string> {
    LinesFrom(text, "")
  }

  function LinesFrom(text: string, line: string): seq<string>
    decreases |text|
  {
    if text == "" then (if line == "" then [] else [line])
    else if !IsLineEnd(text[0]) then LinesFrom(text[1..], line + [text[0]])
    else if text[0] == '\r' && |text| > 1 && text[1] == '\n' then [line] + LinesFrom(text[2..], "")
    else [line] + LinesFrom(text[1..], "")
  }

  /** A piece without its line end. */
  function Chop(piece: string): string {
    if |piece| >= 2 && piece[|piece| - 2..] == "\r\n" then piece[..|piece| - 2]
    else if Ended(piece) then piece[..|piece| - 1]
    else piece
  }

  function ChopAll(pieces: seq<string>): seq<string> {
    if pieces == [] then [] else [Chop(pieces[0])] + ChopAll(pieces[1..])
  }

  lemma ChopOne(line: string, end: string)
    requires OneLine(line) && (end == "" || end == "\r\n" || (|end| == 1 && IsLineEnd(end[0])))
    ensures Chop(line + end) == line
  {
    var piece := line + end;
    if |end| == 1 && |piece| >= 2 {
      assert piece[|piece| - 2..][0] == line[|line| - 1];
    } else if end == "" && line != "" {
      assert piece[|piece| - 1] == line[|line| - 1];
    }
    if end == "\r\n" {
      assert piece[|piece| - 2..] == end;
    }
  }

  lemma {:induction false} ChoppedFrom(text: string, line: string)
    requires OneLine(line)
    ensures LinesFrom(text, line) == ChopAll(KeepFrom(text, line))
    decreases |text|
  {
    if text == "" {
      if line != "" {
        ChopOne(line, "");
        Nothing(line);
        assert [line][1..] == [];
      }
    } else if !IsLineEnd(text[0]) {
      ChoppedFrom(text[1..], line + [text[0]]);
    } else if text[0] == '\r' && |text| > 1 && text[1] == '\n' {
      ChoppedFrom(text[2..], "");
      ChopOne(line, "\r\n");
    } else {
      ChoppedFrom(text[1..], "");
      ChopOne(line, [text[0]]);
    }
  }

  /** Without line ends, the lines are the pieces of the text, each with its line end taken off. */
  lemma LinesAreChopped(text: string)
    ensures SplitLines(text) == ChopAll(SplitKeep(text))
  {
    ChoppedFrom(text, "");
  }
}
