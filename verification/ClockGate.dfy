/**
 Finding ambient clock reads in sans-I/O code: a line scanner that skips comments and
 test items. What the regular expressions see in a line is given with the line.
 */
module ClockGate {
  import opened Sequences

  // ----- the scanner

  datatype Line = Line(
    opens: nat,
    closes: nat,
    endsWithSemicolon: bool,
    isTestAttribute: bool,
    isComment: bool,
    readsClock: bool
  )

  datatype Mode = Mode(skipping: bool, pending: bool, depth: int)

  const NEUTRAL := Mode(false, false, 0)

  predicate IsNeutral(m: Mode) {
    !m.skipping && !m.pending
  }

  /** One line: the next mode, and whether the line is reported. */
  function ScanLine(m: Mode, line: Line): (Mode, bool) {
    var delta := line.opens as int - line.closes as int;
    if m.skipping then
      var depth := m.depth + delta;
      (m.(depth := depth, skipping := depth > 0), false)
    else if m.pending then
      if line.opens > 0 then
        (Mode(delta > 0, false, delta), false)
      else
        (m.(pending := !line.endsWithSemicolon), false)
    else if line.isTestAttribute then
      (m.(pending := true), false)
    else
      (m, !line.isComment && line.readsClock)
  }

  function Scan(m: Mode, lines: seq<Line>): Mode {
    if lines == [] then m else ScanLine(Scan(m, lines[..|lines| - 1]), lines[|lines| - 1]).0
  }

  /** The numbers of the reported lines, the first line being `first`. */
  function Reads(m: Mode, lines: seq<Line>, first: nat): seq<nat> {
    if lines == [] then []
    else
      var n := |lines| - 1;
      Reads(m, lines[..n], first) + if ScanLine(Scan(m, lines[..n]), lines[n]).1 then [first + n] else []
  }

  method ClockReads(lines: seq<Line>) returns (found: seq<nat>)
    ensures found == Reads(NEUTRAL, lines, 1)
  {
    found := [];
    var skipping, pending, depth := false, false, 0;
    for n := 0 to |lines|
      invariant Mode(skipping, pending, depth) == Scan(NEUTRAL, lines[..n])
      invariant found == Reads(NEUTRAL, lines[..n], 1)
    {
      var line := lines[n];
      assert lines[..n + 1][..n] == lines[..n];
      if skipping {
        depth := depth + line.opens - line.closes;
        if depth <= 0 {
          skipping := false;
        }
        continue;
      }
      if pending {
        if line.opens != 0 {
          depth := line.opens - line.closes;
          pending := false;
          if depth > 0 {
            skipping := true;
            continue;
          }
        } else if line.endsWithSemicolon {
          pending := false;
        }
        continue;
      }
      if line.isTestAttribute {
        pending := true;
        continue;
      }
      if line.isComment {
        continue;
      }
      if line.readsClock {
        found := found + [n + 1];
      }
    }
    assert lines[..|lines|] == lines;
  }

  lemma {:induction false} ScanAppend(m: Mode, a: seq<Line>, b: seq<Line>)
    ensures Scan(m, a + b) == Scan(Scan(m, a), b)
  {
    if b == [] {
      assert a + b == a;
    } else {
      var n := |b| - 1;
      assert (a + b)[..|a + b| - 1] == a + b[..n];
      ScanAppend(m, a, b[..n]);
    }
  }

  lemma {:induction false} ReadsAppend(m: Mode, a: seq<Line>, b: seq<Line>, first: nat)
    ensures Reads(m, a + b, first) == Reads(m, a, first) + Reads(Scan(m, a), b, first + |a|)
  {
    if b == [] {
      assert a + b == a;
    } else {
      var n := |b| - 1;
      assert (a + b)[..|a + b| - 1] == a + b[..n];
      ReadsAppend(m, a, b[..n], first);
      ScanAppend(m, a, b[..n]);
    }
  }

  /** The depth left over is never looked at in the neutral mode. */
  lemma {:induction false} DepthIsForgotten(m: Mode, k: Mode, lines: seq<Line>, first: nat)
    requires m.skipping == k.skipping && m.pending == k.pending && (m.skipping ==> m.depth == k.depth)
    ensures Reads(m, lines, first) == Reads(k, lines, first)
    ensures var x, y := Scan(m, lines), Scan(k, lines);
      x.skipping == y.skipping && x.pending == y.pending && (x.skipping ==> x.depth == y.depth)
  {
    if lines != [] {
      DepthIsForgotten(m, k, lines[..|lines| - 1], first);
    }
  }

  function Shift(numbers: seq<nat>, shift: nat): (r: seq<nat>)
    ensures |r| == |numbers| && forall i :: 0 <= i < |r| ==> r[i] == numbers[i] + shift
  {
    seq(|numbers|, i requires 0 <= i < |numbers| => numbers[i] + shift)
  }

  lemma {:induction false} ReadsShift(m: Mode, lines: seq<Line>, first: nat, shift: nat)
    ensures Reads(m, lines, first + shift) == Shift(Reads(m, lines, first), shift)
  {
    if lines != [] {
      ReadsShift(m, lines[..|lines| - 1], first, shift);
    }
  }

  // ----- test items

  /** Braces opened minus braces closed. */
  function Balance(lines: seq<Line>): int {
    if lines == [] then 0 else Balance(lines[..|lines| - 1]) + lines[|lines| - 1].opens - lines[|lines| - 1].closes
  }

  /** Lines between the attribute and the item proper: further attributes, doc comments, a signature. */
  predicate Lead(lines: seq<Line>) {
    forall i :: 0 <= i < |lines| ==> lines[i].opens == 0 && !lines[i].endsWithSemicolon
  }

  /** A declaration ending in a semicolon, or a block whose braces close on its last line and not before. */
  predicate Body(lines: seq<Line>) {
    && lines != []
    && if lines[0].opens == 0 then |lines| == 1 && lines[0].endsWithSemicolon
       else Balance(lines) <= 0 && OpenBefore(lines, |lines|)
  }

  /** The braces are not balanced after any beginning shorter than `n` lines. */
  predicate OpenBefore(lines: seq<Line>, n: nat)
    requires n <= |lines|
  {
    forall k :: 0 < k < n ==> BalanceAt(lines, k) > 0
  }

  function BalanceAt(lines: seq<Line>, k: nat): int
    requires k <= |lines|
  {
    Balance(lines[..k])
  }

  /** A test item as the scanner means it, cut into attribute line, lead and body. */
  predicate TestItem(attribute: Line, lead: seq<Line>, body: seq<Line>) {
    attribute.isTestAttribute && Lead(lead) && Body(body)
  }

  lemma {:induction false} LeadWaits(m: Mode, lines: seq<Line>, first: nat)
    requires !m.skipping && m.pending && Lead(lines)
    ensures !Scan(m, lines).skipping && Scan(m, lines).pending && Reads(m, lines, first) == []
  {
    if lines != [] {
      LeadWaits(m, lines[..|lines| - 1], first);
    }
  }

  /** The first `n` lines of a block are skipped, and the depth is their balance. */
  lemma {:induction false} BlockSkips(m: Mode, lines: seq<Line>, n: nat, first: nat)
    requires !m.skipping && m.pending && 0 < n <= |lines| && lines[0].opens > 0 && OpenBefore(lines, n)
    ensures Reads(m, lines[..n], first) == []
    ensures var r, balance := Scan(m, lines[..n]), Balance(lines[..n]);
      !r.pending && r.skipping == (balance > 0) && r.depth == balance
  {
    assert lines[..n][..n - 1] == lines[..n - 1] && lines[..n][n - 1] == lines[n - 1];
    if n == 1 {
      assert lines[..0] == [] && Balance([]) == 0 && Scan(m, []) == m;
    } else {
      BlockSkips(m, lines, n - 1, first);
      assert BalanceAt(lines, n - 1) > 0;
    }
  }

  lemma BodySkips(m: Mode, lines: seq<Line>, first: nat)
    requires !m.skipping && m.pending && Body(lines)
    ensures Reads(m, lines, first) == [] && IsNeutral(Scan(m, lines))
  {
    if lines[0].opens == 0 {
      assert lines[..0] == [] && Scan(m, []) == m;
    } else {
      BlockSkips(m, lines, |lines|, first);
      assert lines[..|lines|] == lines;
    }
  }

  /** A test item scanned from the neutral mode reports nothing and ends neutral. */
  lemma ItemSkips(m: Mode, attribute: Line, lead: seq<Line>, body: seq<Line>, first: nat)
    requires IsNeutral(m) && TestItem(attribute, lead, body)
    ensures var item := [attribute] + lead + body;
      Reads(m, item, first) == [] && IsNeutral(Scan(m, item))
  {
    var m1 := m.(pending := true);
    assert Scan(m, []) == m && [attribute][..0] == [];
    assert Scan(m, [attribute]) == m1 && Reads(m, [attribute], first) == [];
    LeadWaits(m1, lead, first + 1);
    var m2 := Scan(m1, lead);
    BodySkips(m2, body, first + 1 + |lead|);
    ScanAppend(m, [attribute], lead);
    ReadsAppend(m, [attribute], lead, first);
    ScanAppend(m, [attribute] + lead, body);
    ReadsAppend(m, [attribute] + lead, body, first);
  }

  /** Inserting a test item where the scanner is neutral only shifts the line numbers after it. */
  lemma InsertedItem(before: seq<Line>, attribute: Line, lead: seq<Line>, body: seq<Line>, after: seq<Line>)
    requires IsNeutral(Scan(NEUTRAL, before)) && TestItem(attribute, lead, body)
    ensures
      var item := [attribute] + lead + body;
      var kept, rest := Reads(NEUTRAL, before, 1), Reads(Scan(NEUTRAL, before), after, 1 + |before|);
      && Reads(NEUTRAL, before + after, 1) == kept + rest
      && Reads(NEUTRAL, before + item + after, 1) == kept + Shift(rest, |item|)
  {
    var item := [attribute] + lead + body;
    ReadsAppend(NEUTRAL, before, after, 1);
    ItemSkips(Scan(NEUTRAL, before), attribute, lead, body, 1 + |before|);
    SkippedLines(before, item, after);
    ReadsShift(Scan(NEUTRAL, before), after, 1 + |before|, |item|);
  }

  /** Lines that report nothing from one neutral mode to another only move what follows. */
  lemma SkippedLines(before: seq<Line>, item: seq<Line>, after: seq<Line>)
    requires var m := Scan(NEUTRAL, before);
      IsNeutral(m) && Reads(m, item, 1 + |before|) == [] && IsNeutral(Scan(m, item))
    ensures Reads(NEUTRAL, before + item + after, 1) ==
      Reads(NEUTRAL, before, 1) + Reads(Scan(NEUTRAL, before), after, 1 + |before| + |item|)
  {
    var m := Scan(NEUTRAL, before);
    ReadsAppend(NEUTRAL, before, item, 1);
    ScanAppend(NEUTRAL, before, item);
    ReadsAppend(NEUTRAL, before + item, after, 1);
    DepthIsForgotten(Scan(m, item), m, after, 1 + |before| + |item|);
    Nothing(Reads(NEUTRAL, before, 1));
  }

  /** Some cut of the lines into attribute, lead and body makes them a test item. */
  predicate IsTestItem(item: seq<Line>) {
    exists k :: 1 <= k < |item| && CutAt(item, k)
  }

  predicate CutAt(item: seq<Line>, k: nat)
    requires 1 <= k < |item|
  {
    TestItem(item[0], item[1..k], item[k..])
  }

  /** Scanned from the neutral mode, the lines come back to it at their end and not before. */
  predicate ReturnsAtEnd(item: seq<Line>) {
    && IsNeutral(Scan(NEUTRAL, item))
    && forall j :: 0 < j < |item| ==> !IsNeutral(Scan(NEUTRAL, item[..j]))
  }

  lemma AttributeWaits(item: seq<Line>, k: nat)
    requires 1 <= k <= |item| && item[0].isTestAttribute && Lead(item[1..k])
    ensures var m := Scan(NEUTRAL, item[..k]); !m.skipping && m.pending
  {
    assert item[..k] == [item[0]] + item[1..k];
    assert [item[0]][..0] == [] && Scan(NEUTRAL, []) == NEUTRAL;
    ScanAppend(NEUTRAL, [item[0]], item[1..k]);
    LeadWaits(NEUTRAL.(pending := true), item[1..k], 0);
  }

  /** The first line after the attribute that is not lead, or the length. */
  lemma LeadEnds(item: seq<Line>) returns (k: nat)
    requires item != []
    ensures 1 <= k <= |item| && Lead(item[1..k])
    ensures k < |item| ==> item[k].opens > 0 || item[k].endsWithSemicolon
  {
    k := 1;
    while k < |item| && item[k].opens == 0 && !item[k].endsWithSemicolon
      invariant 1 <= k <= |item| && Lead(item[1..k])
    {
      assert item[1..k + 1] == item[1..k] + [item[k]];
      k := k + 1;
    }
  }

  lemma PrefixScan(item: seq<Line>, k: nat, j: nat)
    requires k <= j <= |item|
    ensures Scan(NEUTRAL, item[..j]) == Scan(Scan(NEUTRAL, item[..k]), item[k..j])
  {
    assert item[..j] == item[..k] + item[k..j];
    ScanAppend(NEUTRAL, item[..k], item[k..j]);
  }

  /** While a block is being skipped its braces are not balanced yet. */
  lemma {:induction false} StillOpen(item: seq<Line>, k: nat, n: nat)
    requires 1 <= k < |item| && k + n <= |item| && item[0].isTestAttribute && Lead(item[1..k]) && item[k].opens > 0
    requires ReturnsAtEnd(item)
    ensures OpenBefore(item[k..], n)
  {
    if n > 1 {
      StillOpen(item, k, n - 1);
      OpenHere(item, k, n - 1);
    }
  }

  lemma OpenHere(item: seq<Line>, k: nat, n: nat)
    requires 1 <= k < |item| && 0 < n && k + n < |item|
    requires item[0].isTestAttribute && Lead(item[1..k]) && item[k].opens > 0
    requires ReturnsAtEnd(item) && OpenBefore(item[k..], n)
    ensures Balance(item[k..][..n]) > 0
  {
    AttributeWaits(item, k);
    BlockSkips(Scan(NEUTRAL, item[..k]), item[k..], n, 0);
    PrefixScan(item, k, k + n);
    assert item[k..][..n] == item[k..k + n];
  }

  lemma SkippedBody(item: seq<Line>, k: nat)
    requires 1 <= k < |item| && item[0].isTestAttribute && Lead(item[1..k]) && ReturnsAtEnd(item)
    requires item[k].opens > 0 || item[k].endsWithSemicolon
    ensures Body(item[k..])
  {
    AttributeWaits(item, k);
    var m := Scan(NEUTRAL, item[..k]);
    if item[k].opens == 0 {
      PrefixScan(item, k, k + 1);
      ReadsSnoc(m, [], item[k], 0);
      assert item[k..k + 1] == [] + [item[k]];
    } else {
      var n := |item| - k;
      StillOpen(item, k, n);
      BlockSkips(m, item[k..], n, 0);
      PrefixScan(item, k, |item|);
      assert item[..|item|] == item && item[k..][..n] == item[k..] && item[k..|item|] == item[k..];
    }
  }

  /** The cut of a test item. */
  lemma CutItem(item: seq<Line>) returns (k: nat)
    requires IsTestItem(item)
    ensures 1 <= k < |item| && TestItem(item[0], item[1..k], item[k..])
  {
    k :| 1 <= k < |item| && CutAt(item, k);
  }

  lemma Uncut(item: seq<Line>, k: nat)
    requires 1 <= k < |item|
    ensures [item[0]] + item[1..k] + item[k..] == item
  {}

  /** A test item scanned from the neutral mode reports nothing and ends neutral. */
  lemma ItemReadsNothing(m: Mode, item: seq<Line>, first: nat)
    requires IsNeutral(m) && IsTestItem(item)
    ensures Reads(m, item, first) == [] && IsNeutral(Scan(m, item))
  {
    var k := CutItem(item);
    ItemSkips(m, item[0], item[1..k], item[k..], first);
    Uncut(item, k);
  }

  lemma ReturnsAreItems(item: seq<Line>)
    requires item != [] && item[0].isTestAttribute && ReturnsAtEnd(item)
    ensures IsTestItem(item)
  {
    var k := LeadEnds(item);
    AttributeWaits(item, k);
    assert item[..|item|] == item;
    SkippedBody(item, k);
    assert CutAt(item, k);
  }

  lemma ItemsReturn(item: seq<Line>)
    requires IsTestItem(item)
    ensures ReturnsAtEnd(item)
  {
    var k := CutItem(item);
    ItemReadsNothing(NEUTRAL, item, 0);
    forall j | 0 < j < |item| ensures !IsNeutral(Scan(NEUTRAL, item[..j])) {
      NotBeforeEnd(item, k, j);
    }
  }

  /** What the scanner skips after a test attribute is exactly a test item. */
  lemma SkipsTestItems(item: seq<Line>)
    requires item != [] && item[0].isTestAttribute
    ensures ReturnsAtEnd(item) <==> IsTestItem(item)
  {
    if ReturnsAtEnd(item) {
      ReturnsAreItems(item);
    }
    if IsTestItem(item) {
      ItemsReturn(item);
    }
  }

  lemma NotBeforeEnd(item: seq<Line>, k: nat, j: nat)
    requires 1 <= k < |item| && 0 < j < |item| && TestItem(item[0], item[1..k], item[k..])
    ensures !IsNeutral(Scan(NEUTRAL, item[..j]))
  {
    if j <= k {
      assert item[1..j] == item[1..k][..j - 1];
      AttributeWaits(item, j);
    } else {
      assert item[k..j] == item[k..][..j - k];
      AttributeWaits(item, k);
      PrefixScan(item, k, j);
      BlockSkips(Scan(NEUTRAL, item[..k]), item[k..], j - k, 0);
      assert BalanceAt(item[k..], j - k) > 0;
    }
  }

  lemma ReadsSnoc(m: Mode, lines: seq<Line>, line: Line, first: nat)
    ensures Scan(m, lines + [line]) == ScanLine(Scan(m, lines), line).0
    ensures Reads(m, lines + [line], first)
         == Reads(m, lines, first) + if ScanLine(Scan(m, lines), line).1 then [first + |lines|] else []
  {
    assert (lines + [line])[..|lines|] == lines;
  }

  /**
   A test item that begins on its attribute's line is not seen, whether a block or a
   declaration: the next line's clock read goes unreported.
   */
  lemma AttributeLineNeedsItsOwn(attribute: Line, read: Line)
    requires attribute.isTestAttribute
    requires read.readsClock && !read.isComment && !read.isTestAttribute
    ensures Reads(NEUTRAL, [read], 1) == [1] && Reads(NEUTRAL, [attribute] + [read], 1) == []
  {
    ReadsSnoc(NEUTRAL, [], read, 1);
    ReadsSnoc(NEUTRAL, [], attribute, 1);
    ReadsSnoc(NEUTRAL, [attribute], read, 1);
    assert [] + [read] == [read] && [] + [attribute] == [attribute];
  }

  // ----- whole files

  /** A line of its own, a test item, or a test item the file ends in. */
  datatype Piece = Code(line: Line) | Item(lines: seq<Line>) | Unfinished(lines: seq<Line>)

  function LinesOf(piece: Piece): seq<Line> {
    match piece
    case Code(line) => [line]
    case Item(lines) => lines
    case Unfinished(lines) => lines
  }

  function Flatten(pieces: seq<Piece>): seq<Line> {
    if pieces == [] then [] else LinesOf(pieces[0]) + Flatten(pieces[1..])
  }

  /** A test attribute and lines no beginning of which is a test item. */
  predicate NeverEnds(lines: seq<Line>) {
    && lines != [] && lines[0].isTestAttribute
    && forall k :: 0 <= k <= |lines| ==> !ItemUpTo(lines, k)
  }

  predicate ItemUpTo(lines: seq<Line>, k: nat)
    requires k <= |lines|
  {
    IsTestItem(lines[..k])
  }

  predicate GoodPiece(piece: Piece) {
    match piece
    case Code(line) => !line.isTestAttribute
    case Item(lines) => lines != [] && lines[0].isTestAttribute && IsTestItem(lines)
    case Unfinished(lines) => NeverEnds(lines)
  }

  /** Code and test items in any order; only the last piece may be unfinished. */
  predicate IsDivision(pieces: seq<Piece>) {
    pieces == [] || (GoodPiece(pieces[0]) && (pieces[0].Unfinished? ==> |pieces| == 1) && IsDivision(pieces[1..]))
  }

  /** The numbers of the clock reads in code, comments left out. */
  function CodeReads(pieces: seq<Piece>, first: nat): seq<nat> {
    if pieces == [] then []
    else PieceReport(pieces[0], first) + CodeReads(pieces[1..], first + |LinesOf(pieces[0])|)
  }

  function PieceReport(piece: Piece, number: nat): seq<nat> {
    if piece.Code? && !piece.line.isComment && piece.line.readsClock then [number] else []
  }

  /** Away from the neutral mode nothing is reported. */
  lemma {:induction false} SkippedReadsNothing(m: Mode, lines: seq<Line>, first: nat)
    requires lines != [] && lines[0].isTestAttribute
    requires IsNeutral(m) && forall k :: 0 < k < |lines| ==> !IsNeutral(Scan(m, lines[..k]))
    ensures Reads(m, lines, first) == []
  {
    var n := |lines| - 1;
    if n > 0 {
      assert forall k :: 0 < k < n ==> lines[..n][..k] == lines[..k];
      SkippedReadsNothing(m, lines[..n], first);
    } else {
      assert lines[..0] == [] && Scan(m, []) == m;
    }
  }

  /** The first return to the neutral mode after a test attribute ends a test item. */
  lemma {:induction false} ReturnEndsItem(lines: seq<Line>, k: nat)
    requires lines != [] && lines[0].isTestAttribute && 0 < k <= |lines| && IsNeutral(Scan(NEUTRAL, lines[..k]))
    ensures exists j :: 0 < j <= k && ItemUpTo(lines, j)
  {
    if forall j :: 0 < j < k ==> !IsNeutral(Scan(NEUTRAL, lines[..j])) {
      var item := lines[..k];
      assert forall j :: 0 < j < k ==> item[..j] == lines[..j];
      SkipsTestItems(item);
      assert ItemUpTo(lines, k);
    } else {
      var j :| 0 < j < k && IsNeutral(Scan(NEUTRAL, lines[..j]));
      ReturnEndsItem(lines, j);
    }
  }

  lemma UnfinishedReadsNothing(m: Mode, lines: seq<Line>, first: nat)
    requires IsNeutral(m) && NeverEnds(lines)
    ensures Reads(m, lines, first) == []
  {
    forall k | 0 < k < |lines| ensures !IsNeutral(Scan(NEUTRAL, lines[..k])) {
      if IsNeutral(Scan(NEUTRAL, lines[..k])) {
        ReturnEndsItem(lines, k);
      }
    }
    SkippedReadsNothing(NEUTRAL, lines, first);
    DepthIsForgotten(m, NEUTRAL, lines, first);
  }

  lemma PieceReads(m: Mode, piece: Piece, first: nat)
    requires IsNeutral(m) && GoodPiece(piece)
    ensures Reads(m, LinesOf(piece), first) == PieceReport(piece, first)
    ensures !piece.Unfinished? ==> IsNeutral(Scan(m, LinesOf(piece)))
  {
    match piece
    case Code(line) =>
      ReadsSnoc(m, [], line, first);
      Nothing([line]);
    case Item(lines) => ItemReadsNothing(m, lines, first);
    case Unfinished(lines) => UnfinishedReadsNothing(m, lines, first);
  }

  /** The reports of a file scanned piece by piece. */
  function PieceByPiece(m: Mode, pieces: seq<Piece>, first: nat): seq<nat>
    decreases |pieces|
  {
    if pieces == [] then []
    else
      var lines := LinesOf(pieces[0]);
      Reads(m, lines, first) + PieceByPiece(Scan(m, lines), pieces[1..], first + |lines|)
  }

  lemma {:induction false} ScannedInPieces(m: Mode, pieces: seq<Piece>, first: nat)
    ensures Reads(m, Flatten(pieces), first) == PieceByPiece(m, pieces, first)
    decreases |pieces|
  {
    if pieces != [] {
      var lines := LinesOf(pieces[0]);
      ReadsAppend(m, lines, Flatten(pieces[1..]), first);
      ScannedInPieces(Scan(m, lines), pieces[1..], first + |lines|);
    }
  }

  /** Piece by piece, the scanner reports the clock reads in code and nothing else. */
  predicate Agrees(m: Mode, pieces: seq<Piece>, first: nat)
    decreases |pieces|
  {
    pieces == [] ||
    var lines := LinesOf(pieces[0]);
    Reads(m, lines, first) == PieceReport(pieces[0], first) && Agrees(Scan(m, lines), pieces[1..], first + |lines|)
  }

  lemma {:induction false} DivisionAgrees(m: Mode, pieces: seq<Piece>, first: nat)
    requires IsNeutral(m) && IsDivision(pieces)
    ensures Agrees(m, pieces, first)
    decreases |pieces|
  {
    if pieces != [] {
      var lines := LinesOf(pieces[0]);
      PieceReads(m, pieces[0], first);
      if !pieces[0].Unfinished? {
        DivisionAgrees(Scan(m, lines), pieces[1..], first + |lines|);
      }
    }
  }

  lemma {:induction false} AgreesInAll(m: Mode, pieces: seq<Piece>, first: nat)
    requires Agrees(m, pieces, first)
    ensures PieceByPiece(m, pieces, first) == CodeReads(pieces, first)
    decreases |pieces|
  {
    if pieces != [] {
      var lines := LinesOf(pieces[0]);
      AgreesInAll(Scan(m, lines), pieces[1..], first + |lines|);
    }
  }

  /** The scanner reports exactly the clock reads in the code of a division, comments left out. */
  lemma ReportsCode(pieces: seq<Piece>)
    requires IsDivision(pieces)
    ensures Reads(NEUTRAL, Flatten(pieces), 1) == CodeReads(pieces, 1)
  {
    ScannedInPieces(NEUTRAL, pieces, 1);
    DivisionAgrees(NEUTRAL, pieces, 1);
    AgreesInAll(NEUTRAL, pieces, 1);
  }

  lemma DivisionRest(pieces: seq<Piece>)
    requires pieces != [] && IsDivision(pieces)
    ensures GoodPiece(pieces[0]) && IsDivision(pieces[1..]) && (pieces[0].Unfinished? ==> pieces[1..] == [])
  {}

  lemma DivisionFront(piece: Piece, rest: seq<Piece>)
    requires GoodPiece(piece) && IsDivision(rest) && (piece.Unfinished? ==> rest == [])
    ensures IsDivision([piece] + rest) && Flatten([piece] + rest) == LinesOf(piece) + Flatten(rest)
  {
    assert ([piece] + rest)[1..] == rest;
  }

  /** Every file has a division. */
  lemma {:induction false} Divide(lines: seq<Line>) returns (pieces: seq<Piece>)
    ensures IsDivision(pieces) && Flatten(pieces) == lines
    decreases |lines|
  {
    if lines == [] {
      pieces := [];
    } else {
      var piece := FirstPiece(lines);
      var rest := Divide(lines[|LinesOf(piece)|..]);
      pieces := [piece] + rest;
      DivisionFront(piece, rest);
      PrefixAndRest(LinesOf(piece), lines);
    }
  }

  lemma PrefixAndRest(a: seq<Line>, lines: seq<Line>)
    requires a <= lines
    ensures a + lines[|a|..] == lines
  {}

  lemma FirstPiece(lines: seq<Line>) returns (piece: Piece)
    requires lines != []
    ensures GoodPiece(piece) && LinesOf(piece) <= lines && LinesOf(piece) != []
    ensures piece.Unfinished? ==> LinesOf(piece) == lines
  {
    if !lines[0].isTestAttribute {
      piece := Code(lines[0]);
    } else if k :| 0 < k <= |lines| && ItemUpTo(lines, k) {
      piece := Item(lines[..k]);
    } else {
      assert !ItemUpTo(lines, 0);
      piece := Unfinished(lines);
    }
  }

  /** No test item begins another: the braces of the longer one are open where the shorter one ends. */
  lemma ItemsDoNotNest(lines: seq<Line>, j: nat, k: nat)
    requires 0 < j <= |lines| && 0 < k <= |lines|
    requires IsTestItem(lines[..j]) && IsTestItem(lines[..k])
    ensures j == k
  {
    ItemsReturn(lines[..j]);
    ItemsReturn(lines[..k]);
    if j < k {
      ReturnsFirst(lines, k, j);
    } else if k < j {
      ReturnsFirst(lines, j, k);
    }
  }

  lemma ReturnsFirst(lines: seq<Line>, k: nat, j: nat)
    requires 0 < j < k <= |lines| && ReturnsAtEnd(lines[..k])
    ensures !IsNeutral(Scan(NEUTRAL, lines[..j]))
  {
    assert lines[..k][..j] == lines[..j];
  }

  lemma FirstPieceUnique(a: Piece, b: Piece, lines: seq<Line>)
    requires GoodPiece(a) && GoodPiece(b) && LinesOf(a) <= lines && LinesOf(b) <= lines
    requires (a.Unfinished? ==> LinesOf(a) == lines) && (b.Unfinished? ==> LinesOf(b) == lines)
    ensures a == b
  {
    var j, k := |LinesOf(a)|, |LinesOf(b)|;
    assert LinesOf(a) == lines[..j] && LinesOf(b) == lines[..k];
    assert (a.Item? ==> ItemUpTo(lines, j)) && (b.Item? ==> ItemUpTo(lines, k));
    if a.Item? && b.Item? {
      ItemsDoNotNest(lines, j, k);
    }
  }

  /** Two divisions of one file start with the same piece and go on with divisions of one file. */
  lemma SameStart(a: seq<Piece>, b: seq<Piece>)
    requires a != [] && b != [] && IsDivision(a) && IsDivision(b) && Flatten(a) == Flatten(b)
    ensures a[0] == b[0] && Flatten(a[1..]) == Flatten(b[1..]) && IsDivision(a[1..]) && IsDivision(b[1..])
  {
    DivisionRest(a);
    DivisionRest(b);
    FirstPieceUnique(a[0], b[0], Flatten(a));
    SameRest(LinesOf(a[0]), Flatten(a[1..]), Flatten(b[1..]));
  }

  lemma SamePieces(a: seq<Piece>, b: seq<Piece>)
    requires a != [] && b != [] && a[0] == b[0] && a[1..] == b[1..]
    ensures a == b
  {
    assert a == [a[0]] + a[1..] && b == [b[0]] + b[1..];
  }

  /** And only one. */
  lemma {:induction false} DivisionUnique(a: seq<Piece>, b: seq<Piece>)
    requires IsDivision(a) && IsDivision(b) && Flatten(a) == Flatten(b)
    ensures a == b
    decreases |a|
  {
    if a != [] && b != [] {
      SameStart(a, b);
      DivisionUnique(a[1..], b[1..]);
      SamePieces(a, b);
    } else {
      FlattenNothing(a);
      FlattenNothing(b);
    }
  }

  lemma SameRest(a: seq<Line>, b: seq<Line>, c: seq<Line>)
    requires a + b == a + c
    ensures b == c
  {
    assert b == (a + b)[|a|..] && c == (a + c)[|a|..];
  }

  lemma FlattenNothing(pieces: seq<Piece>)
    requires IsDivision(pieces)
    ensures Flatten(pieces) == [] <==> pieces == []
  {
    if pieces != [] { assert GoodPiece(pieces[0]) && LinesOf(pieces[0]) != []; }
  }

  /**
   The scanner reports exactly the lines of a file that read a clock, are not comments and
   stand outside the test items of the file's one division.
   */
  lemma ReportsExactly(lines: seq<Line>) returns (pieces: seq<Piece>)
    ensures IsDivision(pieces) && Flatten(pieces) == lines
    ensures forall other :: IsDivision(other) && Flatten(other) == lines ==> other == pieces
    ensures Reads(NEUTRAL, lines, 1) == CodeReads(pieces, 1)
  {
    pieces := Divide(lines);
    ReportsCode(pieces);
    forall other | IsDivision(other) && Flatten(other) == lines ensures other == pieces {
      DivisionUnique(other, pieces);
    }
  }
}
