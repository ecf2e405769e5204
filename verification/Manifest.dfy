/**
 Editing a TOML manifest as text: the manifest is split into tables, entries are found
 in their bodies, and additions are made without disturbing anything else. What the
 regular expressions say of a line is given by a `Grammar`.
 */
module Manifest {
  import opened Sequences
  import opened Wrappers
  import opened Text
  import opened LineSplitting

  /** A header line and the lines of its table, line ends kept. */
  datatype Table = Table(header: string, body: seq<string>)

  datatype TableName = Single(name: string) | Array(name: string)

  datatype Grammar = Grammar(
    /** The name in a header line, `None` for any other line. */
    header: string -> Option<TableName>,
    /** The key a line starts an entry for. */
    key: string -> Option<string>,
    /** Brackets opened and closed outside strings and comments. */
    opens: string -> nat,
    closes: string -> nat,
    isBlank: string -> bool
  )

  // ----- splitting and joining

  function TableText(t: Table): string {
    t.header + Concat(t.body)
  }

  function JoinTables(tables: seq<Table>): string {
    if tables == [] then "" else JoinTables(tables[..|tables| - 1]) + TableText(tables[|tables| - 1])
  }

  /** A header line opens a table, any other goes into the last one. */
  function AddLine(tables: seq<Table>, line: string, g: Grammar): (r: seq<Table>)
    requires tables != []
    ensures r != []
  {
    if g.header(line).Some? then tables + [Table(line, [])]
    else
      var n := |tables| - 1;
      tables[n := tables[n].(body := tables[n].body + [line])]
  }

  function SplitInto(lines: seq<string>, g: Grammar): (tables: seq<Table>)
    ensures tables != []
  {
    if lines == [] then [Table("", [])] else AddLine(SplitInto(lines[..|lines| - 1], g), lines[|lines| - 1], g)
  }

  function SplitTables(text: string, g: Grammar): (tables: seq<Table>)
    ensures tables != []
  {
    SplitInto(SplitKeep(text), g)
  }

  method SplitTablesLoop(text: string, g: Grammar) returns (tables: seq<Table>)
    ensures tables == SplitTables(text, g)
  {
    tables := [Table("", [])];
    var lines := SplitKeep(text);
    for k := 0 to |lines|
      invariant tables == SplitInto(lines[..k], g)
    {
      assert lines[..k + 1][..k] == lines[..k];
      if g.header(lines[k]).Some? {
        tables := tables + [Table(lines[k], [])];
      } else {
        var last := tables[|tables| - 1];
        tables := tables[|tables| - 1 := last.(body := last.body + [lines[k]])];
      }
    }
    assert lines[..|lines|] == lines;
  }

  lemma AddLineText(tables: seq<Table>, line: string, g: Grammar)
    requires tables != []
    ensures JoinTables(AddLine(tables, line, g)) == JoinTables(tables) + line
  {
    var r, n := AddLine(tables, line, g), |tables| - 1;
    if g.header(line).Some? {
      assert r[..|r| - 1] == tables;
      assert TableText(Table(line, [])) == line + "" == line;
    } else {
      assert r[..n] == tables[..n];
      BodyLineText(tables[n], line);
      Associate(JoinTables(tables[..n]), TableText(tables[n]), line);
    }
  }

  lemma BodyLineText(t: Table, line: string)
    ensures TableText(t.(body := t.body + [line])) == TableText(t) + line
  {
    ConcatAppend(t.body, [line]);
    ConcatOne(line);
    Associate(t.header, Concat(t.body), line);
  }

  lemma {:induction false} SplitIntoText(lines: seq<string>, g: Grammar)
    ensures JoinTables(SplitInto(lines, g)) == Concat(lines)
  {
    if lines == [] {
      assert [Table("", [])][..0] == [];
    } else {
      var n := |lines| - 1;
      SplitIntoText(lines[..n], g);
      AddLineText(SplitInto(lines[..n], g), lines[n], g);
      ConcatAppend(lines[..n], [lines[n]]);
      ConcatOne(lines[n]);
      assert lines == lines[..n] + [lines[n]];
    }
  }

  /** The lines of the tables in order; the first table has no header line. */
  function LinesOf(tables: seq<Table>): seq<string>
    requires tables != []
  {
    var n := |tables| - 1;
    if n == 0 then tables[0].body else LinesOf(tables[..n]) + [tables[n].header] + tables[n].body
  }

  /** Later tables are headed by header lines, and no body holds one. */
  predicate Shaped(tables: seq<Table>, g: Grammar) {
    && tables != [] && tables[0].header == ""
    && (forall k :: 1 <= k < |tables| ==> g.header(tables[k].header).Some?)
    && forall k :: 0 <= k < |tables| ==> PlainBody(tables[k].body, g)
  }

  predicate PlainBody(body: seq<string>, g: Grammar) {
    forall i :: 0 <= i < |body| ==> g.header(body[i]) == None
  }

  lemma AddLineShape(tables: seq<Table>, line: string, g: Grammar)
    requires Shaped(tables, g)
    ensures Shaped(AddLine(tables, line, g), g) && LinesOf(AddLine(tables, line, g)) == LinesOf(tables) + [line]
  {
    var r, n := AddLine(tables, line, g), |tables| - 1;
    if g.header(line).Some? {
      assert r[..|r| - 1] == tables;
      assert LinesOf(tables) + [line] + [] == LinesOf(tables) + [line];
    } else {
      assert r[..n] == tables[..n];
      assert PlainBody(r[n].body, g);
    }
  }

  /** The tables hold the lines, each once and in order, and a table starts exactly at each header line. */
  lemma {:induction false} SplitShape(lines: seq<string>, g: Grammar)
    ensures Shaped(SplitInto(lines, g), g) && LinesOf(SplitInto(lines, g)) == lines
  {
    if lines != [] {
      var n := |lines| - 1;
      SplitShape(lines[..n], g);
      AddLineShape(SplitInto(lines[..n], g), lines[n], g);
      assert lines == lines[..n] + [lines[n]];
    }
  }

  /**
   The tables of a text hold its lines, cut as `IsCut` says and so in the only way there
   is, each once and in order, and a table starts exactly at each header line.
   */
  lemma SplitTablesShape(text: string, g: Grammar)
    ensures var tables := SplitTables(text, g);
      Shaped(tables, g) && IsCut(LinesOf(tables)) && Concat(LinesOf(tables)) == text
  {
    SplitShape(SplitKeep(text), g);
    CutAtLineEnds(text);
  }

  /** Joining the split tables gives the text back exactly. */
  lemma JoinSplit(text: string, g: Grammar)
    ensures JoinTables(SplitTables(text, g)) == text
  {
    SplitIntoText(SplitKeep(text), g);
    CutAtLineEnds(text);
  }

  // ----- entries

  /** The lines `start` up to `end` of a body, an entry for `key`. */
  datatype Entry = Entry(key: string, start: nat, end: nat)

  datatype Found = Found(entries: seq<Entry>, depth: nat)

  function NextDepth(depth: nat, line: string, g: Grammar): nat {
    var d := depth + g.opens(line) - g.closes(line);
    if d < 0 then 0 else d
  }

  /** One more line: it goes on with an entry whose brackets are open, starts one, or belongs to none. */
  function AddEntryLine(f: Found, index: nat, line: string, g: Grammar): Found {
    if f.depth > 0 && f.entries != [] then
      var k := |f.entries| - 1;
      Found(f.entries[k := f.entries[k].(end := index + 1)], NextDepth(f.depth, line, g))
    else if g.key(line) == None then f
    else Found(f.entries + [Entry(g.key(line).value, index, index + 1)], NextDepth(f.depth, line, g))
  }

  function FindEntries(body: seq<string>, g: Grammar): Found {
    if body == [] then Found([], 0)
    else AddEntryLine(FindEntries(body[..|body| - 1], g), |body| - 1, body[|body| - 1], g)
  }

  method TableEntries(body: seq<string>, g: Grammar) returns (entries: seq<Entry>)
    ensures entries == FindEntries(body, g).entries
  {
    entries := [];
    var depth: nat := 0;
    for index := 0 to |body|
      invariant Found(entries, depth) == FindEntries(body[..index], g)
    {
      assert body[..index + 1][..index] == body[..index];
      var line := body[index];
      if depth > 0 && entries != [] {
        var k := |entries| - 1;
        entries := entries[k := entries[k].(end := index + 1)];
      } else {
        var key := g.key(line);
        if key == None {
          continue;
        }
        entries := entries + [Entry(key.value, index, index + 1)];
      }
      depth := NextDepth(depth, line, g);
    }
    assert body[..|body|] == body;
  }

  /** An entry's span is inside the body and starts at a line with its key. */
  predicate GoodSpan(body: seq<string>, e: Entry, g: Grammar) {
    e.start < e.end <= |body| && g.key(body[e.start]) == Some(e.key)
  }

  /** Line `i` belongs to entry `e`. */
  predicate Covers(e: Entry, i: nat) {
    e.start <= i < e.end
  }

  /** In range, ordered and disjoint. */
  predicate Spans(body: seq<string>, entries: seq<Entry>, g: Grammar) {
    && (forall k :: 0 <= k < |entries| ==> GoodSpan(body, entries[k], g))
    && forall j, k :: 0 <= j < k < |entries| ==> entries[j].end <= entries[k].start
  }

  predicate Covered(entries: seq<Entry>, i: nat) {
    exists k :: 0 <= k < |entries| && Covers(entries[k], i)
  }

  /** Every line with a key belongs to an entry. */
  predicate AllCovered(body: seq<string>, entries: seq<Entry>, g: Grammar) {
    forall i :: 0 <= i < |body| && g.key(body[i]).Some? ==> Covered(entries, i)
  }

  lemma CoveredStill(entries: seq<Entry>, more: seq<Entry>, i: nat)
    requires Covered(entries, i) && |entries| <= |more|
    requires forall k :: 0 <= k < |entries| ==> more[k].start == entries[k].start && entries[k].end <= more[k].end
    ensures Covered(more, i)
  {
    var k :| 0 <= k < |entries| && Covers(entries[k], i);
    assert Covers(more[k], i);
  }

  lemma AllCoveredStill(body: seq<string>, line: string, entries: seq<Entry>, more: seq<Entry>, g: Grammar)
    requires AllCovered(body, entries, g) && |entries| <= |more|
    requires forall k :: 0 <= k < |entries| ==> more[k].start == entries[k].start && entries[k].end <= more[k].end
    requires g.key(line).Some? ==> Covered(more, |body|)
    ensures AllCovered(body + [line], more, g)
  {
    var all := body + [line];
    forall i | 0 <= i < |all| && g.key(all[i]).Some? ensures Covered(more, i) {
      if i < |body| {
        assert all[i] == body[i];
        CoveredStill(entries, more, i);
      }
    }
  }

  lemma Extended(body: seq<string>, entries: seq<Entry>, longer: seq<Entry>, line: string, g: Grammar)
    requires entries != [] && entries[|entries| - 1].end == |body|
    requires Spans(body, entries, g) && AllCovered(body, entries, g)
    requires var k := |entries| - 1; longer == entries[k := entries[k].(end := |body| + 1)]
    ensures Spans(body + [line], longer, g) && AllCovered(body + [line], longer, g)
  {
    var k := |entries| - 1;
    assert GoodSpan(body, entries[k], g) && Covers(longer[k], |body|);
    AllCoveredStill(body, line, entries, longer, g);
    forall j | 0 <= j < |longer| ensures GoodSpan(body + [line], longer[j], g) {
      assert GoodSpan(body, entries[j], g);
    }
  }

  lemma Started(body: seq<string>, entries: seq<Entry>, more: seq<Entry>, line: string, g: Grammar)
    requires Spans(body, entries, g) && AllCovered(body, entries, g)
    requires more == if g.key(line) == None then entries else entries + [Entry(g.key(line).value, |body|, |body| + 1)]
    ensures Spans(body + [line], more, g) && AllCovered(body + [line], more, g)
  {
    if g.key(line).Some? {
      assert Covers(more[|entries|], |body|);
    }
    AllCoveredStill(body, line, entries, more, g);
    forall j | 0 <= j < |more| ensures GoodSpan(body + [line], more[j], g) {
      if j < |entries| { assert GoodSpan(body, entries[j], g); }
    }
  }

  /** Open brackets belong to the last entry, which reaches the last line. */
  predicate OpenEnd(f: Found, length: nat) {
    f.depth > 0 ==> f.entries != [] && f.entries[|f.entries| - 1].end == length
  }

  lemma LineAdded(body: seq<string>, f: Found, line: string, g: Grammar)
    requires Spans(body, f.entries, g) && AllCovered(body, f.entries, g) && OpenEnd(f, |body|)
    ensures var r := AddEntryLine(f, |body|, line, g);
      Spans(body + [line], r.entries, g) && AllCovered(body + [line], r.entries, g) && OpenEnd(r, |body| + 1)
  {
    var r := AddEntryLine(f, |body|, line, g);
    if f.depth > 0 && f.entries != [] {
      Extended(body, f.entries, r.entries, line, g);
    } else {
      Started(body, f.entries, r.entries, line, g);
    }
  }

  /** Spans are in range, ordered and disjoint, and every line with a key belongs to one. */
  lemma {:induction false} SpansLaw(body: seq<string>, g: Grammar)
    ensures Spans(body, FindEntries(body, g).entries, g) && AllCovered(body, FindEntries(body, g).entries, g)
    ensures OpenEnd(FindEntries(body, g), |body|)
  {
    if body != [] {
      var n := |body| - 1;
      SpansLaw(body[..n], g);
      LineAdded(body[..n], FindEntries(body[..n], g), body[n], g);
      assert body == body[..n] + [body[n]];
    }
  }

  /** The bracket depth after these lines, from none open. */
  function DepthOf(lines: seq<string>, g: Grammar): nat {
    if lines == [] then 0 else NextDepth(DepthOf(lines[..|lines| - 1], g), lines[|lines| - 1], g)
  }

  /** Brackets opened less brackets closed. */
  function Surplus(lines: seq<string>, g: Grammar): int {
    if lines == [] then 0
    else
      var n := |lines| - 1;
      Surplus(lines[..n], g) + g.opens(lines[n]) - g.closes(lines[n])
  }

  /** The depth is the largest surplus of the last so many lines: closing brackets with none open count for nothing. */
  lemma {:induction false} DepthLaw(lines: seq<string>, g: Grammar) returns (from: nat)
    ensures from <= |lines| && DepthOf(lines, g) == Surplus(lines[from..], g)
    ensures forall i :: 0 <= i <= |lines| ==> Surplus(lines[i..], g) <= DepthOf(lines, g)
  {
    from := |lines|;
    if lines != [] {
      var n := |lines| - 1;
      var before := DepthLaw(lines[..n], g);
      if DepthOf(lines, g) > 0 {
        from := before;
      }
      forall i | 0 <= i <= n ensures Surplus(lines[i..], g) ==
        Surplus(lines[..n][i..], g) + g.opens(lines[n]) - g.closes(lines[n])
      {
        assert lines[i..][..n - i] == lines[..n][i..];
      }
    }
  }

  /**
   The entry's brackets are open after each of its lines but the last, and closed after
   that one unless the body ends.
   */
  predicate Closes(body: seq<string>, e: Entry, g: Grammar)
    requires e.start < e.end <= |body|
  {
    && (forall i :: e.start < i < e.end ==> DepthOf(body[e.start..i], g) > 0)
    && (e.end == |body| || DepthOf(body[e.start..e.end], g) == 0)
  }

  /** The depth kept while searching is that of the entry the last line belongs to, and zero outside entries. */
  predicate DepthKept(body: seq<string>, f: Found, g: Grammar)
    requires Spans(body, f.entries, g)
  {
    if f.entries == [] then f.depth == 0
    else
      var e := f.entries[|f.entries| - 1];
      assert GoodSpan(body, e, g);
      f.depth == if e.end < |body| then 0 else DepthOf(body[e.start..], g)
  }

  predicate AllClose(body: seq<string>, entries: seq<Entry>, g: Grammar)
    requires Spans(body, entries, g)
  {
    forall k :: 0 <= k < |entries| ==>
      assert GoodSpan(body, entries[k], g); Closes(body, entries[k], g)
  }

  lemma ClosesStill(body: seq<string>, line: string, e: Entry, g: Grammar)
    requires e.start < e.end <= |body| && Closes(body, e, g) && (e.end < |body| || DepthOf(body[e.start..], g) == 0)
    ensures Closes(body + [line], e, g)
  {
    var all := body + [line];
    assert body[e.start..|body|] == body[e.start..];
    assert forall i :: e.start < i <= e.end ==> all[e.start..i] == body[e.start..i];
  }

  lemma ClosesLonger(body: seq<string>, line: string, e: Entry, g: Grammar)
    requires e.start < e.end == |body| && Closes(body, e, g) && DepthOf(body[e.start..], g) > 0
    ensures Closes(body + [line], e.(end := |body| + 1), g)
    ensures DepthOf((body + [line])[e.start..], g) == NextDepth(DepthOf(body[e.start..], g), line, g)
  {
    var all := body + [line];
    assert body[e.start..|body|] == body[e.start..];
    assert forall i :: e.start < i <= |body| ==> all[e.start..i] == body[e.start..i];
    assert all[e.start..][..|body| - e.start] == body[e.start..];
  }

  lemma DepthOne(body: seq<string>, line: string, g: Grammar)
    ensures DepthOf((body + [line])[|body|..], g) == NextDepth(0, line, g)
  {
    assert (body + [line])[|body|..] == [line] && [line][..0] == [];
  }

  lemma LineCloses(body: seq<string>, f: Found, line: string, g: Grammar)
    requires Spans(body, f.entries, g) && AllClose(body, f.entries, g) && DepthKept(body, f, g)
    requires var r := AddEntryLine(f, |body|, line, g); Spans(body + [line], r.entries, g)
    ensures AllClose(body + [line], AddEntryLine(f, |body|, line, g).entries, g)
  {
    var r := AddEntryLine(f, |body|, line, g);
    DepthOne(body, line, g);
    forall k | 0 <= k < |r.entries|
      ensures r.entries[k].start < r.entries[k].end <= |body| + 1 && Closes(body + [line], r.entries[k], g)
    {
      assert GoodSpan(body + [line], r.entries[k], g);
      if k < |f.entries| { EntryCloses(body, f, line, g, k); }
    }
  }

  lemma LineKeepsDepth(body: seq<string>, f: Found, line: string, g: Grammar)
    requires Spans(body, f.entries, g) && AllClose(body, f.entries, g) && DepthKept(body, f, g)
    requires var r := AddEntryLine(f, |body|, line, g); Spans(body + [line], r.entries, g)
    ensures DepthKept(body + [line], AddEntryLine(f, |body|, line, g), g)
  {
    var r, n := AddEntryLine(f, |body|, line, g), |f.entries| - 1;
    if f.depth > 0 && n >= 0 {
      var e := f.entries[n];
      assert GoodSpan(body, e, g);
      ClosesLonger(body, line, e, g);
      assert r.entries[n] == e.(end := |body| + 1);
    } else if g.key(line) == None {
      if n >= 0 { assert GoodSpan(body, f.entries[n], g); }
    } else {
      assert r.entries[n + 1].start == |body| && r.entries[n + 1].end == |body| + 1;
      DepthOne(body, line, g);
    }
  }

  lemma EntryCloses(body: seq<string>, f: Found, line: string, g: Grammar, k: nat)
    requires Spans(body, f.entries, g) && AllClose(body, f.entries, g) && DepthKept(body, f, g) && k < |f.entries|
    requires var r := AddEntryLine(f, |body|, line, g); Spans(body + [line], r.entries, g)
    ensures var e := AddEntryLine(f, |body|, line, g).entries[k];
      e.start < e.end <= |body| + 1 && Closes(body + [line], e, g)
  {
    var n, e := |f.entries| - 1, f.entries[k];
    assert GoodSpan(body, e, g) && GoodSpan(body, f.entries[n], g);
    if k == n && f.depth > 0 {
      ClosesLonger(body, line, e, g);
    } else {
      ClosesStill(body, line, e, g);
    }
  }

  /** Every entry ends where its brackets close, and the depth is kept. */
  predicate Bracketed(body: seq<string>, f: Found, g: Grammar) {
    Spans(body, f.entries, g) && AllClose(body, f.entries, g) && DepthKept(body, f, g)
  }

  lemma BracketedNext(body: seq<string>, f: Found, line: string, g: Grammar)
    requires Bracketed(body, f, g) && Spans(body + [line], AddEntryLine(f, |body|, line, g).entries, g)
    ensures Bracketed(body + [line], AddEntryLine(f, |body|, line, g), g)
  {
    LineCloses(body, f, line, g);
    LineKeepsDepth(body, f, line, g);
  }

  lemma FindSnoc(body: seq<string>, line: string, g: Grammar)
    ensures FindEntries(body + [line], g) == AddEntryLine(FindEntries(body, g), |body|, line, g)
  {
    assert (body + [line])[..|body|] == body;
  }

  /** An entry ends on the line its brackets close on, and no sooner, or at the end of the body. */
  lemma {:induction false} EntriesClose(body: seq<string>, g: Grammar)
    ensures Bracketed(body, FindEntries(body, g), g)
  {
    if body != [] {
      var n := |body| - 1;
      var front, line := body[..n], body[n];
      assert body == front + [line];
      EntriesClose(front, g);
      FindSnoc(front, line, g);
      SpansLaw(body, g);
      BracketedNext(front, FindEntries(front, g), line, g);
    }
  }

  // ----- additions

  function TableNameOf(header: string, g: Grammar): TableName {
    match g.header(header)
    case None => Single("")
    case Some(name) => name
  }

  /** The first table of that name, or the number of tables. */
  function FindTable(tables: seq<Table>, section: string, g: Grammar): (k: nat)
    ensures k <= |tables|
    ensures k < |tables| ==> TableNameOf(tables[k].header, g) == Single(section)
    ensures forall i :: 0 <= i < k ==> TableNameOf(tables[i].header, g) != Single(section)
  {
    if tables == [] || TableNameOf(tables[0].header, g) == Single(section) then 0
    else FindTable(tables[1..], section, g) + 1
  }

  /** One past the last line that is not blank. */
  function AfterText(body: seq<string>, g: Grammar): (k: nat)
    ensures k <= |body|
    ensures forall i :: k <= i < |body| ==> g.isBlank(body[i])
    ensures k > 0 ==> !g.isBlank(body[k - 1])
  {
    if body == [] then 0
    else if g.isBlank(body[|body| - 1]) then AfterText(body[..|body| - 1], g)
    else |body|
  }

  predicate EndsLine(s: string) {
    s != "" && s[|s| - 1] == '\n'
  }

  /** Ends the last line if it is not ended. */
  function EndLast(body: seq<string>): seq<string> {
    if body == [] || EndsLine(body[|body| - 1]) then body
    else body[|body| - 1 := body[|body| - 1] + "\n"]
  }

  function AppendTable(tables: seq<Table>, header: string, body: seq<string>, g: Grammar): seq<Table>
    requires tables != []
  {
    var n := |tables| - 1;
    tables[n := tables[n].(body := EndLast(tables[n].body))] +
      [Table("\n" + header, EndLast(body[..AfterText(body, g)]))]
  }

  function InsertEntry(tables: seq<Table>, section: string, text: string, g: Grammar): seq<Table>
    requires tables != []
  {
    var k := FindTable(tables, section, g);
    if k < |tables| then
      tables[k := WithLine(tables[k], AfterText(tables[k].body, g), text)]
    else
      AppendTable(tables, "[" + section + "]\n", [text], g)
  }

  /** `r` is `s` with `added` put in at one place. */
  predicate InsertedAt(s: string, r: string, at: nat, added: string) {
    at <= |s| && r == s[..at] + added + s[at..]
  }

  lemma {:induction false} JoinAppend(a: seq<Table>, b: seq<Table>)
    ensures JoinTables(a + b) == JoinTables(a) + JoinTables(b)
  {
    if b == [] {
      assert a + b == a;
    } else {
      var n := |b| - 1;
      assert (a + b)[..|a + b| - 1] == a + b[..n] && (a + b)[|a + b| - 1] == b[n];
      JoinAppend(a, b[..n]);
      Associate(JoinTables(a), JoinTables(b[..n]), TableText(b[n]));
    }
  }

  lemma JoinOne(t: Table)
    ensures JoinTables([t]) == TableText(t)
  {
    assert [t][..0] == [];
  }

  lemma JoinThree(a: seq<Table>, t: Table, c: seq<Table>)
    ensures JoinTables(a + [t] + c) == JoinTables(a) + TableText(t) + JoinTables(c)
  {
    JoinAppend(a + [t], c);
    JoinAppend(a, [t]);
    JoinOne(t);
  }

  lemma Around<T>(s: seq<T>, k: nat, t: T)
    requires k < |s|
    ensures s[k := t] == s[..k] + [t] + s[k + 1..]
  {}

  lemma Concat3(a: string, b: string, c: string, d: string, e: string, text: string, s: string, r: string)
    requires s == a + (b + (c + d)) + e && r == a + (b + (c + text + d)) + e
    ensures InsertedAt(s, r, |a| + |b| + |c|, text) && s[..|a| + |b| + |c|] == a + b + c
  {
    var at := |a| + |b| + |c|;
    assert s[..at] == a + b + c && s[at..] == d + e;
  }

  /** A body with a line put in at `split`. */
  function WithLine(t: Table, split: nat, text: string): Table
    requires split <= |t.body|
  {
    t.(body := t.body[..split] + [text] + t.body[split..])
  }

  lemma WithLineText(t: Table, split: nat, text: string)
    requires split <= |t.body|
    ensures TableText(t) == t.header + (Concat(t.body[..split]) + Concat(t.body[split..]))
    ensures TableText(WithLine(t, split, text)) == t.header + (Concat(t.body[..split]) + text + Concat(t.body[split..]))
  {
    var c, d := t.body[..split], t.body[split..];
    assert t.body == c + d;
    ConcatAppend(c, d);
    ConcatAppend(c + [text], d);
    ConcatAppend(c, [text]);
    ConcatOne(text);
  }

  /** Changing one table changes the joined text there only. */
  lemma JoinReplaced(tables: seq<Table>, k: nat, t: Table)
    requires k < |tables|
    ensures JoinTables(tables[k := t]) == JoinTables(tables[..k]) + TableText(t) + JoinTables(tables[k + 1..])
  {
    JoinThree(tables[..k], t, tables[k + 1..]);
    Around(tables, k, t);
  }

  lemma WithLineInserts(tables: seq<Table>, k: nat, split: nat, text: string) returns (at: nat)
    requires k < |tables| && split <= |tables[k].body|
    ensures InsertedAt(JoinTables(tables), JoinTables(tables[k := WithLine(tables[k], split, text)]), at, text)
    ensures JoinTables(tables)[..at] == JoinTables(tables[..k]) + tables[k].header + Concat(tables[k].body[..split])
  {
    var t := tables[k];
    var after := tables[k := WithLine(t, split, text)];
    JoinReplaced(tables, k, t);
    Unchanged(tables, k);
    JoinReplaced(tables, k, WithLine(t, split, text));
    WithLineText(t, split, text);
    var a, c, d, e := JoinTables(tables[..k]), Concat(t.body[..split]), Concat(t.body[split..]),
      JoinTables(tables[k + 1..]);
    Concat3(a, t.header, c, d, e, text, JoinTables(tables), JoinTables(after));
    at := |a| + |t.header| + |c|;
  }

  /** Adding to a table that exists puts the text in at one place and changes nothing else. */
  lemma InsertIsInsertOnly(tables: seq<Table>, section: string, text: string, g: Grammar) returns (at: nat)
    requires tables != [] && FindTable(tables, section, g) < |tables|
    ensures InsertedAt(JoinTables(tables), JoinTables(InsertEntry(tables, section, text, g)), at, text)
    ensures var k := FindTable(tables, section, g);
      JoinTables(tables)[..at] == JoinTables(tables[..k]) + tables[k].header +
        Concat(tables[k].body[..AfterText(tables[k].body, g)])
  {
    var k := FindTable(tables, section, g);
    at := WithLineInserts(tables, k, AfterText(tables[k].body, g), text);
  }

  /** Headers and lines in the order they are joined. */
  function PiecesOf(tables: seq<Table>): seq<string> {
    if tables == [] then []
    else PiecesOf(tables[..|tables| - 1]) + ([tables[|tables| - 1].header] + tables[|tables| - 1].body)
  }

  lemma HeadAndBody(t: Table)
    ensures Concat([t.header] + t.body) == TableText(t)
  {
    ConcatAppend([t.header], t.body);
    ConcatOne(t.header);
  }

  lemma {:induction false} PiecesJoin(tables: seq<Table>)
    ensures Concat(PiecesOf(tables)) == JoinTables(tables)
  {
    if tables != [] {
      var n := |tables| - 1;
      PiecesJoin(tables[..n]);
      HeadAndBody(tables[n]);
      ConcatAppend(PiecesOf(tables[..n]), [tables[n].header] + tables[n].body);
    }
  }

  /** What stands before an entry added to table `k`. */
  function PiecesBefore(tables: seq<Table>, k: nat, g: Grammar): seq<string>
    requires k < |tables|
  {
    PiecesOf(tables[..k]) + ([tables[k].header] + tables[k].body[..AfterText(tables[k].body, g)])
  }

  lemma PiecesBeforeText(tables: seq<Table>, k: nat, g: Grammar)
    requires k < |tables|
    ensures Concat(PiecesBefore(tables, k, g)) ==
      JoinTables(tables[..k]) + tables[k].header + Concat(tables[k].body[..AfterText(tables[k].body, g)])
  {
    var t := Table(tables[k].header, tables[k].body[..AfterText(tables[k].body, g)]);
    PiecesJoin(tables[..k]);
    HeadAndBody(t);
    ConcatAppend(PiecesOf(tables[..k]), [t.header] + t.body);
    Associate(JoinTables(tables[..k]), t.header, Concat(t.body));
  }

  /** Nothing, or text that ends its last line. */
  predicate AtLineStart(s: string) {
    s == "" || EndsLine(s)
  }

  /** The last piece that is not empty. */
  function LastPiece(pieces: seq<string>): string {
    if pieces == [] then ""
    else if pieces[|pieces| - 1] != "" then pieces[|pieces| - 1]
    else LastPiece(pieces[..|pieces| - 1])
  }

  lemma {:induction false} LastPieceEnds(pieces: seq<string>)
    ensures AtLineStart(Concat(pieces)) <==> AtLineStart(LastPiece(pieces))
  {
    if pieces != [] {
      var n := |pieces| - 1;
      SplitLast(pieces);
      ConcatAppend(pieces[..n], [pieces[n]]);
      ConcatOne(pieces[n]);
      if pieces[n] == "" {
        LastPieceEnds(pieces[..n]);
        Nothing(Concat(pieces[..n]));
      }
    }
  }

  /** The text added starts a line of its own exactly when the last header or line before it, if any, has been ended. */
  lemma InsertStartsLine(tables: seq<Table>, section: string, text: string, g: Grammar) returns (at: nat)
    requires tables != [] && FindTable(tables, section, g) < |tables|
    ensures InsertedAt(JoinTables(tables), JoinTables(InsertEntry(tables, section, text, g)), at, text)
    ensures AtLineStart(JoinTables(tables)[..at]) <==>
      AtLineStart(LastPiece(PiecesBefore(tables, FindTable(tables, section, g), g)))
  {
    at := InsertIsInsertOnly(tables, section, text, g);
    var k := FindTable(tables, section, g);
    PiecesBeforeText(tables, k, g);
    LastPieceEnds(PiecesBefore(tables, k, g));
  }

  /** What ending the last line of a body adds. */
  function Ending(body: seq<string>): string {
    if body == [] || EndsLine(body[|body| - 1]) then "" else "\n"
  }

  lemma EndLastText(body: seq<string>)
    ensures Concat(EndLast(body)) == Concat(body) + Ending(body)
  {
    if body != [] && !EndsLine(body[|body| - 1]) {
      var n := |body| - 1;
      assert body == body[..n] + [body[n]];
      assert EndLast(body) == body[..n] + [body[n] + "\n"];
      ConcatAppend(body[..n], [body[n]]);
      ConcatAppend(body[..n], [body[n] + "\n"]);
      ConcatOne(body[n]);
      ConcatOne(body[n] + "\n");
    }
  }

  /** Appending a table adds text at the end and changes nothing before it. */
  lemma AppendIsAppendOnly(tables: seq<Table>, header: string, body: seq<string>, g: Grammar)
    requires tables != []
    ensures JoinTables(AppendTable(tables, header, body, g)) ==
      JoinTables(tables) + Ending(tables[|tables| - 1].body) + "\n" + header +
        Concat(EndLast(body[..AfterText(body, g)]))
  {
    var n := |tables| - 1;
    var front, old' := tables[..n], tables[n];
    var last := old'.(body := EndLast(old'.body));
    var tail := EndLast(body[..AfterText(body, g)]);
    assert AppendTable(tables, header, body, g) == front + [last] + [Table("\n" + header, tail)];
    JoinThree(front, last, [Table("\n" + header, tail)]);
    JoinOne(Table("\n" + header, tail));
    JoinOne(old');
    JoinAppend(front, [old']);
    assert tables == front + [old'];
    EndLastText(old'.body);
    Reassociate(JoinTables(front), old'.header, Concat(old'.body), Ending(old'.body), header, Concat(tail));
  }

  lemma Reassociate(a: string, h: string, c: string, e: string, header: string, d: string)
    ensures a + (h + (c + e)) + (("\n" + header) + d) == a + (h + c) + e + "\n" + header + d
  {}

  /** Inserting an entry, whether its table exists or not, leaves all existing text in place. */
  lemma InsertKeepsText(tables: seq<Table>, section: string, text: string, g: Grammar) returns (at: nat, added: string)
    requires tables != []
    ensures InsertedAt(JoinTables(tables), JoinTables(InsertEntry(tables, section, text, g)), at, added)
  {
    if FindTable(tables, section, g) < |tables| {
      added := text;
      at := InsertIsInsertOnly(tables, section, text, g);
    } else {
      added := AppendedText(tables, "[" + section + "]\n", [text], g);
      at := |JoinTables(tables)|;
      AppendInserts(tables, "[" + section + "]\n", [text], g);
    }
  }

  function AppendedText(tables: seq<Table>, header: string, body: seq<string>, g: Grammar): string
    requires tables != []
  {
    Ending(tables[|tables| - 1].body) + "\n" + header + Concat(EndLast(body[..AfterText(body, g)]))
  }

  lemma AtEnd(s: string, added: string)
    ensures InsertedAt(s, s + added, |s|, added)
  {}

  lemma Associate4(s: string, a: string, b: string, c: string, d: string)
    ensures s + a + b + c + d == s + (a + b + c + d)
  {}

  lemma AppendInserts(tables: seq<Table>, header: string, body: seq<string>, g: Grammar)
    requires tables != []
    ensures InsertedAt(JoinTables(tables), JoinTables(AppendTable(tables, header, body, g)), |JoinTables(tables)|,
      AppendedText(tables, header, body, g))
  {
    var s, e, d := JoinTables(tables), Ending(tables[|tables| - 1].body), Concat(EndLast(body[..AfterText(body, g)]));
    AppendIsAppendOnly(tables, header, body, g);
    Associate4(s, e, "\n", header, d);
    AtEnd(s, AppendedText(tables, header, body, g));
  }

  /** An appended table is set off by a blank line exactly when the text before it is empty or ends its last line. */
  lemma SetOff(tables: seq<Table>, header: string, body: seq<string>, g: Grammar)
    requires tables != []
    ensures var s, last := JoinTables(tables), tables[|tables| - 1];
      var before := s + Ending(last.body);
      && before + "\n" <= JoinTables(AppendTable(tables, header, body, g))
      && (before == "" || EndsLine(before) <==>
        s == "" || EndsLine(s) || (last.body != [] && !EndsLine(last.body[|last.body| - 1])))
  {
    AppendIsAppendOnly(tables, header, body, g);
  }

  lemma FindTableUnique(tables: seq<Table>, section: string, g: Grammar, k: nat)
    requires k < |tables| && TableNameOf(tables[k].header, g) == Single(section)
    requires forall i :: 0 <= i < k ==> TableNameOf(tables[i].header, g) != Single(section)
    ensures FindTable(tables, section, g) == k
  {}

  lemma FindTableNone(tables: seq<Table>, section: string, g: Grammar)
    requires forall i :: 0 <= i < |tables| ==> TableNameOf(tables[i].header, g) != Single(section)
    ensures FindTable(tables, section, g) == |tables|
  {}

  /** The header line a table made for a section is stored with. */
  function MadeHeader(section: string): string {
    "\n" + ("[" + section + "]\n")
  }

  /** Insertion keeps the headers there are, and heads a table it makes with a newline. */
  lemma InsertKeepsHeaders(tables: seq<Table>, section: string, text: string, g: Grammar)
    requires tables != []
    ensures var once := InsertEntry(tables, section, text, g);
      && |once| == |tables| + (if FindTable(tables, section, g) == |tables| then 1 else 0)
      && (forall i :: 0 <= i < |tables| ==> once[i].header == tables[i].header)
      && (FindTable(tables, section, g) == |tables| ==> once[|tables|].header == MadeHeader(section))
  {}

  /** Where the second insertion finds the table, if the made header has no name. */
  lemma FoundAgain(tables: seq<Table>, section: string, text: string, g: Grammar)
    requires tables != [] && g.header(MadeHeader(section)) == None
    ensures var once, k := InsertEntry(tables, section, text, g), FindTable(tables, section, g);
      FindTable(once, section, g) == if k == |tables| && section != "" then |once| else k
  {
    var once, k := InsertEntry(tables, section, text, g), FindTable(tables, section, g);
    InsertKeepsHeaders(tables, section, text, g);
    if k < |tables| || section == "" {
      FindTableUnique(once, section, g, k);
    } else {
      FindTableNone(once, section, g);
    }
  }

  /** A header is only seen at the start of a line. */
  ghost predicate SeesLines(g: Grammar) {
    forall h :: g.header("\n" + h) == None
  }

  /**
   A table that was appended is not found again, because its stored header starts with a
   newline: adding twice to a named section makes two tables when the manifest lacks it,
   and only then.
   */
  lemma AppendedTwice(tables: seq<Table>, section: string, first: string, second: string, g: Grammar)
    requires tables != [] && SeesLines(g)
    ensures |InsertEntry(InsertEntry(tables, section, first, g), section, second, g)| == |tables| + 2 <==>
      FindTable(tables, section, g) == |tables| && section != ""
  {
    var once := InsertEntry(tables, section, first, g);
    FoundAgain(tables, section, first, g);
    InsertKeepsHeaders(tables, section, first, g);
    InsertKeepsHeaders(once, section, second, g);
  }

  /** In an empty manifest, two additions to a section make the text hold its table twice. */
  lemma TwiceInEmpty(section: string, a: string, b: string, g: Grammar)
    requires SeesLines(g) && g.header("") == None && section != ""
    requires EndsLine(a) && EndsLine(b) && !g.isBlank(a) && !g.isBlank(b)
    ensures var once, header := InsertEntry(SplitTables("", g), section, a, g), "[" + section + "]\n";
      JoinTables(InsertEntry(once, section, b, g)) == "" + "\n" + header + a + "\n" + header + b
  {
    var none := SplitTables("", g);
    JoinSplit("", g);
    FindTableNone(none, section, g);
    FoundAgain(none, section, a, g);
    AppendOne(none, section, a, g);
    AppendOne(InsertEntry(none, section, a, g), section, b, g);
  }

  /** One such text. */
  lemma AppendedTwiceInput(g: Grammar)
    requires SeesLines(g) && g.header("") == None && !g.isBlank("a = 1\n") && !g.isBlank("b = 2\n")
    ensures var once := InsertEntry(SplitTables("", g), "s", "a = 1\n", g);
      JoinTables(InsertEntry(once, "s", "b = 2\n", g)) == "\n[s]\na = 1\n\n[s]\nb = 2\n"
  {
    TwiceInEmpty("s", "a = 1\n", "b = 2\n", g);
    Spelled();
  }

  lemma Spelled()
    ensures var header := "[" + "s" + "]\n";
      "" + "\n" + header + "a = 1\n" + "\n" + header + "b = 2\n" == "\n[s]\na = 1\n\n[s]\nb = 2\n"
  {}

  /** The text after a table has been made for one entry, when the last line was ended. */
  lemma AppendOne(tables: seq<Table>, section: string, text: string, g: Grammar)
    requires tables != [] && FindTable(tables, section, g) == |tables| && EndsLine(text) && !g.isBlank(text)
    requires Ending(tables[|tables| - 1].body) == ""
    ensures var once := InsertEntry(tables, section, text, g);
      && JoinTables(once) == JoinTables(tables) + "\n" + ("[" + section + "]\n") + text
      && once[|once| - 1] == Table(MadeHeader(section), [text]) && Ending(once[|once| - 1].body) == ""
  {
    AppendIsAppendOnly(tables, "[" + section + "]\n", [text], g);
    assert AfterText([text], g) == 1 && [text][..1] == [text];
    ConcatOne(text);
    Nothing(JoinTables(tables));
  }

  lemma SplitBareHeader(line: string, g: Grammar)
    requires line != "" && (forall i :: 0 <= i < |line| ==> !IsLineEnd(line[i])) && g.header(line).Some?
    ensures SplitTables(line, g) == [Table("", []), Table(line, [])]
  {
    Nothing(line);
    KeepOne(line, "");
    assert [line][..0] == [];
    assert SplitInto([], g) == [Table("", [])];
  }

  /** A manifest that is a bare header without a line end gets no blank line before the table appended to it. */
  lemma NotSetOff(line: string, header: string, g: Grammar)
    requires line != "" && (forall i :: 0 <= i < |line| ==> !IsLineEnd(line[i])) && g.header(line).Some?
    ensures JoinTables(AppendTable(SplitTables(line, g), header, [], g)) == line + "\n" + header
  {
    SplitBareHeader(line, g);
    JoinSplit(line, g);
    AppendIsAppendOnly(SplitTables(line, g), header, [], g);
    Nothing(line);
    Nothing(line + "\n" + header);
  }

  /** One such manifest. */
  lemma NotSetOffInput(g: Grammar)
    requires g.header("[x]").Some?
    ensures JoinTables(AppendTable(SplitTables("[x]", g), "[y]\n", [], g)) == "[x]\n[y]\n"
  {
    NotSetOff("[x]", "[y]\n", g);
  }

  // ----- the same as an object updated in place

  class Editor {
    var tables: seq<Table>

    constructor (text: string, g: Grammar)
      ensures tables == SplitTables(text, g)
    {
      var t := SplitTablesLoop(text, g);
      tables := t;
    }

    method Append(header: string, body: seq<string>, g: Grammar)
      requires tables != []
      modifies this
      ensures tables == AppendTable(old(tables), header, body, g)
    {
      var copy := body;
      while copy != [] && g.isBlank(copy[|copy| - 1])
        invariant copy <= body && AfterText(copy, g) == AfterText(body, g)
        invariant copy[..AfterText(copy, g)] == body[..AfterText(body, g)]
        decreases |copy|
      {
        copy := copy[..|copy| - 1];
      }
      assert copy[..|copy|] == copy && AfterText(copy, g) == |copy|;
      if copy != [] && !EndsLine(copy[|copy| - 1]) {
        copy := copy[|copy| - 1 := copy[|copy| - 1] + "\n"];
      }
      var n := |tables| - 1;
      var previous := tables[n].body;
      if previous != [] && !EndsLine(previous[|previous| - 1]) {
        previous := previous[|previous| - 1 := previous[|previous| - 1] + "\n"];
      }
      tables := tables[n := tables[n].(body := previous)] + [Table("\n" + header, copy)];
    }

    method Insert(section: string, text: string, g: Grammar)
      requires tables != []
      modifies this
      ensures tables == InsertEntry(old(tables), section, text, g)
    {
      for k := 0 to |tables|
        invariant tables == old(tables)
        invariant forall i :: 0 <= i < k ==> TableNameOf(tables[i].header, g) != Single(section)
      {
        if TableNameOf(tables[k].header, g) == Single(section) {
          var last := AfterText(tables[k].body, g);
          var body := tables[k].body[..last] + [text] + tables[k].body[last..];
          tables := tables[k := tables[k].(body := body)];
          return;
        }
      }
      Append("[" + section + "]\n", [text], g);
    }
  }
}
