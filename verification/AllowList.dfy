/**
 The clock gate's allow-list: writing the counts found as a text of `path:count:reason`
 lines, reading such a text back, and comparing counts with what is allowed.
 */
module AllowList {
  import opened Wrappers
  import opened Text
  import opened LineSplitting

  datatype Entry = Entry(path: string, count: nat)

  /** How many permanent reads a path may keep, and why. */
  datatype Permanent = Permanent(count: nat, reason: string)

  // ----- reading

  /** The white space that stripping removes; line ends are among it. */
  predicate IsBlank(c: char) {
    IsLineEnd(c) || c in OTHER_BLANKS
  }

  const OTHER_BLANKS: set<char> := {
    ' ', '\t', '\U{1F}', '\U{A0}', '\U{1680}', '\U{2000}', '\U{2001}', '\U{2002}', '\U{2003}', '\U{2004}',
    '\U{2005}', '\U{2006}', '\U{2007}', '\U{2008}', '\U{2009}', '\U{200A}', '\U{202F}', '\U{205F}', '\U{3000}'}

  function StripLeft(s: string): string {
    if s != "" && IsBlank(s[0]) then StripLeft(s[1..]) else s
  }

  function StripRight(s: string): string {
    if s != "" && IsBlank(s[|s| - 1]) then StripRight(s[..|s| - 1]) else s
  }

  function Strip(s: string): string {
    StripRight(StripLeft(s))
  }

  /** The index of the first `c`, or the length. */
  function IndexOf(s: string, c: char): (i: nat)
    ensures i <= |s| && Lacks(s[..i], c) && (i < |s| ==> s[i] == c)
  {
    if s == "" || s[0] == c then 0
    else
      var i := IndexOf(s[1..], c) + 1;
      assert s[..i] == [s[0]] + s[1..][..i - 1];
      i
  }

  /** Underscores stand alone, between other characters. */
  predicate WellSpaced(s: string) {
    && s != "" && s[0] != '_' && s[|s| - 1] != '_'
    && forall i :: 0 < i < |s| ==> s[i - 1] != '_' || s[i] != '_'
  }

  function Without(s: string, c: char): string {
    if s == "" then "" else if s[0] == c then Without(s[1..], c) else [s[0]] + Without(s[1..], c)
  }

  lemma {:induction false} WithoutNothing(s: string, c: char)
    requires Lacks(s, c)
    ensures Without(s, c) == s
  {
    if s != "" {
      WithoutNothing(s[1..], c);
      assert [s[0]] + s[1..] == s;
    }
  }

  function ParseDigits(s: string): Option<nat> {
    if WellSpaced(s) then ParseDecimal(Without(s, '_')) else None
  }

  /** `int`: an optional sign, and digits with single underscores between them. */
  function ParseInt(s: string): Option<int> {
    if s != "" && (s[0] == '-' || s[0] == '+') then
      match ParseDigits(s[1..])
      case None => None
      case Some(v) => Some(if s[0] == '-' then -(v as int) else v)
    else
      match ParseDigits(s)
      case None => None
      case Some(v) => Some(v)
  }

  /** What a line of the file says: nothing, an allowed count, or an error. */
  datatype Parsed = Ignored | Allowed(path: string, count: int) | Malformed

  function ParseLine(raw: string): Parsed {
    var line := Strip(raw);
    if line == "" || line[0] == '#' then Ignored
    else
      var i := IndexOf(line, ':');
      if i == |line| then Malformed
      else
        var rest := line[i + 1..];
        match ParseInt(Strip(rest[..IndexOf(rest, ':')]))
        case None => Malformed
        case Some(count) => Allowed(Strip(line[..i]), count)
  }

  function LoadLines(lines: seq<string>): Result<map<string, int>> {
    if lines == [] then Success(map[])
    else
      var before :- LoadLines(lines[..|lines| - 1]);
      match ParseLine(lines[|lines| - 1])
      case Ignored => Success(before)
      case Malformed => Failure
      case Allowed(path, count) => Success(before[path := count])
  }

  /** No file allows nothing. */
  method LoadAllowlist(text: Option<string>) returns (r: Result<map<string, int>>)
    ensures r == if text == None then Success(map[]) else LoadLines(SplitLines(text.value))
  {
    if text == None {
      return Success(map[]);
    }
    var allowed: map<string, int> := map[];
    var lines := SplitLines(text.value);
    for n := 0 to |lines|
      invariant LoadLines(lines[..n]) == Success(allowed)
    {
      assert lines[..n + 1][..n] == lines[..n];
      match ParseLine(lines[n])
      case Ignored =>
      case Malformed =>
        LoadFails(lines, n + 1);
        return Failure;
      case Allowed(path, count) => allowed := allowed[path := count];
    }
    assert lines[..|lines|] == lines;
    return Success(allowed);
  }

  lemma {:induction false} LoadFails(lines: seq<string>, n: nat)
    requires n <= |lines| && LoadLines(lines[..n]) == Failure
    ensures LoadLines(lines) == Failure
    decreases |lines| - n
  {
    if n == |lines| {
      assert lines[..n] == lines;
    } else {
      assert lines[..n + 1][..n] == lines[..n];
      LoadFails(lines, n + 1);
    }
  }

  // ----- writing

  function EntryLine(e: Entry, reason: string): string {
    e.path + ":" + Decimal(e.count) + ":" + reason
  }

  datatype Section = PermanentOnly | Mixed | Temporary

  function SectionOf(e: Entry, permanent: map<string, Permanent>): Section {
    if e.path in permanent && permanent[e.path].count != 0 then
      if e.count == permanent[e.path].count then PermanentOnly else Mixed
    else Temporary
  }

  function ReasonFor(e: Entry, permanent: map<string, Permanent>): string {
    match SectionOf(e, permanent)
    case PermanentOnly => permanent[e.path].reason
    case Mixed => MixedReason(permanent[e.path], e.count)
    case Temporary => "awaiting clock injection"
  }

  /** Both parts of a mixed count; they add up to it. */
  function MixedReason(keep: Permanent, count: nat): string {
    Decimal(keep.count) + " permanent (" + keep.reason + ") + " + Signed(count as int - keep.count)
    + " awaiting injection"
  }

  function Signed(v: int): string {
    if v < 0 then "-" + Decimal(-v) else Decimal(v)
  }

  function SectionLines(entries: seq<Entry>, section: Section, permanent: map<string, Permanent>): seq<string> {
    if entries == [] then []
    else
      var n := |entries| - 1;
      SectionLines(entries[..n], section, permanent)
      + if SectionOf(entries[n], permanent) != section then []
        else [EntryLine(entries[n], ReasonFor(entries[n], permanent))]
  }

  lemma {:induction false} InItsSection(entries: seq<Entry>, permanent: map<string, Permanent>, k: nat)
    requires k < |entries|
    ensures EntryLine(entries[k], ReasonFor(entries[k], permanent))
      in SectionLines(entries, SectionOf(entries[k], permanent), permanent)
  {
    var n := |entries| - 1;
    if k < n {
      InItsSection(entries[..n], permanent, k);
    }
  }

  /** The section an entry's permanent budget calls for, and the reason given there. */
  predicate Under(e: Entry, keep: Permanent, section: Section, reason: string) {
    if keep.count == 0 then section == Temporary && reason == "awaiting clock injection"
    else if keep.count == e.count then section == PermanentOnly && reason == keep.reason
    else section == Mixed && reason == MixedReason(keep, e.count)
  }

  lemma ItsSection(e: Entry, permanent: map<string, Permanent>)
    ensures var keep := if e.path in permanent then permanent[e.path] else Permanent(0, "");
      Under(e, keep, SectionOf(e, permanent), ReasonFor(e, permanent))
  {}

  /** Every entry is written, in the section it belongs under. */
  lemma WrittenUnder(entries: seq<Entry>, permanent: map<string, Permanent>, k: nat)
    returns (section: Section, reason: string)
    requires k < |entries|
    ensures var e := entries[k];
      && Under(e, if e.path in permanent then permanent[e.path] else Permanent(0, ""), section, reason)
      && EntryLine(e, reason) in SectionLines(entries, section, permanent)
  {
    section, reason := SectionOf(entries[k], permanent), ReasonFor(entries[k], permanent);
    ItsSection(entries[k], permanent);
    InItsSection(entries, permanent, k);
  }

  /** The comment blocks before the three sections. */
  datatype Notes = Notes(permanent: seq<string>, mixed: seq<string>, temporary: seq<string>)

  function SnapshotLines(entries: seq<Entry>, permanent: map<string, Permanent>, notes: Notes): seq<string> {
    notes.permanent + SectionLines(entries, PermanentOnly, permanent)
    + notes.mixed + SectionLines(entries, Mixed, permanent)
    + notes.temporary + SectionLines(entries, Temporary, permanent)
  }

  function Unlines(lines: seq<string>): string {
    if lines == [] then "" else lines[0] + "\n" + Unlines(lines[1..])
  }

  method WriteSnapshot(entries: seq<Entry>, permanent: map<string, Permanent>, notes: Notes) returns (text: string)
    ensures text == Unlines(SnapshotLines(entries, permanent, notes))
  {
    var permanentLines, mixed, temporary := [], [], [];
    for n := 0 to |entries|
      invariant permanentLines == SectionLines(entries[..n], PermanentOnly, permanent)
      invariant mixed == SectionLines(entries[..n], Mixed, permanent)
      invariant temporary == SectionLines(entries[..n], Temporary, permanent)
    {
      var e := entries[n];
      assert entries[..n + 1][..n] == entries[..n];
      var keep := if e.path in permanent then permanent[e.path].count else 0;
      if keep != 0 && e.count == keep {
        permanentLines := permanentLines + [EntryLine(e, permanent[e.path].reason)];
      } else if keep != 0 {
        mixed := mixed + [EntryLine(e, ReasonFor(e, permanent))];
      } else {
        temporary := temporary + [EntryLine(e, "awaiting clock injection")];
      }
    }
    assert entries[..|entries|] == entries;
    text := Unlines(notes.permanent + permanentLines + notes.mixed + mixed + notes.temporary + temporary);
  }

  // ----- a snapshot read back

  /** A path its line can be read back to. */
  predicate Readable(path: string) {
    Lacks(path, ':') && (path != "" ==> path[0] != '#' && !IsBlank(path[0]) && !IsBlank(path[|path| - 1]))
  }

  /** A path the file can carry. */
  predicate Writable(path: string) {
    Readable(path) && OneLine(path)
  }

  lemma {:induction false} LineComesOff(line: string, rest: string, acc: string)
    requires OneLine(line)
    ensures LinesFrom(line + "\n" + rest, acc) == [acc + line] + LinesFrom(rest, "")
    decreases |line|
  {
    var text := line + "\n" + rest;
    if line == "" {
      assert text[1..] == rest && acc + line == acc;
    } else {
      assert text[1..] == line[1..] + "\n" + rest;
      LineComesOff(line[1..], rest, acc + [line[0]]);
      assert acc + [line[0]] + line[1..] == acc + line;
    }
  }

  lemma {:induction false} LinesReadBack(lines: seq<string>)
    requires forall k :: 0 <= k < |lines| ==> OneLine(lines[k])
    ensures SplitLines(Unlines(lines)) == lines
  {
    if lines != [] {
      LineComesOff(lines[0], Unlines(lines[1..]), "");
      LinesReadBack(lines[1..]);
      assert "" + lines[0] == lines[0] && [lines[0]] + lines[1..] == lines;
    }
  }

  lemma {:induction false} IndexOfFirst(a: string, c: char, b: string)
    requires Lacks(a, c)
    ensures IndexOf(a + [c] + b, c) == |a|
  {
    if a != "" {
      assert (a + [c] + b)[1..] == a[1..] + [c] + b;
      IndexOfFirst(a[1..], c, b);
    }
  }

  lemma {:induction false} StripRightStops(a: string, b: string) returns (k: nat)
    requires a != "" && !IsBlank(a[|a| - 1])
    ensures k <= |b| && StripRight(a + b) == a + b[..k]
    decreases |b|
  {
    k := |b|;
    assert b[..k] == b;
    if b != "" && IsBlank(b[|b| - 1]) {
      assert (a + b)[..|a + b| - 1] == a + b[..|b| - 1];
      k := StripRightStops(a, b[..|b| - 1]);
      assert b[..|b| - 1][..k] == b[..k];
    }
  }

  lemma StripNothing(s: string)
    requires s != "" && !IsBlank(s[0]) && !IsBlank(s[|s| - 1])
    ensures Strip(s) == s
  {}

  lemma PrintedDigits(n: nat)
    ensures ParseDigits(Decimal(n)) == Some(n)
  {
    DecimalLacks(n, '_');
    WithoutNothing(Decimal(n), '_');
    ParsePrinted(n);
  }

  lemma PrintedCount(n: nat)
    ensures Strip(Decimal(n)) == Decimal(n) && ParseInt(Decimal(n)) == Some(n)
  {
    var s := Decimal(n);
    DecimalDigits(n);
    NotBlank(s[0]);
    NotBlank(s[|s| - 1]);
    StripNothing(s);
    PrintedDigits(n);
  }

  lemma NotBlank(c: char)
    requires '0' <= c <= '9'
    ensures !IsBlank(c)
  {}

  lemma {:induction false} StripLeftLaw(s: string, c: char)
    ensures StripLeft(s) != "" ==> !IsBlank(StripLeft(s)[0])
    ensures Lacks(s, c) ==> Lacks(StripLeft(s), c)
  {
    if s != "" && IsBlank(s[0]) {
      StripLeftLaw(s[1..], c);
    }
  }

  lemma {:induction false} StripRightLaw(s: string, c: char)
    ensures StripRight(s) != "" ==> !IsBlank(StripRight(s)[|StripRight(s)| - 1]) && StripRight(s)[0] == s[0]
    ensures Lacks(s, c) ==> Lacks(StripRight(s), c)
  {
    if s != "" && IsBlank(s[|s| - 1]) {
      StripRightLaw(s[..|s| - 1], c);
    }
  }

  /** Stripping leaves no blanks at the ends and adds no characters. */
  lemma StripLaw(s: string, c: char)
    ensures var r := Strip(s); r != "" ==> !IsBlank(r[0]) && !IsBlank(r[|r| - 1])
    ensures Lacks(s, c) ==> Lacks(Strip(s), c)
  {
    StripLeftLaw(s, c);
    StripRightLaw(StripLeft(s), c);
  }

  lemma SplitAtFirst(s: string, c: char)
    ensures var i := IndexOf(s, c); Split(s, c) == if i == |s| then [s] else [s[..i]] + Split(s[i + 1..], c)
  {
    var i := IndexOf(s, c);
    if i == |s| {
      assert s[..i] == s;
      SplitPlain(s, c);
    } else {
      assert s == s[..i] + [c] + s[i + 1..];
      SplitPiece(s[..i], c, s[i + 1..]);
    }
  }

  lemma FirstFields(s: string, c: char)
    ensures var i, fields := IndexOf(s, c), Split(s, c);
      if i == |s| then |fields| == 1
      else
        var rest := s[i + 1..];
        |fields| >= 2 && fields[0] == s[..i] && fields[1] == rest[..IndexOf(rest, c)]
  {
    var i := IndexOf(s, c);
    SplitAtFirst(s, c);
    if i < |s| {
      var rest := s[i + 1..];
      SplitAtFirst(rest, c);
      assert rest[..|rest|] == rest;
    }
  }

  /** A line is cut at its colons: blank lines and comments say nothing, and a line needs a path and a number. */
  lemma ParseLineLaw(raw: string)
    ensures var line := Strip(raw);
      var fields := Split(line, ':');
      ParseLine(raw) ==
        if line == "" || line[0] == '#' then Ignored
        else if |fields| < 2 || ParseInt(Strip(fields[1])).None? then Malformed
        else Allowed(Strip(fields[0]), ParseInt(Strip(fields[1])).value)
  {
    FirstFields(Strip(raw), ':');
  }

  lemma SignsLaw(s: string, n: nat)
    requires ParseDigits(s) == Some(n)
    ensures ParseInt("+" + s) == Some(n) && ParseInt("-" + s) == Some(-(n as int))
  {
    assert ("+" + s)[1..] == s && ("-" + s)[1..] == s;
  }

  /** Numbers are read back from their digits, with either sign in front or none. */
  lemma IntLaw(n: nat)
    ensures ParseInt(Decimal(n)) == Some(n)
    ensures ParseInt("+" + Decimal(n)) == Some(n) && ParseInt("-" + Decimal(n)) == Some(-(n as int))
  {
    PrintedCount(n);
    PrintedDigits(n);
    SignsLaw(Decimal(n), n);
  }

  /** The reason of a mixed entry gives two numbers, as they read back: what is permanent, and the rest of the count. */
  lemma MixedAddsUp(keep: Permanent, count: nat) returns (kept: string, rest: string)
    ensures MixedReason(keep, count) == kept + " permanent (" + keep.reason + ") + " + rest + " awaiting injection"
    ensures ParseInt(kept) == Some(keep.count) && ParseInt(rest) == Some(count as int - keep.count)
  {
    kept, rest := Decimal(keep.count), Signed(count as int - keep.count);
    IntLaw(keep.count);
    SignedReadsBack(count as int - keep.count);
  }

  lemma SignedReadsBack(v: int)
    ensures ParseInt(Signed(v)) == Some(v)
  {
    IntLaw(if v < 0 then -v else v);
  }

  lemma {:induction false} WithoutAppend(a: string, b: string, c: char)
    ensures Without(a + b, c) == Without(a, c) + Without(b, c)
  {
    if a == "" {
      assert a + b == b;
    } else {
      assert (a + b)[1..] == a[1..] + b;
      WithoutAppend(a[1..], b, c);
    }
  }

  /** Single underscores between digits change nothing; others spoil the number. */
  lemma UnderscoreLaw(a: string, b: string)
    requires Lacks(a, '_') && Lacks(b, '_')
    ensures ParseDigits(a + "_" + b) == if a == "" || b == "" then None else ParseDecimal(a + b)
    ensures ParseDigits(a + "__" + b) == None
  {
    var s := a + "_" + b;
    WithoutNothing(a, '_');
    WithoutNothing(b, '_');
    WithoutAppend(a + "_", b, '_');
    WithoutAppend(a, "_", '_');
    assert a + "" == a;
    assert (a + "__" + b)[|a|] == '_' && (a + "__" + b)[|a| + 1] == '_';
  }

  /** What follows the path in an entry's line: the count up to the colon behind it. */
  lemma CountReadsBack(n: nat, tail: string)
    ensures var rest := Decimal(n) + [':'] + tail; ParseInt(Strip(rest[..IndexOf(rest, ':')])) == Some(n)
  {
    var count := Decimal(n);
    DecimalLacks(n, ':');
    IndexOfFirst(count, ':', tail);
    assert (count + [':'] + tail)[..|count|] == count;
    PrintedCount(n);
  }

  lemma PathComesOff(path: string, rest: string)
    requires Readable(path)
    ensures var line := path + [':'] + rest; var i := IndexOf(line, ':');
      i == |path| && Strip(line[..i]) == path && line[i + 1..] == rest
  {
    IndexOfFirst(path, ':', rest);
    assert (path + [':'] + rest)[..|path|] == path;
    if path != "" { StripNothing(path); }
  }

  /** A stripped line that starts with a path and a count. */
  lemma FrontReadsBack(path: string, n: nat, tail: string)
    requires Readable(path)
    ensures var line := path + [':'] + (Decimal(n) + [':'] + tail);
      Strip(line) == line ==> ParseLine(line) == Allowed(path, n)
  {
    var rest := Decimal(n) + [':'] + tail;
    PathComesOff(path, rest);
    CountReadsBack(n, tail);
  }

  /** An entry's line is read back as its path and count, whatever the reason says, exactly when the path allows it. */
  lemma EntryReadsBack(e: Entry, reason: string)
    ensures ParseLine(EntryLine(e, reason)) == Allowed(e.path, e.count) <==> Readable(e.path)
  {
    var front := e.path + ":" + Decimal(e.count) + ":";
    assert EntryLine(e, reason) == front + reason;
    if Readable(e.path) {
      assert !IsBlank(front[0]);
      assert StripLeft(front + reason) == front + reason;
      var k := StripRightStops(front, reason);
      var line := front + reason[..k];
      StripTwice(EntryLine(e, reason));
      assert line == e.path + [':'] + (Decimal(e.count) + [':'] + reason[..k]);
      FrontReadsBack(e.path, e.count, reason[..k]);
      ParseStripped(EntryLine(e, reason));
    } else if ParseLine(EntryLine(e, reason)) == Allowed(e.path, e.count) {
      NotReadBack(e, reason);
    }
  }

  lemma StripTwice(s: string)
    ensures Strip(Strip(s)) == Strip(s)
  {
    StripLaw(s, ' ');
    if Strip(s) != "" { StripNothing(Strip(s)); }
  }

  lemma ParseStripped(s: string)
    ensures ParseLine(Strip(s)) == ParseLine(s)
  {
    StripTwice(s);
  }

  lemma NotReadBack(e: Entry, reason: string)
    requires ParseLine(EntryLine(e, reason)) == Allowed(e.path, e.count)
    ensures Readable(e.path)
  {
    var raw := EntryLine(e, reason);
    var line := Strip(raw);
    var i := IndexOf(line, ':');
    StripLaw(line[..i], ':');
    if e.path != "" {
      assert raw[0] == e.path[0];
      assert StripLeft(raw) == raw;
      StripRightLaw(raw, ':');
    }
  }

  // ----- what reading a file can give

  lemma {:induction false} StripLeftSlice(s: string) returns (i: nat)
    ensures i <= |s| && StripLeft(s) == s[i..] && forall k :: 0 <= k < i ==> IsBlank(s[k])
  {
    i := 0;
    if s != "" && IsBlank(s[0]) {
      var j := StripLeftSlice(s[1..]);
      i := j + 1;
      assert s[1..][j..] == s[i..];
    }
  }

  lemma {:induction false} StripRightSlice(s: string) returns (j: nat)
    ensures j <= |s| && StripRight(s) == s[..j] && forall k :: j <= k < |s| ==> IsBlank(s[k])
  {
    j := |s|;
    if s != "" && IsBlank(s[|s| - 1]) {
      j := StripRightSlice(s[..|s| - 1]);
      assert s[..|s| - 1][..j] == s[..j];
    }
  }

  /** Stripping takes off the blanks at both ends, all of them, and nothing else. */
  lemma StripCuts(s: string) returns (i: nat, j: nat)
    ensures i <= j <= |s| && Strip(s) == s[i..j]
    ensures forall k :: 0 <= k < i || j <= k < |s| ==> IsBlank(s[k])
    ensures i < j ==> !IsBlank(s[i]) && !IsBlank(s[j - 1])
  {
    i := StripLeftSlice(s);
    var n := StripRightSlice(StripLeft(s));
    j := i + n;
    assert s[i..][..n] == s[i..j];
    forall k | j <= k < |s| ensures IsBlank(s[k]) {
      assert s[k] == s[i..][k - i];
    }
    StripLaw(s, ' ');
  }

  lemma StripOneLine(s: string)
    requires OneLine(s)
    ensures OneLine(Strip(s))
  {
    var i := StripLeftSlice(s);
    var j := StripRightSlice(StripLeft(s));
  }

  lemma StripFirst(s: string)
    requires s != "" && !IsBlank(s[0])
    ensures Strip(s) != "" && Strip(s)[0] == s[0]
  {
    var k := StripRightStops([s[0]], s[1..]);
    assert [s[0]] + s[1..] == s;
  }

  /** A path that is read from a line is one the file can carry. */
  lemma ReadPathWritable(raw: string)
    requires OneLine(raw) && ParseLine(raw).Allowed?
    ensures Writable(ParseLine(raw).path)
  {
    var line := Strip(raw);
    var i := IndexOf(line, ':');
    StripOneLine(raw);
    StripOneLine(line[..i]);
    StripLaw(raw, ':');
    StripLaw(line[..i], ':');
    if i > 0 { StripFirst(line[..i]); }
  }

  lemma {:induction false} SplitOneLine(text: string, acc: string)
    requires OneLine(acc)
    ensures forall k :: 0 <= k < |LinesFrom(text, acc)| ==> OneLine(LinesFrom(text, acc)[k])
    decreases |text|
  {
    if text != "" {
      if !IsLineEnd(text[0]) {
        SplitOneLine(text[1..], acc + [text[0]]);
      } else if text[0] == '\r' && |text| > 1 && text[1] == '\n' {
        SplitOneLine(text[2..], "");
      } else {
        SplitOneLine(text[1..], "");
      }
    }
  }

  lemma {:induction false} LoadedWritable(lines: seq<string>, path: string)
    requires forall k :: 0 <= k < |lines| ==> OneLine(lines[k])
    requires LoadLines(lines).Success? && path in LoadLines(lines).value
    ensures Writable(path)
  {
    var n := |lines| - 1;
    var said := ParseLine(lines[n]);
    if said.Allowed? && said.path == path {
      ReadPathWritable(lines[n]);
    } else {
      LoadedWritable(lines[..n], path);
    }
  }

  predicate Distinct(entries: seq<Entry>) {
    forall i, j :: 0 <= i < j < |entries| ==> entries[i].path != entries[j].path
  }

  /** The counts of the entries, by path. */
  function CountsOf(entries: seq<Entry>): map<string, int> {
    if entries == [] then map[]
    else
      var last := entries[|entries| - 1];
      CountsOf(entries[..|entries| - 1])[last.path := last.count]
  }

  lemma {:induction false} CountsLookup(entries: seq<Entry>, path: string)
    requires Distinct(entries)
    ensures path in CountsOf(entries) <==> exists k :: 0 <= k < |entries| && entries[k].path == path
    ensures forall k :: 0 <= k < |entries| ==>
      entries[k].path in CountsOf(entries) && CountsOf(entries)[entries[k].path] == entries[k].count
  {
    if entries != [] {
      var n := |entries| - 1;
      CountsLookup(entries[..n], path);
      assert forall k :: 0 <= k < n ==> entries[..n][k] == entries[k];
    }
  }

  // ----- what the lines of a file say, one by one

  function ParseAll(lines: seq<string>): (r: seq<Parsed>)
    ensures |r| == |lines| && forall i :: 0 <= i < |r| ==> r[i] == ParseLine(lines[i])
  {
    seq(|lines|, i requires 0 <= i < |lines| => ParseLine(lines[i]))
  }

  function LoadParsed(parsed: seq<Parsed>): Result<map<string, int>> {
    if parsed == [] then Success(map[])
    else
      var before :- LoadParsed(parsed[..|parsed| - 1]);
      match parsed[|parsed| - 1]
      case Ignored => Success(before)
      case Malformed => Failure
      case Allowed(path, count) => Success(before[path := count])
  }

  lemma {:induction false} LoadIsLoadParsed(lines: seq<string>)
    ensures LoadLines(lines) == LoadParsed(ParseAll(lines))
  {
    if lines != [] {
      var n := |lines| - 1;
      LoadIsLoadParsed(lines[..n]);
      assert ParseAll(lines)[..n] == ParseAll(lines[..n]);
    }
  }

  /** The line allows some count for the path. */
  predicate Sets(said: Parsed, path: string) {
    said.Allowed? && said.path == path
  }

  /** Line `k` is the last to say anything of the path. */
  predicate LastToSet(said: seq<Parsed>, path: string, k: int) {
    0 <= k < |said| && Sets(said[k], path) && forall j :: k < j < |said| ==> !Sets(said[j], path)
  }

  lemma {:induction false} LastSayingWins(said: seq<Parsed>, path: string)
    ensures LoadParsed(said).Failure? <==> Malformed in said
    ensures LoadParsed(said).Success? ==>
      && (path in LoadParsed(said).value <==> exists k :: LastToSet(said, path, k))
      && forall k :: LastToSet(said, path, k) ==>
           path in LoadParsed(said).value && LoadParsed(said).value[path] == said[k].count
  {
    if said != [] {
      var n := |said| - 1;
      LastSayingWins(said[..n], path);
      assert said == said[..n] + [said[n]];
      forall k
        ensures LastToSet(said, path, k) <==> if Sets(said[n], path) then k == n else LastToSet(said[..n], path, k)
      {
        LastToSetSnoc(said[..n], said[n], path, k);
      }
      if Sets(said[n], path) {
        assert LastToSet(said, path, n);
      }
    }
  }

  lemma LastToSetSnoc(said: seq<Parsed>, p: Parsed, path: string, k: int)
    ensures LastToSet(said + [p], path, k) <==> if Sets(p, path) then k == |said| else LastToSet(said, path, k)
  {
    var all := said + [p];
    assert all[|said|] == p;
    assert forall j :: 0 <= j < |said| ==> all[j] == said[j];
  }

  /**
   A file fails to load exactly if some line of it is malformed; otherwise it allows a path
   exactly if some line does, and the last one that does says how much.
   */
  lemma LastLineWins(lines: seq<string>, path: string)
    ensures var said := ParseAll(lines);
      && (LoadLines(lines).Failure? <==> Malformed in said)
      && (LoadLines(lines).Success? ==>
            && (path in LoadLines(lines).value <==> exists k :: LastToSet(said, path, k))
            && forall k :: LastToSet(said, path, k) ==>
                 path in LoadLines(lines).value && LoadLines(lines).value[path] == said[k].count)
  {
    LoadIsLoadParsed(lines);
    LastSayingWins(ParseAll(lines), path);
  }

  lemma ParseAllAppend(a: seq<string>, b: seq<string>)
    ensures ParseAll(a + b) == ParseAll(a) + ParseAll(b)
  {}

  /** What an entry's line says. */
  function Saying(e: Entry): Parsed {
    Allowed(e.path, e.count)
  }

  predicate SaidBy(p: Parsed, entries: seq<Entry>) {
    exists k :: 0 <= k < |entries| && p == Saying(entries[k])
  }

  predicate IgnoredOrSaid(parsed: seq<Parsed>, entries: seq<Entry>) {
    forall i :: 0 <= i < |parsed| ==> parsed[i] == Ignored || SaidBy(parsed[i], entries)
  }

  /** Lines that say only what the entries say load without error, and only to the entries' counts. */
  lemma {:induction false} LoadsOnly(parsed: seq<Parsed>, entries: seq<Entry>)
    requires Distinct(entries)
    requires IgnoredOrSaid(parsed, entries)
    ensures LoadParsed(parsed).Success?
    ensures var m := LoadParsed(parsed).value;
      && (forall p :: p in m ==> p in CountsOf(entries) && m[p] == CountsOf(entries)[p])
      && forall i :: 0 <= i < |parsed| && parsed[i].Allowed? ==> parsed[i].path in m
  {
    if parsed != [] {
      var n := |parsed| - 1;
      LoadsOnly(parsed[..n], entries);
      if parsed[n] != Ignored {
        var k :| 0 <= k < |entries| && parsed[n] == Saying(entries[k]);
        CountsLookup(entries, entries[k].path);
      }
    }
  }

  lemma LoadsExactly(parsed: seq<Parsed>, entries: seq<Entry>)
    requires Distinct(entries)
    requires IgnoredOrSaid(parsed, entries)
    requires forall k :: 0 <= k < |entries| ==> Saying(entries[k]) in parsed
    ensures LoadParsed(parsed) == Success(CountsOf(entries))
  {
    LoadsOnly(parsed, entries);
    var m, counts := LoadParsed(parsed).value, CountsOf(entries);
    forall p | p in counts ensures p in m {
      CountsLookup(entries, p);
      var k :| 0 <= k < |entries| && entries[k].path == p;
      assert Saying(entries[k]) in parsed;
    }
    assert m == counts;
  }

  // ----- the snapshot's own lines

  /** Comments and blank lines. */
  predicate AllIgnored(lines: seq<string>) {
    forall i :: 0 <= i < |lines| ==> OneLine(lines[i]) && ParseLine(lines[i]).Ignored?
  }

  predicate GoodReasons(permanent: map<string, Permanent>) {
    forall p :: p in permanent ==> OneLine(permanent[p].reason)
  }

  lemma DecimalOneLine(n: nat)
    ensures OneLine(Decimal(n))
  {
    DecimalDigits(n);
  }

  lemma OneLineConcat(a: string, b: string)
    requires OneLine(a) && OneLine(b)
    ensures OneLine(a + b)
  {}

  lemma MixedOneLine(keep: Permanent, count: nat)
    requires OneLine(keep.reason)
    ensures OneLine(MixedReason(keep, count))
  {
    var reason, rest := keep.reason, count as int - keep.count;
    DecimalOneLine(keep.count);
    DecimalOneLine(if rest < 0 then -rest else rest);
    OneLineConcat("-", Decimal(if rest < 0 then -rest else rest));
    var a := Decimal(keep.count) + " permanent (";
    OneLineConcat(Decimal(keep.count), " permanent (");
    OneLineConcat(a, reason);
    OneLineConcat(a + reason, ") + ");
    OneLineConcat(a + reason + ") + ", Signed(rest));
    OneLineConcat(a + reason + ") + " + Signed(rest), " awaiting injection");
  }

  lemma EntryOneLine(e: Entry, permanent: map<string, Permanent>)
    requires Writable(e.path) && GoodReasons(permanent)
    ensures OneLine(EntryLine(e, ReasonFor(e, permanent)))
  {
    var reason := ReasonFor(e, permanent);
    assert OneLine(reason) by {
      if SectionOf(e, permanent).Mixed? {
        MixedOneLine(permanent[e.path], e.count);
      }
    }
    DecimalOneLine(e.count);
    OneLineConcat(e.path, ":");
    OneLineConcat(e.path + ":", Decimal(e.count));
    OneLineConcat(e.path + ":" + Decimal(e.count), ":");
    OneLineConcat(e.path + ":" + Decimal(e.count) + ":", reason);
  }

  function SectionSayings(entries: seq<Entry>, section: Section, permanent: map<string, Permanent>): seq<Parsed> {
    if entries == [] then []
    else
      var n := |entries| - 1;
      SectionSayings(entries[..n], section, permanent)
      + if SectionOf(entries[n], permanent) == section then [Saying(entries[n])] else []
  }

  lemma {:induction false} SectionReadsBack(entries: seq<Entry>, section: Section, permanent: map<string, Permanent>)
    requires GoodReasons(permanent) && forall k :: 0 <= k < |entries| ==> Writable(entries[k].path)
    ensures var lines := SectionLines(entries, section, permanent);
      AllOneLine(lines) && ParseAll(lines) == SectionSayings(entries, section, permanent)
  {
    if entries != [] {
      var n := |entries| - 1;
      SectionReadsBack(entries[..n], section, permanent);
      if SectionOf(entries[n], permanent) == section {
        OneEntryReadsBack(entries[n], permanent);
        ParseAllAppend(SectionLines(entries[..n], section, permanent),
          [EntryLine(entries[n], ReasonFor(entries[n], permanent))]);
      }
    }
  }

  lemma OneEntryReadsBack(e: Entry, permanent: map<string, Permanent>)
    requires Writable(e.path) && GoodReasons(permanent)
    ensures var line := EntryLine(e, ReasonFor(e, permanent)); OneLine(line) && ParseAll([line]) == [Saying(e)]
  {
    EntryOneLine(e, permanent);
    EntryReadsBack(e, ReasonFor(e, permanent));
  }

  predicate OnlySays(parsed: seq<Parsed>, entries: seq<Entry>) {
    forall i :: 0 <= i < |parsed| ==> SaidBy(parsed[i], entries)
  }

  lemma OnlySaysMore(parsed: seq<Parsed>, entries: seq<Entry>, more: seq<Entry>)
    requires OnlySays(parsed, entries) && entries <= more
    ensures OnlySays(parsed, more)
  {
    forall i | 0 <= i < |parsed| ensures SaidBy(parsed[i], more) {
      var k :| 0 <= k < |entries| && parsed[i] == Saying(entries[k]);
      assert more[k] == entries[k];
    }
  }

  /** A section says what its entries say, and nothing else. */
  lemma {:induction false} SectionSaysItsEntries(
    entries: seq<Entry>, section: Section, permanent: map<string, Permanent>)
    ensures OnlySays(SectionSayings(entries, section, permanent), entries)
    ensures forall k :: 0 <= k < |entries| && SectionOf(entries[k], permanent) == section ==>
      Saying(entries[k]) in SectionSayings(entries, section, permanent)
  {
    if entries != [] {
      var n := |entries| - 1;
      var before, parsed := SectionSayings(entries[..n], section, permanent),
        SectionSayings(entries, section, permanent);
      SectionSaysItsEntries(entries[..n], section, permanent);
      OnlySaysMore(before, entries[..n], entries);
      assert SaidBy(Saying(entries[n]), entries);
      forall k | 0 <= k < |entries| && SectionOf(entries[k], permanent) == section
        ensures Saying(entries[k]) in parsed
      {
        if k < n { assert entries[..n][k] == entries[k]; }
      }
    }
  }

  function SnapshotSayings(entries: seq<Entry>, permanent: map<string, Permanent>, notes: Notes): seq<Parsed> {
    ParseAll(notes.permanent) + SectionSayings(entries, PermanentOnly, permanent)
    + ParseAll(notes.mixed) + SectionSayings(entries, Mixed, permanent)
    + ParseAll(notes.temporary) + SectionSayings(entries, Temporary, permanent)
  }

  lemma SnapshotParses(entries: seq<Entry>, permanent: map<string, Permanent>, notes: Notes)
    requires GoodReasons(permanent) && forall k :: 0 <= k < |entries| ==> Writable(entries[k].path)
    requires AllIgnored(notes.permanent) && AllIgnored(notes.mixed) && AllIgnored(notes.temporary)
    ensures var lines := SnapshotLines(entries, permanent, notes);
      AllOneLine(lines) && ParseAll(lines) == SnapshotSayings(entries, permanent, notes)
  {
    var p, m, t := SectionLines(entries, PermanentOnly, permanent), SectionLines(entries, Mixed, permanent),
      SectionLines(entries, Temporary, permanent);
    SectionReadsBack(entries, PermanentOnly, permanent);
    SectionReadsBack(entries, Mixed, permanent);
    SectionReadsBack(entries, Temporary, permanent);
    ParseSix(notes.permanent, p, notes.mixed, m, notes.temporary, t);
    SixOneLine(notes.permanent, p, notes.mixed, m, notes.temporary, t);
  }

  lemma ParseSix(a: seq<string>, b: seq<string>, c: seq<string>, d: seq<string>, e: seq<string>, f: seq<string>)
    ensures ParseAll(a + b + c + d + e + f) ==
      ParseAll(a) + ParseAll(b) + ParseAll(c) + ParseAll(d) + ParseAll(e) + ParseAll(f)
  {
    ParseAllAppend(a, b);
    ParseAllAppend(a + b, c);
    ParseAllAppend(a + b + c, d);
    ParseAllAppend(a + b + c + d, e);
    ParseAllAppend(a + b + c + d + e, f);
  }

  predicate AllOneLine(lines: seq<string>) {
    forall i :: 0 <= i < |lines| ==> OneLine(lines[i])
  }

  lemma BothOneLine(a: seq<string>, b: seq<string>)
    requires AllOneLine(a) && AllOneLine(b)
    ensures AllOneLine(a + b)
  {}

  lemma SixOneLine(a: seq<string>, b: seq<string>, c: seq<string>, d: seq<string>, e: seq<string>, f: seq<string>)
    requires AllOneLine(a) && AllOneLine(b) && AllOneLine(c) && AllOneLine(d) && AllOneLine(e) && AllOneLine(f)
    ensures AllOneLine(a + b + c + d + e + f)
  {
    BothOneLine(a, b);
    BothOneLine(a + b, c);
    BothOneLine(a + b + c, d);
    BothOneLine(a + b + c + d, e);
    BothOneLine(a + b + c + d + e, f);
  }

  lemma SnapshotSaysEntries(entries: seq<Entry>, permanent: map<string, Permanent>, notes: Notes)
    requires AllIgnored(notes.permanent) && AllIgnored(notes.mixed) && AllIgnored(notes.temporary)
    ensures var parsed := SnapshotSayings(entries, permanent, notes);
      && IgnoredOrSaid(parsed, entries)
      && forall k :: 0 <= k < |entries| ==> Saying(entries[k]) in parsed
  {
    SectionSaysItsEntries(entries, PermanentOnly, permanent);
    SectionSaysItsEntries(entries, Mixed, permanent);
    SectionSaysItsEntries(entries, Temporary, permanent);
    var p, m, t := SectionSayings(entries, PermanentOnly, permanent), SectionSayings(entries, Mixed, permanent),
      SectionSayings(entries, Temporary, permanent);
    SixParts(ParseAll(notes.permanent), p, ParseAll(notes.mixed), m, ParseAll(notes.temporary), t, entries);
    forall k | 0 <= k < |entries| ensures Saying(entries[k]) in SnapshotSayings(entries, permanent, notes) {
      match SectionOf(entries[k], permanent)
      case PermanentOnly => assert Saying(entries[k]) in p;
      case Mixed => assert Saying(entries[k]) in m;
      case Temporary => assert Saying(entries[k]) in t;
    }
  }

  lemma SixParts(
    a: seq<Parsed>, b: seq<Parsed>, c: seq<Parsed>, d: seq<Parsed>, e: seq<Parsed>, f: seq<Parsed>, entries: seq<Entry>)
    requires IgnoredOrSaid(a, entries) && IgnoredOrSaid(b, entries) && IgnoredOrSaid(c, entries)
    requires IgnoredOrSaid(d, entries) && IgnoredOrSaid(e, entries) && IgnoredOrSaid(f, entries)
    ensures IgnoredOrSaid(a + b + c + d + e + f, entries)
  {
    TwoParts(a, b, entries);
    TwoParts(a + b, c, entries);
    TwoParts(a + b + c, d, entries);
    TwoParts(a + b + c + d, e, entries);
    TwoParts(a + b + c + d + e, f, entries);
  }

  lemma TwoParts(a: seq<Parsed>, b: seq<Parsed>, entries: seq<Entry>)
    requires IgnoredOrSaid(a, entries) && IgnoredOrSaid(b, entries)
    ensures IgnoredOrSaid(a + b, entries)
  {}

  predicate AllWritable(entries: seq<Entry>) {
    forall k :: 0 <= k < |entries| ==> Writable(entries[k].path)
  }

  /** What loading a just-written snapshot gives. */
  function Reloaded(entries: seq<Entry>, permanent: map<string, Permanent>, notes: Notes): Result<map<string, int>> {
    LoadLines(SplitLines(Unlines(SnapshotLines(entries, permanent, notes))))
  }

  lemma WritableReadsBack(entries: seq<Entry>, permanent: map<string, Permanent>, notes: Notes)
    requires GoodReasons(permanent) && Distinct(entries) && AllWritable(entries)
    requires AllIgnored(notes.permanent) && AllIgnored(notes.mixed) && AllIgnored(notes.temporary)
    ensures Reloaded(entries, permanent, notes) == Success(CountsOf(entries))
  {
    var lines := SnapshotLines(entries, permanent, notes);
    SnapshotParses(entries, permanent, notes);
    LinesReadBack(lines);
    LoadIsLoadParsed(lines);
    SnapshotSaysEntries(entries, permanent, notes);
    LoadsExactly(SnapshotSayings(entries, permanent, notes), entries);
  }

  lemma ReloadedWritable(entries: seq<Entry>, permanent: map<string, Permanent>, notes: Notes, path: string)
    requires Reloaded(entries, permanent, notes).Success? && path in Reloaded(entries, permanent, notes).value
    ensures Writable(path)
  {
    var text := Unlines(SnapshotLines(entries, permanent, notes));
    SplitOneLine(text, "");
    LoadedWritable(SplitLines(text), path);
  }

  /**
   Loading a just-written snapshot gives back exactly the counts it was written from, when
   every path can be carried and only then.
   */
  lemma SnapshotReadsBack(entries: seq<Entry>, permanent: map<string, Permanent>, notes: Notes)
    requires GoodReasons(permanent) && Distinct(entries)
    requires AllIgnored(notes.permanent) && AllIgnored(notes.mixed) && AllIgnored(notes.temporary)
    ensures Reloaded(entries, permanent, notes) == Success(CountsOf(entries)) <==> AllWritable(entries)
  {
    if AllWritable(entries) {
      WritableReadsBack(entries, permanent, notes);
    } else if Reloaded(entries, permanent, notes) == Success(CountsOf(entries)) {
      forall k | 0 <= k < |entries| ensures Writable(entries[k].path) {
        CountsLookup(entries, entries[k].path);
        ReloadedWritable(entries, permanent, notes, entries[k].path);
      }
    }
  }

  // ----- the gate

  function Budget(allowed: map<string, int>, path: string): int {
    if path in allowed then allowed[path] else 0
  }

  /** Every path's count is its allowed count, a missing one being zero. */
  ghost predicate Balanced(found: map<string, int>, allowed: map<string, int>) {
    forall p :: Budget(found, p) == Budget(allowed, p)
  }

  /** Paths found over and under their budget. */
  method OverAndUnder(found: map<string, int>, allowed: map<string, int>)
    returns (over: set<string>, under: set<string>)
    ensures forall p :: p in over <==> p in found && found[p] > Budget(allowed, p)
    ensures forall p :: p in under <==> p in found && found[p] < Budget(allowed, p)
  {
    over, under := {}, {};
    var todo := found.Keys;
    while todo != {}
      invariant todo <= found.Keys
      invariant forall p :: p in over <==> p in found && p !in todo && found[p] > Budget(allowed, p)
      invariant forall p :: p in under <==> p in found && p !in todo && found[p] < Budget(allowed, p)
      decreases |todo|
    {
      var p :| p in todo;
      if found[p] > Budget(allowed, p) {
        over := over + {p};
      } else if found[p] < Budget(allowed, p) {
        under := under + {p};
      }
      todo := todo - {p};
    }
  }

  /** Paths with a budget and nothing found. */
  method Unused(found: map<string, int>, allowed: map<string, int>) returns (unused: set<string>)
    ensures forall p :: p in unused <==> p in allowed && p !in found && allowed[p] != 0
  {
    unused := {};
    var todo := allowed.Keys;
    while todo != {}
      invariant todo <= allowed.Keys
      invariant forall p :: p in unused <==> p in allowed && p !in todo && p !in found && allowed[p] != 0
      decreases |todo|
    {
      var p :| p in todo;
      if p !in found && allowed[p] != 0 {
        unused := unused + {p};
      }
      todo := todo - {p};
    }
  }

  /** The comparison passes exactly when every path's count is its allowed count. */
  method Compare(found: map<string, int>, allowed: map<string, int>)
    returns (newReads: set<string>, stale: set<string>, code: nat)
    ensures code <= 1 && (code == 0 <==> Balanced(found, allowed))
    ensures forall p :: p in newReads <==> p in found && found[p] > Budget(allowed, p)
    ensures forall p :: p in stale <==>
      if p in found then found[p] < Budget(allowed, p) else Budget(allowed, p) != 0
  {
    var under, unused;
    newReads, under := OverAndUnder(found, allowed);
    unused := Unused(found, allowed);
    stale := under + unused;
    code := if newReads != {} || stale != {} then 1 else 0;
    if code == 0 {
      forall p ensures Budget(found, p) == Budget(allowed, p) {
        assert p !in newReads && p !in under && p !in unused;
      }
    } else {
      var p :| p in newReads || p in stale;
      assert Budget(found, p) != Budget(allowed, p);
    }
  }

  /** Right after a snapshot of paths with reads the gate passes, when every path can be carried and only then. */
  lemma SnapshotPasses(entries: seq<Entry>, permanent: map<string, Permanent>, notes: Notes)
    requires GoodReasons(permanent) && Distinct(entries) && forall k :: 0 <= k < |entries| ==> entries[k].count > 0
    requires AllIgnored(notes.permanent) && AllIgnored(notes.mixed) && AllIgnored(notes.temporary)
    ensures var loaded := Reloaded(entries, permanent, notes);
      loaded.Success? && Balanced(CountsOf(entries), loaded.value) <==> AllWritable(entries)
  {
    var loaded := Reloaded(entries, permanent, notes);
    if AllWritable(entries) {
      WritableReadsBack(entries, permanent, notes);
    } else if loaded.Success? && Balanced(CountsOf(entries), loaded.value) {
      forall k | 0 <= k < |entries| ensures Writable(entries[k].path) {
        CountsLookup(entries, entries[k].path);
        assert Budget(CountsOf(entries), entries[k].path) == Budget(loaded.value, entries[k].path);
        ReloadedWritable(entries, permanent, notes, entries[k].path);
      }
    }
  }
}
