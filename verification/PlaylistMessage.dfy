/**
 The playlist message sent over the data channel: one line per record, fields separated
 by bars. Titles, artists, vendors and comments are arbitrary text; cleaning keeps them
 from adding lines or fields.
 */
module PlaylistMessage {
  import opened Sequences
  import opened Wrappers
  import opened Text
  import opened Playlist

  function Replace(s: string, from: char, to: char): (r: string)
    ensures |r| == |s| && forall i :: 0 <= i < |s| ==> r[i] == if s[i] == from then to else s[i]
  {
    seq(|s|, i requires 0 <= i < |s| => if s[i] == from then to else s[i])
  }

  function CleanText(v: string): string {
    Replace(Replace(v, '\n', ' '), '|', '/')
  }

  /** Text that can stand in a field of a record. */
  predicate Plain(s: string) {
    Lacks(s, '\n') && Lacks(s, '|')
  }

  /** Newlines become spaces and bars become slashes; every other character stays where it is. */
  lemma CleanLaw(v: string)
    ensures Plain(CleanText(v)) && |CleanText(v)| == |v|
    ensures forall i :: 0 <= i < |v| ==>
      CleanText(v)[i] == if v[i] == '\n' then ' ' else if v[i] == '|' then '/' else v[i]
    ensures Plain(v) ==> CleanText(v) == v
  {
    if Plain(v) {
      assert CleanText(v) == v;
    }
  }

  function NormalizeIndex(i: int, limit: nat): nat {
    if limit == 0 || i < 0 then 0 else if i >= limit then limit - 1 else i
  }

  const MILLISECOND := 1_000_000

  /** A run time in nanoseconds, as whole milliseconds. */
  function Millis(runtime: nat): nat {
    runtime / MILLISECOND
  }

  function CommentText(c: Comment): string {
    CleanText(c.key) + "=" + CleanText(c.value)
  }

  function CommentTexts(comments: seq<Comment>): (texts: seq<string>)
    ensures |texts| == |comments| && forall i :: 0 <= i < |texts| ==> texts[i] == CommentText(comments[i])
  {
    seq(|comments|, i requires 0 <= i < |comments| => CommentText(comments[i]))
  }

  function CommentField(t: Track): string {
    if t.tags.Some? then JoinWith(CommentTexts(t.tags.value.comments), ',') else ""
  }

  // ----- records

  function HeaderFields(current: nat): seq<string> {
    ["playlist", Decimal(current)]
  }

  function TrackFields(t: Track, index: nat): seq<string> {
    ["track", Decimal(index), Decimal(t.serial), Decimal(Millis(t.runtime)), CleanText(t.title), CleanText(t.artist)]
  }

  function NowFields(t: Track, index: nat): seq<string> {
    var channels := if t.header.Some? then t.header.value.channels else 2;
    var rate := if t.header.Some? then t.header.value.sampleRate else 48000;
    ["now", Decimal(index), Decimal(t.serial), Decimal(channels), Decimal(rate), Decimal(Millis(t.runtime)),
     CleanText(t.title), CleanText(t.artist), CleanText(t.vendor), CommentField(t)]
  }

  function Line(fields: seq<string>): string {
    JoinWith(fields, '|') + "\n"
  }

  /** The records of a playlist: its header, one per track, and what is playing if there are tracks. */
  function Records(tracks: seq<Track>, current: int): seq<seq<string>> {
    var idx := NormalizeIndex(current, |tracks|);
    [HeaderFields(idx)] + TrackRecords(tracks, |tracks|) + if tracks == [] then [] else [NowFields(tracks[idx], idx)]
  }

  function TrackRecords(tracks: seq<Track>, n: nat): (records: seq<seq<string>>)
    requires n <= |tracks|
    ensures |records| == n && forall i :: 0 <= i < n ==> records[i] == TrackFields(tracks[i], i)
  {
    if n == 0 then [] else TrackRecords(tracks, n - 1) + [TrackFields(tracks[n - 1], n - 1)]
  }

  function Lines(records: seq<seq<string>>): string {
    if records == [] then "" else Line(records[0]) + Lines(records[1..])
  }

  // ----- building

  lemma {:induction false} LinesSnoc(records: seq<seq<string>>, record: seq<string>)
    ensures Lines(records + [record]) == Lines(records) + Line(record)
  {
    if records == [] {
      assert ([] + [record])[1..] == [];
    } else {
      assert (records + [record])[1..] == records[1..] + [record];
      LinesSnoc(records[1..], record);
    }
  }

  lemma RecordsSnoc(header: seq<string>, tracks: seq<Track>, i: nat)
    requires i < |tracks|
    ensures Lines([header] + TrackRecords(tracks, i + 1)) ==
      Lines([header] + TrackRecords(tracks, i)) + Line(TrackFields(tracks[i], i))
  {
    LinesSnoc([header] + TrackRecords(tracks, i), TrackFields(tracks[i], i));
    Associate([header], TrackRecords(tracks, i), [TrackFields(tracks[i], i)]);
  }

  lemma HeaderLine(header: seq<string>, tracks: seq<Track>)
    ensures Lines([header] + TrackRecords(tracks, 0)) == Line(header)
  {
    LinesSnoc([], header);
    Nothing([header]);
    Nothing(Line(header));
  }

  method BuildPlaylistMessage(tracks: seq<Track>, current: int) returns (msg: string)
    ensures msg == Lines(Records(tracks, current))
  {
    var idx := NormalizeIndex(current, |tracks|);
    var header := HeaderFields(idx);
    msg := Line(header);
    HeaderLine(header, tracks);
    for i := 0 to |tracks|
      invariant msg == Lines([header] + TrackRecords(tracks, i))
    {
      msg := msg + Line(TrackFields(tracks[i], i));
      RecordsSnoc(header, tracks, i);
    }
    if tracks != [] {
      msg := msg + Line(NowFields(tracks[idx], idx));
      LinesSnoc([header] + TrackRecords(tracks, |tracks|), NowFields(tracks[idx], idx));
    } else {
      Nothing([header] + TrackRecords(tracks, 0));
    }
  }

  // ----- reading back

  /** What a client makes of a message: the empty piece after the last newline dropped, each line cut at bars. */
  function Read(msg: string): seq<seq<string>> {
    var lines := Split(msg, '\n');
    Cut(lines[..|lines| - 1])
  }

  function Cut(lines: seq<string>): seq<seq<string>> {
    if lines == [] then [] else [Split(lines[0], '|')] + Cut(lines[1..])
  }

  predicate PlainRecord(fields: seq<string>) {
    fields != [] && forall k :: 0 <= k < |fields| ==> Plain(fields[k])
  }

  lemma DecimalPlain(n: nat)
    ensures Plain(Decimal(n))
  {
    DecimalLacks(n, '\n');
    DecimalLacks(n, '|');
  }

  lemma {:induction false} JoinLacks(pieces: seq<string>, sep: char, c: char)
    requires c != sep && forall k :: 0 <= k < |pieces| ==> Lacks(pieces[k], c)
    ensures Lacks(JoinWith(pieces, sep), c)
  {
    if |pieces| > 1 {
      JoinLacks(pieces[1..], sep, c);
    }
  }

  lemma CommentsPlain(t: Track)
    ensures Plain(CommentField(t))
  {
    if t.tags.Some? {
      var comments := t.tags.value.comments;
      forall i | 0 <= i < |comments| ensures Plain(CommentText(comments[i])) {
        CleanLaw(comments[i].key);
        CleanLaw(comments[i].value);
      }
      JoinLacks(CommentTexts(comments), ',', '\n');
      JoinLacks(CommentTexts(comments), ',', '|');
    }
  }

  lemma TrackPlain(t: Track, index: nat)
    ensures PlainRecord(TrackFields(t, index))
  {
    DecimalPlain(index);
    DecimalPlain(t.serial);
    DecimalPlain(Millis(t.runtime));
    CleanLaw(t.title);
    CleanLaw(t.artist);
  }

  lemma NowPlain(t: Track, index: nat)
    ensures PlainRecord(NowFields(t, index))
  {
    DecimalPlain(index);
    DecimalPlain(t.serial);
    DecimalPlain(Millis(t.runtime));
    DecimalPlain(if t.header.Some? then t.header.value.channels else 2);
    DecimalPlain(if t.header.Some? then t.header.value.sampleRate else 48000);
    CleanLaw(t.title);
    CleanLaw(t.artist);
    CleanLaw(t.vendor);
    CommentsPlain(t);
  }

  lemma RecordsPlain(tracks: seq<Track>, current: int, k: nat)
    requires k < |Records(tracks, current)|
    ensures PlainRecord(Records(tracks, current)[k])
  {
    var idx := NormalizeIndex(current, |tracks|);
    if k == 0 {
      DecimalPlain(idx);
    } else if k <= |tracks| {
      TrackPlain(tracks[k - 1], k - 1);
    } else {
      NowPlain(tracks[idx], idx);
    }
  }

  /** A record's line comes off the front of a message whole. */
  lemma ReadOne(fields: seq<string>, rest: string)
    requires PlainRecord(fields)
    ensures Read(Line(fields) + rest) == [fields] + Read(rest)
  {
    var first := JoinWith(fields, '|');
    JoinLacks(fields, '|', '\n');
    SplitPiece(first, '\n', rest);
    SplitJoined(fields, '|');
    DropLast(first, Split(rest, '\n'));
  }

  lemma DropLast(first: string, lines: seq<string>)
    requires lines != []
    ensures var all := [first] + lines; Cut(all[..|all| - 1]) == [Split(first, '|')] + Cut(lines[..|lines| - 1])
  {
    var all := [first] + lines;
    assert all[..|all| - 1] == [first] + lines[..|lines| - 1];
    assert all[..|all| - 1][1..] == lines[..|lines| - 1];
  }

  lemma {:induction false} ReadLines(records: seq<seq<string>>)
    requires forall k :: 0 <= k < |records| ==> PlainRecord(records[k])
    ensures Read(Lines(records)) == records
  {
    if records == [] {
      assert Split("", '\n')[..0] == [];
    } else {
      ReadLines(records[1..]);
      ReadOne(records[0], Lines(records[1..]));
    }
  }

  /** Whatever the titles, artists, vendors and comments are, a client reads back every record, field by field. */
  lemma MessageReadsBack(tracks: seq<Track>, current: int)
    ensures Read(Lines(Records(tracks, current))) == Records(tracks, current)
  {
    forall k | 0 <= k < |Records(tracks, current)| ensures PlainRecord(Records(tracks, current)[k]) {
      RecordsPlain(tracks, current, k);
    }
    ReadLines(Records(tracks, current));
  }

  /** The first record names the message and gives the index nearest to the one asked for, zero without tracks. */
  lemma HeaderReadsBack(tracks: seq<Track>, current: int)
    ensures var records := Read(Lines(Records(tracks, current)));
      && |records| == 1 + |tracks| + (if tracks == [] then 0 else 1)
      && |records[0]| == 2 && records[0][0] == "playlist"
      && ParseDecimal(records[0][1]) == Some(NormalizeIndex(current, |tracks|))
  {
    MessageReadsBack(tracks, current);
    ParsePrinted(NormalizeIndex(current, |tracks|));
  }

  /** Whole milliseconds, the rest of the run time dropped. */
  lemma MillisLaw(runtime: nat)
    ensures Millis(runtime) * 1_000_000 <= runtime < (Millis(runtime) + 1) * 1_000_000
  {}

  /** One record of six fields per track, with its index, serial, run time, cleaned title and artist. */
  lemma TrackRecordReadsBack(tracks: seq<Track>, current: int, i: nat)
    requires i < |tracks|
    ensures var records := Read(Lines(Records(tracks, current)));
      && |records| == |tracks| + 2 && |records[i + 1]| == 6 && records[i + 1][0] == "track"
      && ParseDecimal(records[i + 1][1]) == Some(i)
      && ParseDecimal(records[i + 1][2]) == Some(tracks[i].serial)
      && ParseDecimal(records[i + 1][3]) == Some(Millis(tracks[i].runtime))
      && records[i + 1][4..] == [CleanText(tracks[i].title), CleanText(tracks[i].artist)]
  {
    MessageReadsBack(tracks, current);
    ParsePrinted(i);
    ParsePrinted(tracks[i].serial);
    ParsePrinted(Millis(tracks[i].runtime));
  }

  function Distance(a: int, b: int): nat {
    if a < b then b - a else a - b
  }

  /** The fields of a record that describes a track as the one playing. */
  predicate Describes(now: seq<string>, t: Track, index: nat) {
    && |now| == 10 && now[0] == "now"
    && ParseDecimal(now[1]) == Some(index)
    && ParseDecimal(now[2]) == Some(t.serial)
    && ParseDecimal(now[3]) == Some(if t.header.Some? then t.header.value.channels else 2)
    && ParseDecimal(now[4]) == Some(if t.header.Some? then t.header.value.sampleRate else 48000)
    && ParseDecimal(now[5]) == Some(Millis(t.runtime))
    && now[6..9] == [CleanText(t.title), CleanText(t.artist), CleanText(t.vendor)]
    && now[9] == JoinWith(CommentTexts(CommentsOf(t)), ',')
  }

  lemma NowDescribes(t: Track, index: nat)
    ensures Describes(NowFields(t, index), t, index)
  {
    var channels, rate := if t.header.Some? then t.header.value.channels else 2,
      if t.header.Some? then t.header.value.sampleRate else 48000;
    NowNumbers(t, index, channels, rate);
    NowTexts(t, index);
  }

  lemma NowNumbers(t: Track, index: nat, channels: nat, rate: nat)
    requires channels == if t.header.Some? then t.header.value.channels else 2
    requires rate == if t.header.Some? then t.header.value.sampleRate else 48000
    ensures var now := NowFields(t, index);
      && ParseDecimal(now[1]) == Some(index) && ParseDecimal(now[2]) == Some(t.serial)
      && ParseDecimal(now[3]) == Some(channels) && ParseDecimal(now[4]) == Some(rate)
      && ParseDecimal(now[5]) == Some(Millis(t.runtime))
  {
    ParsePrinted(index);
    ParsePrinted(t.serial);
    ParsePrinted(channels);
    ParsePrinted(rate);
    ParsePrinted(Millis(t.runtime));
  }

  lemma NowTexts(t: Track, index: nat)
    ensures var now := NowFields(t, index);
      && |now| == 10 && now[0] == "now"
      && now[6..9] == [CleanText(t.title), CleanText(t.artist), CleanText(t.vendor)]
      && now[9] == JoinWith(CommentTexts(CommentsOf(t)), ',')
  {}

  /** Of all tracks' indices, the one played is nearest to the one asked for. */
  lemma NearestIndex(current: int, limit: nat, k: nat)
    requires k < limit
    ensures NormalizeIndex(current, limit) < limit
    ensures Distance(NormalizeIndex(current, limit), current) <= Distance(k, current)
  {}

  lemma LastRecord(tracks: seq<Track>, current: int)
    requires tracks != []
    ensures var idx := NormalizeIndex(current, |tracks|);
      && |Records(tracks, current)| == |tracks| + 2
      && Records(tracks, current)[|tracks| + 1] == NowFields(tracks[idx], idx)
  {}

  /** The last record describes the track at the index nearest to the one asked for. */
  lemma NowRecordReadsBack(tracks: seq<Track>, current: int) returns (idx: nat)
    requires tracks != []
    ensures idx < |tracks| && forall k :: 0 <= k < |tracks| ==> Distance(idx, current) <= Distance(k, current)
    ensures |Read(Lines(Records(tracks, current)))| == |tracks| + 2
    ensures Describes(Read(Lines(Records(tracks, current)))[|tracks| + 1], tracks[idx], idx)
  {
    idx := NormalizeIndex(current, |tracks|);
    forall k | 0 <= k < |tracks| ensures Distance(idx, current) <= Distance(k, current) {
      NearestIndex(current, |tracks|, k);
    }
    MessageReadsBack(tracks, current);
    NowDescribes(tracks[idx], idx);
    LastRecord(tracks, current);
  }

  /** The comments a track's tags hold, none without tags. */
  function CommentsOf(t: Track): seq<Comment> {
    if t.tags.Some? then t.tags.value.comments else []
  }

  /** A comment that stands in the list of comments as it is: no comma in it, and its key ends at the first "=". */
  predicate Listable(c: Comment) {
    Lacks(c.key, ',') && Lacks(c.value, ',') && Lacks(c.key, '=')
  }

  lemma CleanKeeps(v: string, c: char)
    requires Lacks(v, c) && c != ' ' && c != '/'
    ensures Lacks(CleanText(v), c)
  {
    CleanLaw(v);
  }

  /** Cut at its first "=", a comment's text gives its cleaned key and value. */
  lemma CommentReadsBack(c: Comment)
    requires Listable(c)
    ensures Lacks(CommentText(c), ',')
    ensures var text, n := CommentText(c), |c.key|;
      && n < |text| && text[n] == '=' && Lacks(text[..n], '=')
      && text[..n] == CleanText(c.key) && text[n + 1..] == CleanText(c.value)
  {
    CleanLaw(c.key);
    CleanKeeps(c.key, ',');
    CleanKeeps(c.value, ',');
    CleanKeeps(c.key, '=');
    var text := CommentText(c);
    assert text[..|c.key|] == CleanText(c.key);
  }

  /** The last field of such a record lists the comments: cut at commas, one text for each, in order. */
  lemma CommentsReadBack(now: seq<string>, t: Track, index: nat)
    requires Describes(now, t, index) && CommentsOf(t) != []
    requires forall i :: 0 <= i < |CommentsOf(t)| ==> Listable(CommentsOf(t)[i])
    ensures |Split(now[9], ',')| == |CommentsOf(t)|
    ensures forall i :: 0 <= i < |CommentsOf(t)| ==> Split(now[9], ',')[i] == CommentText(CommentsOf(t)[i])
  {
    var texts := CommentTexts(CommentsOf(t));
    forall i | 0 <= i < |texts| ensures Lacks(texts[i], ',') {
      CommentReadsBack(CommentsOf(t)[i]);
    }
    SplitJoined(texts, ',');
  }
}
