/**
 Demultiplexing a multi-track Ogg file: pages of several logical streams, interleaved in
 any way, are sorted into tracks. `TrackOf` builds one track from its own stream alone.
 */
module Playlist {
  import opened Wrappers
  import opened Text

  datatype Header = Header(channels: nat, sampleRate: nat)

  datatype Comment = Comment(key: string, value: string)

  datatype Tags = Tags(vendor: string, comments: seq<Comment>)

  /** A header page carries what parsing it gave, if it parsed. */
  datatype Kind = Head(header: Option<Header>) | TagPage(tags: Option<Tags>) | Data

  datatype Page = Page(serial: nat, kind: Kind, granule: nat, payload: seq<int>)

  datatype Buffered = Buffered(payload: seq<int>, duration: nat, granule: nat)

  datatype Track = Track(
    serial: nat,
    header: Option<Header>,
    tags: Option<Tags>,
    title: string,
    artist: string,
    vendor: string,
    pages: seq<Buffered>,
    runtime: nat
  )

  /** What the code takes from elsewhere: how long a page lasts, and lower-casing. */
  datatype Library = Library(duration: (Header, nat, nat) -> nat, lower: string -> string)

  function NewTrack(serial: nat): Track {
    Track(serial, None, None, "serial-" + Decimal(serial), "", "", [], 0)
  }

  // ----- one page into its track

  function ApplyComments(t: Track, comments: seq<Comment>, lib: Library): Track {
    if comments == [] then t
    else
      var before := ApplyComments(t, comments[..|comments| - 1], lib);
      var c := comments[|comments| - 1];
      if lib.lower(c.key) == "title" then before.(title := c.value)
      else if lib.lower(c.key) == "artist" then before.(artist := c.value)
      else before
  }

  function ApplyTags(t: Track, tags: Tags, lib: Library): Track {
    var named := ApplyComments(t, tags.comments, lib);
    named.(vendor := if named.vendor == "" then tags.vendor else named.vendor, tags := Some(tags))
  }

  /** A track and the granule of its last audio page. */
  function AddPage(t: Track, last: nat, p: Page, lib: Library): (Track, nat) {
    match p.kind
    case Head(Some(h)) => (t.(header := Some(h)), last)
    case Head(None) => (t, last)
    case TagPage(Some(tags)) => (ApplyTags(t, tags, lib), last)
    case TagPage(None) => (t, last)
    case Data =>
      if t.header == None then (t, last)
      else
        var d := lib.duration(t.header.value, p.granule, last);
        (t.(pages := t.pages + [Buffered(p.payload, d, p.granule)], runtime := t.runtime + d), p.granule)
  }

  /** The track one stream makes on its own. */
  function TrackOf(serial: nat, stream: seq<Page>, lib: Library): (Track, nat) {
    if stream == [] then (NewTrack(serial), 0)
    else
      var (t, last) := TrackOf(serial, stream[..|stream| - 1], lib);
      AddPage(t, last, stream[|stream| - 1], lib)
  }

  // ----- what a file holds

  /** The pages of one logical stream, in file order. */
  function StreamOf(pages: seq<Page>, serial: nat): seq<Page> {
    if pages == [] then []
    else
      var n := |pages| - 1;
      StreamOf(pages[..n], serial) + if pages[n].serial == serial then [pages[n]] else []
  }

  /** Serials in order of their first page. */
  function Serials(pages: seq<Page>): seq<nat> {
    if pages == [] then []
    else
      var n := |pages| - 1;
      var before := Serials(pages[..n]);
      if pages[n].serial in before then before else before + [pages[n].serial]
  }

  predicate HasHead(stream: seq<Page>) {
    exists i :: 0 <= i < |stream| && stream[i].kind.Head? && stream[i].kind.header.Some?
  }

  /** Where the audio pages of a stream are: data pages after its first header that parsed. */
  function Audio(stream: seq<Page>): (at: seq<nat>)
    ensures forall k :: 0 <= k < |at| ==> at[k] < |stream|
  {
    if stream == [] then []
    else
      var n := |stream| - 1;
      Audio(stream[..n]) + if stream[n].kind.Data? && HasHead(stream[..n]) then [n] else []
  }

  /** They are all there, in file order. */
  lemma {:induction false} AudioLaw(stream: seq<Page>)
    ensures forall i :: i in Audio(stream) <==> 0 <= i < |stream| && stream[i].kind.Data? && HasHead(stream[..i])
    ensures forall j, k :: 0 <= j < k < |Audio(stream)| ==> Audio(stream)[j] < Audio(stream)[k]
  {
    if stream != [] {
      var n := |stream| - 1;
      AudioLaw(stream[..n]);
      assert forall i :: 0 <= i < n ==> stream[..n][..i] == stream[..i] && stream[..n][i] == stream[i];
    }
  }

  /** The header in force: the last one that parsed. */
  function LatestHead(stream: seq<Page>): Option<Header> {
    if stream == [] then None
    else
      match stream[|stream| - 1].kind
      case Head(Some(h)) => Some(h)
      case _ => LatestHead(stream[..|stream| - 1])
  }

  /** Page `k` of a track: what it carries, and how long it lasts under the header in force since the page before it. */
  predicate Holds(stream: seq<Page>, pages: seq<Buffered>, k: nat, lib: Library)
    requires k < |pages| == |Audio(stream)|
  {
    var i := Audio(stream)[k];
    var page, head := stream[i], LatestHead(stream[..i]);
    && head.Some?
    && pages[k].payload == page.payload && pages[k].granule == page.granule
    && pages[k].duration == lib.duration(head.value, page.granule, if k == 0 then 0 else pages[k - 1].granule)
  }

  function TotalDuration(pages: seq<Buffered>): nat {
    if pages == [] then 0 else TotalDuration(pages[..|pages| - 1]) + pages[|pages| - 1].duration
  }

  lemma {:induction false} CommentsKeep(t: Track, comments: seq<Comment>, lib: Library)
    ensures var r := ApplyComments(t, comments, lib);
      r == t.(title := r.title, artist := r.artist)
  {
    if comments != [] {
      CommentsKeep(t, comments[..|comments| - 1], lib);
    }
  }

  lemma HasHeadSnoc(stream: seq<Page>)
    requires stream != []
    ensures var n := |stream| - 1;
      HasHead(stream) <==> HasHead(stream[..n]) || (stream[n].kind.Head? && stream[n].kind.header.Some?)
  {
    var n := |stream| - 1;
    assert forall i :: 0 <= i < n ==> stream[..n][i] == stream[i];
  }

  lemma HoldsStill(stream: seq<Page>, p: Page, pages: seq<Buffered>, more: seq<Buffered>, k: nat, lib: Library)
    requires k < |pages| == |Audio(stream)| && pages <= more && |more| == |Audio(stream + [p])|
    requires Holds(stream, pages, k, lib)
    ensures Holds(stream + [p], more, k, lib)
  {
    var all, i := stream + [p], Audio(stream)[k];
    assert all[..|stream|] == stream && all[..i] == stream[..i];
  }

  lemma HoldsNow(stream: seq<Page>, p: Page, pages: seq<Buffered>, last: nat, lib: Library)
    requires |pages| == |Audio(stream)| && p.kind.Data? && HasHead(stream) && LatestHead(stream).Some?
    requires last == if pages == [] then 0 else pages[|pages| - 1].granule
    ensures var d := lib.duration(LatestHead(stream).value, p.granule, last);
      var more := pages + [Buffered(p.payload, d, p.granule)];
      |more| == |Audio(stream + [p])| && Holds(stream + [p], more, |pages|, lib)
  {
    assert (stream + [p])[..|stream|] == stream;
  }

  /** What a track and its last granule say of the stream. */
  predicate Tells(stream: seq<Page>, t: Track, last: nat, lib: Library) {
    && t.header == LatestHead(stream) && (t.header.Some? <==> HasHead(stream))
    && |t.pages| == |Audio(stream)| && (forall k :: 0 <= k < |t.pages| ==> Holds(stream, t.pages, k, lib))
    && t.runtime == TotalDuration(t.pages)
    && last == if t.pages == [] then 0 else t.pages[|t.pages| - 1].granule
  }

  /** A page that adds no audio leaves the pages as they are. */
  lemma NoAudioAdded(stream: seq<Page>, p: Page, t: Track, last: nat, lib: Library)
    requires Tells(stream, t, last, lib) && !(p.kind.Data? && HasHead(stream))
    ensures |t.pages| == |Audio(stream + [p])|
    ensures forall k :: 0 <= k < |t.pages| ==> Holds(stream + [p], t.pages, k, lib)
  {
    assert (stream + [p])[..|stream|] == stream;
    forall k | 0 <= k < |t.pages| ensures Holds(stream + [p], t.pages, k, lib) {
      HoldsStill(stream, p, t.pages, t.pages, k, lib);
    }
  }

  lemma HeadAdded(stream: seq<Page>, p: Page)
    ensures LatestHead(stream + [p]) ==
      if p.kind.Head? && p.kind.header.Some? then p.kind.header else LatestHead(stream)
    ensures HasHead(stream + [p]) <==> HasHead(stream) || (p.kind.Head? && p.kind.header.Some?)
  {
    assert (stream + [p])[..|stream|] == stream;
    HasHeadSnoc(stream + [p]);
  }

  lemma DataAdded(stream: seq<Page>, p: Page, t: Track, last: nat, lib: Library)
    requires Tells(stream, t, last, lib) && p.kind.Data? && t.header.Some?
    ensures var (r, next) := AddPage(t, last, p, lib); Tells(stream + [p], r, next, lib)
  {
    var r := AddPage(t, last, p, lib).0;
    HeadAdded(stream, p);
    HoldsNow(stream, p, t.pages, last, lib);
    assert r.pages[..|t.pages|] == t.pages;
    forall k | 0 <= k < |t.pages| ensures Holds(stream + [p], r.pages, k, lib) {
      HoldsStill(stream, p, t.pages, r.pages, k, lib);
    }
  }

  lemma PageAdded(stream: seq<Page>, p: Page, t: Track, last: nat, lib: Library)
    requires Tells(stream, t, last, lib)
    ensures var (r, next) := AddPage(t, last, p, lib); Tells(stream + [p], r, next, lib) && r.serial == t.serial
  {
    if p.kind.Data? && t.header.Some? {
      DataAdded(stream, p, t, last, lib);
    } else {
      HeadAdded(stream, p);
      NoAudioAdded(stream, p, t, last, lib);
      if p.kind.TagPage? && p.kind.tags.Some? { CommentsKeep(t, p.kind.tags.value.comments, lib); }
    }
  }

  /**
   A track holds exactly its stream's audio pages, in order, each lasting as long as the
   header in force says since the page before it, and runs for the sum of their durations.
   */
  lemma {:induction false} TrackHolds(serial: nat, stream: seq<Page>, lib: Library)
    ensures var (t, last) := TrackOf(serial, stream, lib); t.serial == serial && Tells(stream, t, last, lib)
  {
    if stream != [] {
      var n := |stream| - 1;
      TrackHolds(serial, stream[..n], lib);
      var (t, last) := TrackOf(serial, stream[..n], lib);
      PageAdded(stream[..n], stream[n], t, last, lib);
      assert stream == stream[..n] + [stream[n]];
    }
  }

  // ----- the result

  /** Tracks without a title of their own are numbered. */
  function Name(t: Track, index: nat): Track {
    if t.title == "" || "serial-" <= t.title then t.(title := "Track " + Decimal(index + 1)) else t
  }

  /** The tracks with pages, in the order of `serials`. */
  function Collect(serials: seq<nat>, pages: seq<Page>, lib: Library): seq<Track> {
    if serials == [] then []
    else
      var n := |serials| - 1;
      var before := Collect(serials[..n], pages, lib);
      var t := TrackOf(serials[n], StreamOf(pages, serials[n]), lib).0;
      if t.pages == [] then before else before + [Name(t, |before|)]
  }

  /** The serials whose stream has audio pages. */
  function Audible(serials: seq<nat>, pages: seq<Page>): seq<nat> {
    if serials == [] then []
    else
      var n := |serials| - 1;
      Audible(serials[..n], pages) + if Audio(StreamOf(pages, serials[n])) != [] then [serials[n]] else []
  }

  /** What `Collect` makes of the stream at `k` of the audible ones. */
  predicate Collected(tracks: seq<Track>, audible: seq<nat>, pages: seq<Page>, lib: Library) {
    |tracks| == |audible| &&
    forall k :: 0 <= k < |tracks| ==> tracks[k] == Name(TrackOf(audible[k], StreamOf(pages, audible[k]), lib).0, k)
  }

  /** One track per audible stream, in order of first page, holding that stream's audio and nothing else. */
  lemma {:induction false} CollectLaw(serials: seq<nat>, pages: seq<Page>, lib: Library)
    ensures Collected(Collect(serials, pages, lib), Audible(serials, pages), pages, lib)
  {
    if serials != [] {
      var n := |serials| - 1;
      CollectLaw(serials[..n], pages, lib);
      HasPages(serials[n], StreamOf(pages, serials[n]), lib);
    }
  }

  lemma HasPages(serial: nat, stream: seq<Page>, lib: Library)
    ensures TrackOf(serial, stream, lib).0.pages == [] <==> Audio(stream) == []
  {
    TrackHolds(serial, stream, lib);
  }

  /** A track of the playlist depends on its own stream only, however the others are interleaved with it. */
  lemma InterleavingIsInvisible(pages: seq<Page>, other: seq<Page>, lib: Library)
    requires Serials(pages) == Serials(other)
    requires forall s :: s in Serials(pages) ==> StreamOf(pages, s) == StreamOf(other, s)
    ensures Collect(Serials(pages), pages, lib) == Collect(Serials(other), other, lib)
  {
    SameStreams(Serials(pages), pages, other, lib);
  }

  lemma {:induction false} SameStreams(serials: seq<nat>, pages: seq<Page>, other: seq<Page>, lib: Library)
    requires forall s :: s in serials ==> StreamOf(pages, s) == StreamOf(other, s)
    ensures Collect(serials, pages, lib) == Collect(serials, other, lib)
  {
    if serials != [] {
      SameStreams(serials[..|serials| - 1], pages, other, lib);
    }
  }

  /** Each stream in the file is listed once. */
  lemma {:induction false} SerialsLaw(pages: seq<Page>, serial: nat)
    ensures serial in Serials(pages) <==> StreamOf(pages, serial) != []
    ensures forall i, j :: 0 <= i < j < |Serials(pages)| ==> Serials(pages)[i] != Serials(pages)[j]
  {
    if pages != [] {
      SerialsLaw(pages[..|pages| - 1], serial);
    }
  }

  /** Page `a` of one stream stands before every page of another. */
  ghost predicate Precedes(pages: seq<Page>, serial: nat, other: nat) {
    exists a :: 0 <= a < |pages| && pages[a].serial == serial && AllAfter(pages, a, other)
  }

  predicate AllAfter(pages: seq<Page>, a: nat, serial: nat) {
    forall b :: 0 <= b < |pages| && pages[b].serial == serial ==> a < b
  }

  lemma {:induction false} Listed(pages: seq<Page>, serial: nat)
    ensures serial in Serials(pages) <==> exists a :: 0 <= a < |pages| && pages[a].serial == serial
  {
    if pages != [] {
      var n := |pages| - 1;
      Listed(pages[..n], serial);
      assert forall a :: 0 <= a < n ==> pages[..n][a] == pages[a];
      if serial in Serials(pages[..n]) {
        var a :| 0 <= a < n && pages[..n][a].serial == serial;
        assert pages[a].serial == serial;
      }
    }
  }

  /** Streams are listed in the order of their first pages. */
  lemma {:induction false} SerialsOrder(pages: seq<Page>, i: nat, j: nat)
    requires i < j < |Serials(pages)|
    ensures Precedes(pages, Serials(pages)[i], Serials(pages)[j])
  {
    var n := |pages| - 1;
    var before, s, t := Serials(pages[..n]), Serials(pages)[i], Serials(pages)[j];
    if j < |before| {
      SerialsOrder(pages[..n], i, j);
      var a :| 0 <= a < n && pages[..n][a].serial == s && AllAfter(pages[..n], a, t);
      forall b | 0 <= b < |pages| && pages[b].serial == t ensures a < b {
        if b < n { assert pages[..n][b] == pages[b]; }
      }
      assert pages[a].serial == s && AllAfter(pages, a, t);
    } else {
      Listed(pages[..n], s);
      Listed(pages[..n], t);
      var a :| 0 <= a < n && pages[..n][a].serial == s;
      assert forall b :: 0 <= b < n ==> pages[b] == pages[..n][b] && pages[b].serial != t;
      assert pages[a].serial == s && AllAfter(pages, a, t);
    }
  }

  lemma {:induction false} AudibleOrder(serials: seq<nat>, pages: seq<Page>, i: nat, j: nat) returns (k: nat, l: nat)
    requires i < j < |Audible(serials, pages)|
    ensures k < l < |serials| && serials[k] == Audible(serials, pages)[i] && serials[l] == Audible(serials, pages)[j]
  {
    var n := |serials| - 1;
    if j < |Audible(serials[..n], pages)| {
      k, l := AudibleOrder(serials[..n], pages, i, j);
    } else {
      k := AudibleAt(serials[..n], pages, i);
      l := n;
    }
  }

  lemma {:induction false} AudibleAt(serials: seq<nat>, pages: seq<Page>, i: nat) returns (k: nat)
    requires i < |Audible(serials, pages)|
    ensures k < |serials| && serials[k] == Audible(serials, pages)[i]
  {
    var n := |serials| - 1;
    if i < |Audible(serials[..n], pages)| {
      k := AudibleAt(serials[..n], pages, i);
    } else {
      k := n;
    }
  }

  /** The tracks of a playlist come in the order of the first pages of their streams. */
  lemma TracksInOrder(pages: seq<Page>, lib: Library, i: nat, j: nat)
    requires i < j < |Collect(Serials(pages), pages, lib)|
    ensures var tracks := Collect(Serials(pages), pages, lib);
      Precedes(pages, tracks[i].serial, tracks[j].serial)
  {
    var serials := Serials(pages);
    var audible := Audible(serials, pages);
    CollectLaw(serials, pages, lib);
    var k, l := AudibleOrder(serials, pages, i, j);
    SerialsOrder(pages, k, l);
    TrackHolds(audible[i], StreamOf(pages, audible[i]), lib);
    TrackHolds(audible[j], StreamOf(pages, audible[j]), lib);
  }

  // ----- the demultiplexing loop

  /** The loop's maps and order list describe every stream seen so far. */
  ghost predicate Sorted(
    pages: seq<Page>, tracks: map<nat, Track>, order: seq<nat>, last: map<nat, nat>, lib: Library)
  {
    && order == Serials(pages)
    && (forall s :: s in tracks <==> s in order)
    && (forall s :: s in last ==> s in tracks)
    && forall s :: s in tracks ==> Stands(pages, s, tracks[s], last, lib)
  }

  lemma {:induction false} Unseen(pages: seq<Page>, serial: nat)
    requires serial !in Serials(pages)
    ensures StreamOf(pages, serial) == []
  {
    if pages != [] {
      Unseen(pages[..|pages| - 1], serial);
    }
  }

  lemma StreamSnoc(pages: seq<Page>, p: Page, serial: nat)
    ensures StreamOf(pages + [p], serial) ==
      if p.serial == serial then StreamOf(pages, serial) + [p] else StreamOf(pages, serial)
  {
    assert (pages + [p])[..|pages|] == pages;
  }

  lemma TrackSnoc(serial: nat, stream: seq<Page>, p: Page, lib: Library)
    ensures TrackOf(serial, stream + [p], lib) ==
      AddPage(TrackOf(serial, stream, lib).0, TrackOf(serial, stream, lib).1, p, lib)
  {
    assert (stream + [p])[..|stream|] == stream;
  }

  lemma OtherTrack(pages: seq<Page>, p: Page, serial: nat, lib: Library)
    requires p.serial != serial
    ensures TrackOf(serial, StreamOf(pages + [p], serial), lib) == TrackOf(serial, StreamOf(pages, serial), lib)
  {
    StreamSnoc(pages, p, serial);
  }

  lemma OwnTrack(pages: seq<Page>, p: Page, lib: Library)
    ensures var (t, last) := TrackOf(p.serial, StreamOf(pages, p.serial), lib);
      TrackOf(p.serial, StreamOf(pages + [p], p.serial), lib) == AddPage(t, last, p, lib)
  {
    StreamSnoc(pages, p, p.serial);
    TrackSnoc(p.serial, StreamOf(pages, p.serial), p, lib);
  }

  lemma SerialsSnoc(pages: seq<Page>, p: Page)
    ensures Serials(pages + [p]) == if p.serial in Serials(pages) then Serials(pages) else Serials(pages) + [p.serial]
  {
    assert (pages + [p])[..|pages|] == pages;
  }

  /** Makes sure the page's stream has a track. */
  method EnsureTrack(
    tracks: map<nat, Track>, order: seq<nat>, serial: nat,
    ghost last: map<nat, nat>, ghost pages: seq<Page>, ghost lib: Library)
    returns (tracks': map<nat, Track>, order': seq<nat>)
    requires Sorted(pages, tracks, order, last, lib)
    ensures order' == if serial in Serials(pages) then order else order + [serial]
    ensures forall s :: s in tracks' <==> s in order'
    ensures serial in tracks'
    ensures forall s :: s in tracks' ==> Stands(pages, s, tracks'[s], last, lib)
  {
    tracks', order' := tracks, order;
    if serial !in tracks' {
      tracks' := tracks'[serial := NewTrack(serial)];
      order' := order' + [serial];
      Unseen(pages, serial);
    }
  }

  /** The last granule moves with each audio page and stays otherwise. */
  lemma LastGranule(t: Track, last: nat, p: Page, lib: Library)
    ensures AddPage(t, last, p, lib).1 == if p.kind.Data? && t.header.Some? then p.granule else last
  {}

  /** Where each stream stands after the pages: its track and last granule. */
  ghost predicate Stands(pages: seq<Page>, s: nat, track: Track, last: map<nat, nat>, lib: Library) {
    (track, if s in last then last[s] else 0) == TrackOf(s, StreamOf(pages, s), lib)
  }

  lemma OthersStand(
    pages: seq<Page>, p: Page, s: nat, track: Track, last: map<nat, nat>, last': map<nat, nat>, lib: Library)
    requires s != p.serial && Stands(pages, s, track, last, lib)
    requires (if s in last' then last'[s] else 0) == (if s in last then last[s] else 0)
    ensures Stands(pages + [p], s, track, last', lib)
  {
    OtherTrack(pages, p, s, lib);
  }

  lemma OwnStands(pages: seq<Page>, p: Page, track: Track, last: map<nat, nat>, lib: Library)
    requires Stands(pages, p.serial, track, last, lib)
    ensures
      var before := if p.serial in last then last[p.serial] else 0;
      var last' := if p.kind.Data? && track.header.Some? then last[p.serial := p.granule] else last;
      Stands(pages + [p], p.serial, AddPage(track, before, p, lib).0, last', lib)
  {
    OwnTrack(pages, p, lib);
    LastGranule(track, if p.serial in last then last[p.serial] else 0, p, lib);
  }

  /** One turn of the loop: the page goes into its own track and leaves the others alone. */
  method AddToTracks(
    tracks: map<nat, Track>, order: seq<nat>, last: map<nat, nat>, p: Page, lib: Library, ghost pages: seq<Page>)
    returns (tracks': map<nat, Track>, order': seq<nat>, last': map<nat, nat>)
    requires Sorted(pages, tracks, order, last, lib)
    ensures Sorted(pages + [p], tracks', order', last', lib)
  {
    var known;
    known, order' := EnsureTrack(tracks, order, p.serial, last, pages, lib);
    var track := known[p.serial];
    var before := if p.serial in last then last[p.serial] else 0;
    last' := if p.kind.Data? && track.header.Some? then last[p.serial := p.granule] else last;
    tracks' := known[p.serial := AddPage(track, before, p, lib).0];
    SerialsSnoc(pages, p);
    OwnStands(pages, p, track, last, lib);
    forall s | s in tracks' ensures Stands(pages + [p], s, tracks'[s], last', lib) {
      if s != p.serial {
        OthersStand(pages, p, s, known[s], last, last', lib);
      }
    }
  }

  method ReadTracks(pages: seq<Page>, lib: Library)
    returns (tracks: map<nat, Track>, order: seq<nat>, last: map<nat, nat>)
    ensures Sorted(pages, tracks, order, last, lib)
  {
    tracks, order, last := map[], [], map[];
    for k := 0 to |pages|
      invariant Sorted(pages[..k], tracks, order, last, lib)
    {
      assert pages[..k] + [pages[k]] == pages[..k + 1];
      tracks, order, last := AddToTracks(tracks, order, last, pages[k], lib, pages[..k]);
    }
    assert pages[..|pages|] == pages;
  }

  method ParsePlaylist(pages: seq<Page>, endsCleanly: bool, lib: Library) returns (r: Result<seq<Track>>)
    ensures r == if endsCleanly then Success(Collect(Serials(pages), pages, lib)) else Failure
  {
    var tracks, order, last := ReadTracks(pages, lib);
    if !endsCleanly {
      return Failure;
    }
    forall s | s in order ensures s in tracks && tracks[s] == TrackOf(s, StreamOf(pages, s), lib).0 {
      assert Stands(pages, s, tracks[s], last, lib);
    }
    var ordered := OrderTracks(tracks, order, pages, lib);
    return Success(ordered);
  }

  /** The tracks with pages, named, in the order their streams began. */
  method OrderTracks(tracks: map<nat, Track>, order: seq<nat>, ghost pages: seq<Page>, ghost lib: Library)
    returns (ordered: seq<Track>)
    requires forall s :: s in order ==> s in tracks && tracks[s] == TrackOf(s, StreamOf(pages, s), lib).0
    ensures ordered == Collect(order, pages, lib)
  {
    ordered := [];
    for k := 0 to |order|
      invariant ordered == Collect(order[..k], pages, lib)
    {
      assert order[..k + 1][..k] == order[..k];
      var track := tracks[order[k]];
      if track.pages != [] {
        ordered := ordered + [Name(track, |ordered|)];
      }
    }
    assert order[..|order|] == order;
  }
}
