/**
 What a playlist calls its tracks: titles, artists and vendors as the tag pages of each
 stream give them, and numbers for the tracks that are left without a title.
 */
module PlaylistNames {
  import opened Sequences
  import opened Wrappers
  import opened Text
  import opened Playlist

  function TagsIn(p: Page): seq<Tags> {
    if p.kind.TagPage? && p.kind.tags.Some? then [p.kind.tags.value] else []
  }

  /** The tags of the tag pages that parsed, in order. */
  function ParsedTags(stream: seq<Page>): seq<Tags> {
    if stream == [] then [] else ParsedTags(stream[..|stream| - 1]) + TagsIn(stream[|stream| - 1])
  }

  function AllComments(tags: seq<Tags>): seq<Comment> {
    if tags == [] then [] else AllComments(tags[..|tags| - 1]) + tags[|tags| - 1].comments
  }

  predicate Keyed(c: Comment, key: string, lib: Library) {
    lib.lower(c.key) == key
  }

  /** The last of the comments with this key, in any case, is number `k`. */
  predicate LastKeyed(comments: seq<Comment>, key: string, lib: Library, k: int) {
    && 0 <= k < |comments| && Keyed(comments[k], key, lib)
    && forall j :: k < j < |comments| ==> !Keyed(comments[j], key, lib)
  }

  /** `v` is the value of the last comment with this key, or `default` if there is none. */
  ghost predicate Says(comments: seq<Comment>, key: string, lib: Library, default: string, v: string) {
    || (exists k :: LastKeyed(comments, key, lib, k) && v == comments[k].value)
    || (v == default && forall j :: 0 <= j < |comments| ==> !Keyed(comments[j], key, lib))
  }

  lemma SaysMore(a: seq<Comment>, b: seq<Comment>, key: string, lib: Library, default: string, v: string, w: string)
    requires Says(a, key, lib, default, v) && Says(b, key, lib, v, w)
    ensures Says(a + b, key, lib, default, w)
  {
    var all := a + b;
    if k :| LastKeyed(b, key, lib, k) && w == b[k].value {
      assert all[|a| + k] == b[k];
      forall j | |a| + k < j < |all| ensures !Keyed(all[j], key, lib) {
        assert all[j] == b[j - |a|];
      }
      assert LastKeyed(all, key, lib, |a| + k);
    } else if k :| LastKeyed(a, key, lib, k) && v == a[k].value {
      forall j | k < j < |all| ensures !Keyed(all[j], key, lib) {
        assert all[j] == if j < |a| then a[j] else b[j - |a|];
      }
      assert all[k] == a[k] && LastKeyed(all, key, lib, k);
    }
  }

  lemma SaysOne(c: Comment, key: string, lib: Library, default: string)
    ensures Says([c], key, lib, default, if Keyed(c, key, lib) then c.value else default)
  {
    if Keyed(c, key, lib) {
      assert LastKeyed([c], key, lib, 0);
    }
  }

  /** The comments of one tag page set the title and the artist. */
  lemma {:induction false} CommentsSay(t: Track, comments: seq<Comment>, lib: Library)
    ensures var r := ApplyComments(t, comments, lib);
      Says(comments, "title", lib, t.title, r.title) && Says(comments, "artist", lib, t.artist, r.artist)
  {
    if comments != [] {
      var n := |comments| - 1;
      var front, c := comments[..n], comments[n];
      var before, r := ApplyComments(t, front, lib), ApplyComments(t, comments, lib);
      CommentsSay(t, front, lib);
      SaysOne(c, "title", lib, before.title);
      SaysOne(c, "artist", lib, before.artist);
      SaysMore(front, [c], "title", lib, t.title, before.title, r.title);
      SaysMore(front, [c], "artist", lib, t.artist, before.artist, r.artist);
      SplitLast(comments);
    }
  }

  /** `v` is the first vendor named, or empty if none is. */
  ghost predicate FirstVendor(tags: seq<Tags>, v: string) {
    if v == "" then forall k :: 0 <= k < |tags| ==> tags[k].vendor == ""
    else exists k :: FirstNamed(tags, k) && tags[k].vendor == v
  }

  predicate FirstNamed(tags: seq<Tags>, k: int) {
    0 <= k < |tags| && tags[k].vendor != "" && forall j :: 0 <= j < k ==> tags[j].vendor == ""
  }

  lemma VendorMore(tags: seq<Tags>, more: Tags, v: string)
    requires FirstVendor(tags, v)
    ensures FirstVendor(tags + [more], if v == "" then more.vendor else v)
  {
    var all := tags + [more];
    if v == "" {
      if more.vendor != "" {
        assert FirstNamed(all, |tags|);
      }
    } else {
      var k :| FirstNamed(tags, k) && tags[k].vendor == v;
      assert FirstNamed(all, k);
    }
  }

  /** What a track says of its stream's tag pages. */
  ghost predicate NamedBy(serial: nat, tags: seq<Tags>, t: Track, lib: Library) {
    && Says(AllComments(tags), "title", lib, "serial-" + Decimal(serial), t.title)
    && Says(AllComments(tags), "artist", lib, "", t.artist)
    && FirstVendor(tags, t.vendor)
    && t.tags == if tags == [] then None else Some(tags[|tags| - 1])
  }

  lemma TagsAdded(serial: nat, tags: seq<Tags>, more: Tags, t: Track, lib: Library)
    requires NamedBy(serial, tags, t, lib)
    ensures NamedBy(serial, tags + [more], ApplyTags(t, more, lib), lib)
  {
    var r := ApplyComments(t, more.comments, lib);
    CommentsSay(t, more.comments, lib);
    CommentsKeep(t, more.comments, lib);
    VendorMore(tags, more, t.vendor);
    assert (tags + [more])[..|tags|] == tags;
    SaysMore(AllComments(tags), more.comments, "title", lib, "serial-" + Decimal(serial), t.title, r.title);
    SaysMore(AllComments(tags), more.comments, "artist", lib, "", t.artist, r.artist);
  }

  lemma NewNamed(serial: nat, lib: Library)
    ensures NamedBy(serial, [], NewTrack(serial), lib)
  {}

  /** A page names what its tags say if they parsed, and nothing otherwise. */
  lemma PageNamed(serial: nat, tags: seq<Tags>, t: Track, last: nat, p: Page, lib: Library)
    requires NamedBy(serial, tags, t, lib)
    ensures NamedBy(serial, tags + TagsIn(p), AddPage(t, last, p, lib).0, lib)
  {
    if TagsIn(p) == [] {
      Nothing(tags);
    } else {
      TagsAdded(serial, tags, p.kind.tags.value, t, lib);
    }
  }

  /**
   The title of a track is the last one any of its stream's tag pages gives, whatever the
   case of the key, and one made from its serial if none does; the artist likewise, empty
   if none. The vendor is the first one named, and the tags are those of the last page.
   */
  lemma {:induction false} TrackNamed(serial: nat, stream: seq<Page>, lib: Library)
    ensures NamedBy(serial, ParsedTags(stream), TrackOf(serial, stream, lib).0, lib)
  {
    if stream == [] {
      NewNamed(serial, lib);
    } else {
      var n := |stream| - 1;
      TrackNamed(serial, stream[..n], lib);
      var (t, last) := TrackOf(serial, stream[..n], lib);
      PageNamed(serial, ParsedTags(stream[..n]), t, last, stream[n], lib);
    }
  }

  /** A title that has to be replaced by a number. */
  predicate Unnamed(title: string) {
    title == "" || "serial-" <= title
  }

  /**
   Track `k` of a playlist keeps the title, artist, vendor and tags of its stream, except
   that a title that is empty or looks made up becomes the track's number in the playlist.
   */
  lemma PlaylistNamed(pages: seq<Page>, lib: Library, k: nat) returns (own: Track)
    requires k < |Collect(Serials(pages), pages, lib)|
    ensures var t := Collect(Serials(pages), pages, lib)[k];
      && NamedBy(t.serial, ParsedTags(StreamOf(pages, t.serial)), own, lib)
      && t.title == (if Unnamed(own.title) then "Track " + Decimal(k + 1) else own.title)
      && t == own.(title := t.title)
  {
    var audible := Audible(Serials(pages), pages);
    CollectLaw(Serials(pages), pages, lib);
    own := TrackOf(audible[k], StreamOf(pages, audible[k]), lib).0;
    TrackHolds(audible[k], StreamOf(pages, audible[k]), lib);
    TrackNamed(audible[k], StreamOf(pages, audible[k]), lib);
  }
}
