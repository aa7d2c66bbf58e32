/** Playlist expansion: the flat resolver answer for a playlist is turned into
    watch-page locators, one per entry that carries an id
    (video_downloader_V4_HDR.py lines 36-42). The resolver call itself is not
    modelled; its answer is the input. */
module Playlist {
  import opened Wrappers

  const WatchPrefix: string := "https://www.youtube.com/watch?v="

  /** One entry of the flat playlist answer; only its `id` key is read, and
      `None` stands for an absent key or one holding null, which the
      expansion treats alike. */
  datatype Entry = Entry(id: Option<string>)

  /** The flat resolver answer. An absent `entries` key reads as the empty
      list; one holding null cannot be iterated. */
  datatype PlaylistInfo = PlaylistInfo(entries: Field<seq<Entry>>)

  /** An entry is kept when its id is present and non-empty. */
  predicate HasId(e: Entry) {
    Truthy(e.id)
  }

  function WatchUrl(id: string): string {
    WatchPrefix + id
  }

  /** Recovers the id from a watch-page locator; the inverse of `WatchUrl`. */
  function VideoIdOf(url: string): (r: Option<string>)
    ensures r.Some? ==> WatchUrl(r.value) == url
  {
    if |url| >= |WatchPrefix| && url[..|WatchPrefix|] == WatchPrefix
    then Some(url[|WatchPrefix|..])
    else None
  }

  /** One watch-page locator per entry whose id is present and non-empty,
      in entry order. */
  function ExpandEntries(entries: seq<Entry>): (r: seq<string>)
    ensures |r| <= |entries|
    ensures forall k :: 0 <= k < |r| ==> ProducedBy(entries, r[k])
    ensures forall e :: e in entries && HasId(e) ==> WatchUrl(e.id.value) in r
  {
    if |entries| == 0 then []
    else
      var rest := ExpandEntries(entries[1..]);
      var head := if HasId(entries[0]) then [WatchUrl(entries[0].id.value)] else [];
      assert forall k :: 0 <= k < |rest| ==> ProducedBy(entries, rest[k]) by {
        forall k | 0 <= k < |rest| ensures ProducedBy(entries, rest[k]) {
          var j :| 0 <= j < |entries[1..]| && HasId(entries[1..][j])
                   && rest[k] == WatchUrl(entries[1..][j].id.value);
          assert entries[j + 1] == entries[1..][j];
        }
      }
      head + rest
  }

  /** `url` is the locator of some entry of `entries` that has an id. */
  ghost predicate ProducedBy(entries: seq<Entry>, url: string) {
    exists j :: 0 <= j < |entries| && HasId(entries[j]) && url == WatchUrl(entries[j].id.value)
  }

  /** `get_playlist_video_links` after the resolver call: an absent entry
      list gives no locators, a null one raises TypeError in the
      comprehension, and a present one is expanded. */
  function PlaylistLinks(info: PlaylistInfo): (r: Result<seq<string>>)
    ensures r.Failure? <==> info.entries.Null?
    ensures info.entries.Absent? ==> r == Success([])
    ensures info.entries.Present? ==> r == Success(ExpandEntries(info.entries.value))
  {
    match info.entries.Lookup([])
    case None => Failure("TypeError: 'NoneType' object is not iterable")
    case Some(entries) => Success(ExpandEntries(entries))
  }

  /** Round trip: the id of a watch-page locator is the id it was built from. */
  lemma VideoIdRoundTrip(id: string)
    ensures VideoIdOf(WatchUrl(id)) == Some(id)
  {
  }

  /** Expansion respects resolver order: expanding two runs of entries one
      after the other yields the two expansions one after the other. */
  lemma {:induction false} ExpandConcat(a: seq<Entry>, b: seq<Entry>)
    ensures ExpandEntries(a + b) == ExpandEntries(a) + ExpandEntries(b)
  {
    if |a| == 0 {
      assert a + b == b;
    } else {
      assert (a + b)[0] == a[0];
      assert (a + b)[1..] == a[1..] + b;
      ExpandConcat(a[1..], b);
    }
  }

  /** A single entry expands to its locator when it has an id, else to nothing. */
  lemma ExpandSingle(e: Entry)
    ensures ExpandEntries([e]) == if HasId(e) then [WatchUrl(e.id.value)] else []
  {
  }

  /** Every produced locator carries a non-empty id after the watch prefix. */
  lemma ExpandedLocatorsCarryIds(entries: seq<Entry>)
    ensures forall k :: 0 <= k < |ExpandEntries(entries)| ==>
      Truthy(VideoIdOf(ExpandEntries(entries)[k]))
  {
  }

  /** Entries with ids "a1" and "a2" around one entry without an id expand to
      the two locators, in order. */
  lemma TwoEntryPlaylistScenario()
    ensures PlaylistLinks(PlaylistInfo(Present([Entry(Some("a1")), Entry(None), Entry(Some("a2"))])))
         == Success([WatchPrefix + "a1", WatchPrefix + "a2"])
  {
    var es := [Entry(Some("a1")), Entry(None), Entry(Some("a2"))];
    assert es == [es[0]] + [es[1]] + [es[2]];
    ExpandConcat([es[0]] + [es[1]], [es[2]]);
    ExpandConcat([es[0]], [es[1]]);
    ExpandSingle(es[0]);
    ExpandSingle(es[1]);
    ExpandSingle(es[2]);
    assert ExpandEntries(es) == [WatchUrl("a1"), WatchUrl("a2")];
    assert PlaylistLinks(PlaylistInfo(Present(es))) == Success(ExpandEntries(es));
  }
}
