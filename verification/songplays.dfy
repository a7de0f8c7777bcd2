/**
 * The fact side of `process_log_data`: the songplays projection, the two
 * catalog joins, the join with the time table and the songplay_id column.
 */
module SongPlays {
  import opened Values
  import opened Schema
  import opened Relational
  import opened LogData
  import Calendar

  /** The songplays `selectExpr`: the event columns the fact table keeps. There is no `level`. */
  datatype PlayRow = PlayRow(
    start_time: int,
    user_id: Nullable<string>,
    song: Nullable<string>,
    artist: Nullable<string>,
    session_id: Nullable<int>,
    location: Nullable<string>,
    user_agent: Nullable<string>)

  function PlayOf(te: TimedEvent): PlayRow
  {
    PlayRow(te.datetime, te.event.userId, te.event.song, te.event.artist,
            te.event.sessionId, te.event.location, te.event.userAgent)
  }

  function Plays(timed: seq<TimedEvent>): (plays: seq<PlayRow>)
    ensures |plays| == |timed|
    ensures forall i | 0 <= i < |timed| ::
      && plays[i].start_time == timed[i].datetime
      && plays[i].user_id == timed[i].event.userId
      && plays[i].song == timed[i].event.song
      && plays[i].artist == timed[i].event.artist
      && plays[i].session_id == timed[i].event.sessionId
      && plays[i].location == timed[i].event.location
      && plays[i].user_agent == timed[i].event.userAgent
    ensures forall i | 0 <= i < |timed| :: plays[i] == PlayOf(timed[i])
  {
    seq(|timed|, i requires 0 <= i < |timed| => PlayOf(timed[i]))
  }

  /** `select('song_id', 'title')` of one catalog record. */
  datatype SongKey = SongKey(song_id: Nullable<string>, title: Nullable<string>)

  /** `select('artist_id', 'artist_name')` of one catalog record. */
  datatype ArtistKey = ArtistKey(artist_id: Nullable<string>, artist_name: Nullable<string>)

  function SongKeys(catalog: seq<CatalogRecord>): (keys: seq<SongKey>)
    ensures |keys| == |catalog|
    ensures forall i | 0 <= i < |catalog| :: keys[i].song_id == catalog[i].song_id && keys[i].title == catalog[i].title
  {
    seq(|catalog|, i requires 0 <= i < |catalog| => SongKey(catalog[i].song_id, catalog[i].title))
  }

  function ArtistKeys(catalog: seq<CatalogRecord>): (keys: seq<ArtistKey>)
    ensures |keys| == |catalog|
    ensures forall i | 0 <= i < |catalog| :: keys[i].artist_id == catalog[i].artist_id && keys[i].artist_name == catalog[i].artist_name
  {
    seq(|catalog|, i requires 0 <= i < |catalog| => ArtistKey(catalog[i].artist_id, catalog[i].artist_name))
  }

  /** A play after the title join, with `song` and `title` dropped. */
  datatype SongMatched = SongMatched(
    start_time: int,
    user_id: Nullable<string>,
    artist: Nullable<string>,
    session_id: Nullable<int>,
    location: Nullable<string>,
    user_agent: Nullable<string>,
    song_id: Nullable<string>)

  /** A play after the artist-name join, with `artist` and `artist_name` dropped. */
  datatype CatalogMatched = CatalogMatched(
    start_time: int,
    user_id: Nullable<string>,
    session_id: Nullable<int>,
    location: Nullable<string>,
    user_agent: Nullable<string>,
    song_id: Nullable<string>,
    artist_id: Nullable<string>)

  /** A play after the join with the time table on start_time, which it keeps as one column. */
  datatype TimedPlay = TimedPlay(
    play: CatalogMatched,
    hour: int,
    day: int,
    week: int,
    month: int,
    year: int,
    weekday: int)

  /** The title condition of the first catalog join, `songPlays.song == songData.title` (etl.py:148). */
  predicate TitleMatches(p: PlayRow, k: SongKey)
  {
    SqlEquals(p.song, k.title)
  }

  function WithSong(p: PlayRow, k: SongKey): SongMatched
  {
    SongMatched(p.start_time, p.user_id, p.artist, p.session_id, p.location, p.user_agent, k.song_id)
  }

  /** The artist-name condition of the second catalog join, `songPlays.artist == songData.artist_name` (etl.py:151). */
  predicate ArtistMatches(r: SongMatched, k: ArtistKey)
  {
    SqlEquals(r.artist, k.artist_name)
  }

  function WithArtist(r: SongMatched, k: ArtistKey): CatalogMatched
  {
    CatalogMatched(r.start_time, r.user_id, r.session_id, r.location, r.user_agent, r.song_id, k.artist_id)
  }

  /** `join(time, 'start_time')` */
  predicate SameStart(r: CatalogMatched, t: TimeRow)
  {
    r.start_time == t.start_time
  }

  function WithTime(r: CatalogMatched, t: TimeRow): TimedPlay
  {
    TimedPlay(r, t.hour, t.day, t.week, t.month, t.year, t.weekday)
  }

  function JoinSongs(plays: seq<PlayRow>, keys: seq<SongKey>): seq<SongMatched>
  {
    Join(plays, keys, TitleMatches, WithSong)
  }

  function JoinArtists(rows: seq<SongMatched>, keys: seq<ArtistKey>): seq<CatalogMatched>
  {
    Join(rows, keys, ArtistMatches, WithArtist)
  }

  function JoinTime(rows: seq<CatalogMatched>, time: seq<TimeRow>): seq<TimedPlay>
  {
    Join(rows, time, SameStart, WithTime)
  }

  /** The row the two catalog joins build from a play, a song key and an artist key. */
  function CatalogRow(p: PlayRow, s: SongKey, a: ArtistKey): CatalogMatched
  {
    CatalogMatched(p.start_time, p.user_id, p.session_id, p.location, p.user_agent, s.song_id, a.artist_id)
  }

  /**
   * The play at position e joins song key s and artist key a: the title
   * condition of etl.py:148 (TitleMatches) and the artist-name condition of
   * etl.py:151 (PlayArtistMatches), written out.
   */
  predicate TripleMatches(plays: seq<PlayRow>, songKeys: seq<SongKey>, artistKeys: seq<ArtistKey>, e: int, s: int, a: int)
  {
    && 0 <= e < |plays| && 0 <= s < |songKeys| && 0 <= a < |artistKeys|
    && SqlEquals(plays[e].song, songKeys[s].title)
    && SqlEquals(plays[e].artist, artistKeys[a].artist_name)
  }

  predicate TripleLess(x: (nat, nat, nat), y: (nat, nat, nat))
  {
    x.0 < y.0 || (x.0 == y.0 && (x.1 < y.1 || (x.1 == y.1 && x.2 < y.2)))
  }

  /** A strictly increasing sequence of triples holding only x, and holding it, is [x]. */
  lemma OnlyTriple(tr: seq<(nat, nat, nat)>, x: (nat, nat, nat))
    requires forall k, k' | 0 <= k < k' < |tr| :: TripleLess(tr[k], tr[k'])
    requires forall k | 0 <= k < |tr| :: tr[k] == x
    requires x in tr
    ensures tr == [x]
  {
    assert tr[0] == tr[|tr| - 1];
  }

  /**
   * Which (play, song key, artist key) positions each row of the two
   * catalog joins comes from.
   */
  function Provenance(plays: seq<PlayRow>, songKeys: seq<SongKey>, artistKeys: seq<ArtistKey>): (tr: seq<(nat, nat, nat)>)
  {
    var p1 := Pairs(plays, songKeys, TitleMatches);
    var mid := JoinSongs(plays, songKeys);
    var p2 := Pairs(mid, artistKeys, ArtistMatches);
    seq(|p2|, k requires 0 <= k < |p2| => (p1[p2[k].0].0, p1[p2[k].0].1, p2[k].1))
  }

  /** Every row of the catalog joins is the catalog row of a matching triple, its provenance. */
  lemma {:induction false} CatalogJoinSound(plays: seq<PlayRow>, songKeys: seq<SongKey>, artistKeys: seq<ArtistKey>)
    ensures var rows := JoinArtists(JoinSongs(plays, songKeys), artistKeys);
      var tr := Provenance(plays, songKeys, artistKeys);
      && |rows| == |tr|
      && forall k | 0 <= k < |tr| ::
        && TripleMatches(plays, songKeys, artistKeys, tr[k].0, tr[k].1, tr[k].2)
        && rows[k] == CatalogRow(plays[tr[k].0], songKeys[tr[k].1], artistKeys[tr[k].2])
  {
    var p1 := Pairs(plays, songKeys, TitleMatches);
    var mid := JoinSongs(plays, songKeys);
    var p2 := Pairs(mid, artistKeys, ArtistMatches);
    var rows := JoinArtists(mid, artistKeys);
    var tr := Provenance(plays, songKeys, artistKeys);
    forall k | 0 <= k < |tr|
      ensures TripleMatches(plays, songKeys, artistKeys, tr[k].0, tr[k].1, tr[k].2)
      ensures rows[k] == CatalogRow(plays[tr[k].0], songKeys[tr[k].1], artistKeys[tr[k].2])
    {
      var m := p2[k].0;
      JoinRow(mid, artistKeys, ArtistMatches, WithArtist, k);
      JoinRow(plays, songKeys, TitleMatches, WithSong, m);
      assert mid[m] == WithSong(plays[p1[m].0], songKeys[p1[m].1]);
    }
  }

  /** Every matching triple is the provenance of some row. */
  lemma {:induction false} CatalogJoinComplete(plays: seq<PlayRow>, songKeys: seq<SongKey>, artistKeys: seq<ArtistKey>)
    ensures forall e, s, a | TripleMatches(plays, songKeys, artistKeys, e, s, a) ::
      (e, s, a) in Provenance(plays, songKeys, artistKeys)
  {
    var p1 := Pairs(plays, songKeys, TitleMatches);
    var mid := JoinSongs(plays, songKeys);
    var p2 := Pairs(mid, artistKeys, ArtistMatches);
    var tr := Provenance(plays, songKeys, artistKeys);
    forall e, s, a | TripleMatches(plays, songKeys, artistKeys, e, s, a)
      ensures (e, s, a) in tr
    {
      assert TitleMatches(plays[e], songKeys[s]);
      var m :| 0 <= m < |p1| && p1[m] == (e, s);
      JoinRow(plays, songKeys, TitleMatches, WithSong, m);
      assert ArtistMatches(mid[m], artistKeys[a]);
      var k :| 0 <= k < |p2| && p2[k] == (m, a);
      assert tr[k] == (e, s, a);
    }
  }

  /** Provenances are strictly increasing, so no triple yields two rows. */
  lemma {:induction false} CatalogJoinOrdered(plays: seq<PlayRow>, songKeys: seq<SongKey>, artistKeys: seq<ArtistKey>)
    ensures var tr := Provenance(plays, songKeys, artistKeys);
      forall k, k' | 0 <= k < k' < |tr| :: TripleLess(tr[k], tr[k'])
  {
    var p1 := Pairs(plays, songKeys, TitleMatches);
    var mid := JoinSongs(plays, songKeys);
    var p2 := Pairs(mid, artistKeys, ArtistMatches);
    var tr := Provenance(plays, songKeys, artistKeys);
    forall k, k' | 0 <= k < k' < |tr| ensures TripleLess(tr[k], tr[k'])
    {
      assert LexLess(p2[k], p2[k']);
      if p2[k].0 < p2[k'].0 {
        assert LexLess(p1[p2[k].0], p1[p2[k'].0]);
      }
    }
  }

  /** When exactly one triple matches, it is the only provenance: the catalog joins yield one row. */
  lemma SingleTriple(plays: seq<PlayRow>, songKeys: seq<SongKey>, artistKeys: seq<ArtistKey>, x: (nat, nat, nat))
    requires TripleMatches(plays, songKeys, artistKeys, x.0, x.1, x.2)
    requires forall e, s, a | TripleMatches(plays, songKeys, artistKeys, e, s, a) :: e == x.0 && s == x.1 && a == x.2
    ensures Provenance(plays, songKeys, artistKeys) == [x]
  {
    var tr := Provenance(plays, songKeys, artistKeys);
    CatalogJoinSound(plays, songKeys, artistKeys);
    CatalogJoinComplete(plays, songKeys, artistKeys);
    CatalogJoinOrdered(plays, songKeys, artistKeys);
    OnlyTriple(tr, x);
  }

  /**
   * The artist-name condition of the second catalog join (etl.py:151),
   * read off the play itself rather than the row of the first join.
   */
  predicate PlayArtistMatches(p: PlayRow, k: ArtistKey)
  {
    SqlEquals(p.artist, k.artist_name)
  }

  /**
   * A single play yields one row of the catalog joins per pair of a song key
   * matching its title and an artist key matching its artist.
   */
  lemma SinglePlayJoinCount(p: PlayRow, songKeys: seq<SongKey>, artistKeys: seq<ArtistKey>)
    ensures |JoinArtists(JoinSongs([p], songKeys), artistKeys)| ==
      MatchCount(p, songKeys, TitleMatches) * MatchCount(p, artistKeys, PlayArtistMatches)
  {
    var mid := JoinSongs([p], songKeys);
    var titles := MatchCount(p, songKeys, TitleMatches);
    var artists := MatchCount(p, artistKeys, PlayArtistMatches);
    JoinCount([p], songKeys, TitleMatches, WithSong, titles);
    forall m | 0 <= m < |mid| ensures MatchCount(mid[m], artistKeys, ArtistMatches) == artists
    {
      JoinRow([p], songKeys, TitleMatches, WithSong, m);
      MatchCountAgrees(mid[m], artistKeys, ArtistMatches, p, artistKeys, PlayArtistMatches);
    }
    JoinCount(mid, artistKeys, ArtistMatches, WithArtist, artists);
  }

  /**
   * When the time table holds, once each, the time row of every play's
   * start_time, the time join keeps every row, in place, and attaches that
   * start_time's time row.
   */
  lemma {:induction false} TimeJoinKeepsRows(rows: seq<CatalogMatched>, time: seq<TimeRow>, clock: Calendar.Clock)
    requires forall k | 0 <= k < |rows| :: TimeRowOf(rows[k].start_time, clock) in time
    requires forall t | t in time :: t == TimeRowOf(t.start_time, clock)
    requires forall i, j | 0 <= i < |time| && 0 <= j < |time| && time[i].start_time == time[j].start_time :: i == j
    ensures |JoinTime(rows, time)| == |rows|
    ensures forall k | 0 <= k < |rows| ::
      JoinTime(rows, time)[k] == WithTime(rows[k], TimeRowOf(rows[k].start_time, clock))
  {
    forall i | 0 <= i < |rows| ensures MatchesOnce(rows[i], time, SameStart)
    {
      var j :| 0 <= j < |time| && time[j] == TimeRowOf(rows[i].start_time, clock);
      assert SameStart(rows[i], time[j]);
    }
    JoinOneToOne(rows, time, SameStart);
    var ps := Pairs(rows, time, SameStart);
    forall k | 0 <= k < |rows|
      ensures JoinTime(rows, time)[k] == WithTime(rows[k], TimeRowOf(rows[k].start_time, clock))
    {
      JoinRow(rows, time, SameStart, WithTime, k);
      assert time[ps[k].1] in time;
    }
  }

  /** `withColumn('songplay_id', ...)` followed by the final column set. */
  function Fact(id: nat, r: TimedPlay): SongPlayRow
  {
    SongPlayRow(id, r.play.start_time, r.play.user_id, r.play.session_id, r.play.location,
                r.play.user_agent, r.play.song_id, r.play.artist_id,
                r.hour, r.day, r.week, r.month, r.year, r.weekday)
  }

  /** The columns of a fact row other than songplay_id. */
  function Unnumbered(f: SongPlayRow): TimedPlay
  {
    TimedPlay(
      CatalogMatched(f.start_time, f.user_id, f.session_id, f.location, f.user_agent, f.song_id, f.artist_id),
      f.hour, f.day, f.week, f.month, f.year, f.weekday)
  }

  /**
   * Attaches a songplay_id to every row: the rows keep their other columns
   * and no two rows share an id.
   */
  function AssignIds(rows: seq<TimedPlay>): (facts: seq<SongPlayRow>)
    ensures |facts| == |rows|
    ensures forall k | 0 <= k < |rows| :: Unnumbered(facts[k]) == rows[k]
    ensures forall k, k' | 0 <= k < |facts| && 0 <= k' < |facts| && k != k' ::
      facts[k].songplay_id != facts[k'].songplay_id
  {
    seq(|rows|, k requires 0 <= k < |rows| => Fact(k, rows[k]))
  }
}
