/**
 * One run of the pipeline: `process_song_data` then `process_log_data`,
 * each table computed in full, as it is written with mode 'overwrite'.
 */
module Etl {
  import opened Values
  import opened Schema
  import opened Relational
  import opened SongData
  import opened LogData
  import Calendar
  import opened SongPlays

  /** Partition columns of the written tables; artists and users are not partitioned. */
  const SongsPartitionBy: seq<string> := ["year", "artist_id"]
  const TimePartitionBy: seq<string> := ["year", "month"]
  const SongPlaysPartitionBy: seq<string> := ["year", "month"]

  datatype SongTables = SongTables(songs: seq<SongRow>, artists: seq<ArtistRow>)

  /** `process_song_data`: the songs and artists tables, each one row per catalog record. */
  function ProcessSongData(catalog: seq<CatalogRecord>): (t: SongTables)
    ensures |t.songs| == |catalog| && |t.artists| == |catalog|
    ensures forall i | 0 <= i < |catalog| :: Reassemble(t.songs[i], t.artists[i]) == catalog[i]
  {
    ProjectionsLossless(catalog);
    SongTables(Songs(catalog), Artists(catalog))
  }

  datatype LogTables = LogTables(users: seq<UserRow>, time: seq<TimeRow>, songplays: seq<SongPlayRow>)

  /** The timed song plays after the title join and the artist-name join with the catalog. */
  function Matched(catalog: seq<CatalogRecord>, timed: seq<TimedEvent>): seq<CatalogMatched>
  {
    JoinArtists(JoinSongs(Plays(timed), SongKeys(catalog)), ArtistKeys(catalog))
  }

  /** The songplays table: the catalog joins, the join with the time table, then the ids. */
  function SongPlaysTable(catalog: seq<CatalogRecord>, timed: seq<TimedEvent>, clock: Calendar.Clock): (facts: seq<SongPlayRow>)
    ensures forall k, k' | 0 <= k < |facts| && 0 <= k' < |facts| && k != k' ::
      facts[k].songplay_id != facts[k'].songplay_id
  {
    AssignIds(JoinTime(Matched(catalog, timed), TimeTable(timed, clock)))
  }

  /**
   * `process_log_data`: the users, time and songplays tables, computed from
   * the song-play events only. A song-play event that the datetime UDF
   * cannot convert (no `ts`, or a year a Python `datetime` cannot hold)
   * aborts the run.
   * The song catalog is read a second time for the joins.
   */
  function ProcessLogData(catalog: seq<CatalogRecord>, events: seq<EventRecord>, clock: Calendar.Clock): (r: Result<LogTables>)
    ensures r.Ok? <==> EveryPlayTimed(events, clock)
    ensures r.Err? ==> exists e | e in events && IsSongPlay(e) :: !Convertible(e, clock) && r.error == DatetimeError(e)
    ensures r.Ok? ==> NoDup(r.value.users) && NoDup(r.value.time)
    ensures r.Ok? ==> forall k, k' | 0 <= k < |r.value.songplays| && 0 <= k' < |r.value.songplays| && k != k' ::
      r.value.songplays[k].songplay_id != r.value.songplays[k'].songplay_id
  {
    var plays := SongPlayEvents(events);
    DatetimeOfLog(events, clock);
    match WithDatetime(plays, clock)
    case Err(e) => Err(e)
    case Ok(timed) =>
      Ok(LogTables(Users(plays), TimeTable(timed, clock), SongPlaysTable(catalog, timed, clock)))
  }

  /**
   * The users table holds a tuple exactly when some song-play event of the
   * log projects to it, once.
   */
  lemma UsersTableExact(catalog: seq<CatalogRecord>, events: seq<EventRecord>, clock: Calendar.Clock)
    requires EveryPlayTimed(events, clock)
    ensures var users := ProcessLogData(catalog, events, clock).value.users;
      && NoDup(users)
      && forall u :: u in users <==> exists e :: e in events && IsSongPlay(e) && UserOf(e) == u
  {
    UsersOfLog(events);
  }

  /**
   * The time table holds a row exactly when it is the time row of some
   * song-play event's `ts`, once, and no two rows share a start_time.
   */
  lemma TimeTableExact(catalog: seq<CatalogRecord>, events: seq<EventRecord>, clock: Calendar.Clock)
    requires EveryPlayTimed(events, clock)
    ensures var time := ProcessLogData(catalog, events, clock).value.time;
      && NoDup(time)
      && (forall t :: t in time <==> exists e :: e in events && IsSongPlay(e) && t == TimeRowOf(e.ts.value, clock))
      && forall i, j | 0 <= i < |time| && 0 <= j < |time| && time[i].start_time == time[j].start_time :: i == j
  {
    var timed := WithDatetime(SongPlayEvents(events), clock).value;
    TimeOfLog(events, timed, clock);
  }

  /** The two tables `process_log_data` writes after the datetime column exists. */
  datatype FactTables = FactTables(time: seq<TimeRow>, songplays: seq<SongPlayRow>)

  /**
   * What one run leaves written, in the order `main` writes it: songs and
   * artists, then users, then time and songplays, which an abort of the
   * datetime UDF prevents.
   */
  datatype Written = Written(
    songs: seq<SongRow>,
    artists: seq<ArtistRow>,
    users: seq<UserRow>,
    facts: Result<FactTables>)

  /**
   * `main`: both stages on the same catalog. The songs, artists and users
   * tables are written whatever the log holds; the time and songplays
   * tables exactly when every song play can be converted.
   */
  function Run(catalog: seq<CatalogRecord>, events: seq<EventRecord>, clock: Calendar.Clock): (w: Written)
    ensures w.songs == Songs(catalog) && w.artists == Artists(catalog)
    ensures NoDup(w.users)
    ensures forall u :: u in w.users <==> exists e :: e in events && IsSongPlay(e) && UserOf(e) == u
    ensures w.facts.Ok? <==> EveryPlayTimed(events, clock)
    ensures w.facts.Err? ==>
      exists e | e in events && IsSongPlay(e) :: !Convertible(e, clock) && w.facts.error == DatetimeError(e)
    ensures w.facts.Ok? ==>
      ProcessLogData(catalog, events, clock) == Ok(LogTables(w.users, w.facts.value.time, w.facts.value.songplays))
  {
    var s := ProcessSongData(catalog);
    UsersOfLog(events);
    Written(s.songs, s.artists, Users(SongPlayEvents(events)),
      match ProcessLogData(catalog, events, clock)
      case Err(e) => Err(e)
      case Ok(l) => Ok(FactTables(l.time, l.songplays)))
  }

  /** Deleting an event that is not a song play changes none of users, time and songplays. */
  lemma IgnoredEventContributesNothing(catalog: seq<CatalogRecord>, events: seq<EventRecord>, i: nat, clock: Calendar.Clock)
    requires i < |events| && !IsSongPlay(events[i])
    ensures ProcessLogData(catalog, events[..i] + events[i + 1..], clock) == ProcessLogData(catalog, events, clock)
  {
    SongPlayEventsSkip(events, i);
  }

  /** The title condition of the first catalog join (etl.py:148), on the raw event and catalog record. */
  predicate SameTitle(e: EventRecord, r: CatalogRecord)
  {
    SqlEquals(e.song, r.title)
  }

  /** The artist-name condition of the second catalog join (etl.py:151), on the raw event and catalog record. */
  predicate SameArtist(e: EventRecord, r: CatalogRecord)
  {
    SqlEquals(e.artist, r.artist_name)
  }

  /** Song-play event e joins catalog record s on title and catalog record a on artist name. */
  predicate EventMatches(plays: seq<EventRecord>, catalog: seq<CatalogRecord>, e: int, s: int, a: int)
  {
    && 0 <= e < |plays| && 0 <= s < |catalog| && 0 <= a < |catalog|
    && SameTitle(plays[e], catalog[s])
    && SameArtist(plays[e], catalog[a])
  }

  /**
   * The songplays row built from event e (which has a `ts`), with the
   * song_id of record s, the artist_id of record a, and the calendar
   * columns of e's `ts`.
   */
  function ExpectedFact(id: nat, e: EventRecord, s: CatalogRecord, a: CatalogRecord, clock: Calendar.Clock): SongPlayRow
    requires e.ts.NonNull?
  {
    var t := TimeRowOf(e.ts.value, clock);
    SongPlayRow(id, e.ts.value, e.userId, e.sessionId, e.location, e.userAgent, s.song_id, a.artist_id,
                t.hour, t.day, t.week, t.month, t.year, t.weekday)
  }

  /** For each songplays row, the positions (song-play event, song record, artist record) it comes from. */
  function FactProvenance(catalog: seq<CatalogRecord>, events: seq<EventRecord>, clock: Calendar.Clock): seq<(nat, nat, nat)>
    requires EveryPlayTimed(events, clock)
  {
    DatetimeOfLog(events, clock);
    Provenance(Plays(WithDatetime(SongPlayEvents(events), clock).value), SongKeys(catalog), ArtistKeys(catalog))
  }

  /** The songplays table of a successful run is the one built from its timed song plays. */
  lemma LogSongPlays(catalog: seq<CatalogRecord>, events: seq<EventRecord>, clock: Calendar.Clock)
    requires EveryPlayTimed(events, clock)
    ensures WithDatetime(SongPlayEvents(events), clock).Ok?
    ensures ProcessLogData(catalog, events, clock).value.songplays ==
      SongPlaysTable(catalog, WithDatetime(SongPlayEvents(events), clock).value, clock)
  {
    DatetimeOfLog(events, clock);
  }

  /** The time table holds the time row of every row the catalog joins produce. */
  lemma MatchedRowsHaveTime(catalog: seq<CatalogRecord>, timed: seq<TimedEvent>, clock: Calendar.Clock)
    ensures var matched := Matched(catalog, timed);
      forall k | 0 <= k < |matched| :: TimeRowOf(matched[k].start_time, clock) in TimeTable(timed, clock)
  {
    var pr, sk, ak := Plays(timed), SongKeys(catalog), ArtistKeys(catalog);
    var matched := Matched(catalog, timed);
    var tr := Provenance(pr, sk, ak);
    CatalogJoinSound(pr, sk, ak);
    forall k | 0 <= k < |matched| ensures TimeRowOf(matched[k].start_time, clock) in TimeTable(timed, clock)
    {
      assert matched[k].start_time == timed[tr[k].0].datetime;
    }
  }

  /**
   * Row k of the songplays table is the catalog row of the k-th provenance
   * triple, which matches, with the time row of its play's start_time.
   */
  lemma {:induction false} SongPlaysTableRows(catalog: seq<CatalogRecord>, timed: seq<TimedEvent>, clock: Calendar.Clock)
    ensures var pr, sk, ak := Plays(timed), SongKeys(catalog), ArtistKeys(catalog);
      var facts := SongPlaysTable(catalog, timed, clock);
      var tr := Provenance(pr, sk, ak);
      && |facts| == |tr|
      && forall k | 0 <= k < |tr| ::
        && TripleMatches(pr, sk, ak, tr[k].0, tr[k].1, tr[k].2)
        && Unnumbered(facts[k]) == WithTime(CatalogRow(pr[tr[k].0], sk[tr[k].1], ak[tr[k].2]),
                                            TimeRowOf(timed[tr[k].0].datetime, clock))
  {
    var pr, sk, ak := Plays(timed), SongKeys(catalog), ArtistKeys(catalog);
    var matched := Matched(catalog, timed);
    var time := TimeTable(timed, clock);
    var tr := Provenance(pr, sk, ak);
    CatalogJoinSound(pr, sk, ak);
    assert forall k | 0 <= k < |matched| :: matched[k].start_time == timed[tr[k].0].datetime;
    MatchedRowsHaveTime(catalog, timed, clock);
    TimeJoinKeepsRows(matched, time, clock);
  }

  /** Each songplays row comes from a matching (event, song record, artist record) triple. */
  lemma {:induction false} SongPlaysSound(catalog: seq<CatalogRecord>, events: seq<EventRecord>, clock: Calendar.Clock)
    requires EveryPlayTimed(events, clock)
    ensures var plays := SongPlayEvents(events);
      var tr := FactProvenance(catalog, events, clock);
      && |ProcessLogData(catalog, events, clock).value.songplays| == |tr|
      && forall k | 0 <= k < |tr| :: EventMatches(plays, catalog, tr[k].0, tr[k].1, tr[k].2)
  {
    var plays := SongPlayEvents(events);
    LogSongPlays(catalog, events, clock);
    var timed := WithDatetime(plays, clock).value;
    var pr, sk, ak := Plays(timed), SongKeys(catalog), ArtistKeys(catalog);
    var tr := FactProvenance(catalog, events, clock);
    SongPlaysTableRows(catalog, timed, clock);
    forall k | 0 <= k < |tr| ensures EventMatches(plays, catalog, tr[k].0, tr[k].1, tr[k].2)
    {
      assert TripleMatches(pr, sk, ak, tr[k].0, tr[k].1, tr[k].2);
    }
  }

  /**
   * Each songplays row carries the user, session, location and agent of its
   * event, the song_id of its song record, the artist_id of its artist
   * record, and the calendar columns of the event's `ts`.
   */
  lemma {:induction false} SongPlaysRows(catalog: seq<CatalogRecord>, events: seq<EventRecord>, clock: Calendar.Clock)
    requires EveryPlayTimed(events, clock)
    ensures var plays := SongPlayEvents(events);
      var facts := ProcessLogData(catalog, events, clock).value.songplays;
      var tr := FactProvenance(catalog, events, clock);
      && |facts| == |tr|
      && forall k | 0 <= k < |facts| ::
        && EventMatches(plays, catalog, tr[k].0, tr[k].1, tr[k].2)
        && plays[tr[k].0].ts.NonNull?
        && facts[k] == ExpectedFact(facts[k].songplay_id, plays[tr[k].0], catalog[tr[k].1], catalog[tr[k].2], clock)
  {
    var plays := SongPlayEvents(events);
    LogSongPlays(catalog, events, clock);
    var timed := WithDatetime(plays, clock).value;
    var pr, sk, ak := Plays(timed), SongKeys(catalog), ArtistKeys(catalog);
    var facts := SongPlaysTable(catalog, timed, clock);
    var tr := FactProvenance(catalog, events, clock);
    SongPlaysTableRows(catalog, timed, clock);
    forall k | 0 <= k < |facts|
      ensures EventMatches(plays, catalog, tr[k].0, tr[k].1, tr[k].2)
      ensures plays[tr[k].0].ts.NonNull?
      ensures facts[k] == ExpectedFact(facts[k].songplay_id, plays[tr[k].0], catalog[tr[k].1], catalog[tr[k].2], clock)
    {
      var e := tr[k].0;
      assert TripleMatches(pr, sk, ak, e, tr[k].1, tr[k].2);
      assert timed[e].event == plays[e] && timed[e].datetime == plays[e].ts.value;
      assert Unnumbered(facts[k]) == WithTime(CatalogRow(pr[e], sk[tr[k].1], ak[tr[k].2]),
                                              TimeRowOf(timed[e].datetime, clock));
    }
  }

  /** Every matching (event, song record, artist record) triple yields a songplays row. */
  lemma {:induction false} SongPlaysComplete(catalog: seq<CatalogRecord>, events: seq<EventRecord>, clock: Calendar.Clock)
    requires EveryPlayTimed(events, clock)
    ensures var plays := SongPlayEvents(events);
      forall e, s, a | EventMatches(plays, catalog, e, s, a) :: (e, s, a) in FactProvenance(catalog, events, clock)
  {
    var plays := SongPlayEvents(events);
    var timed := WithDatetime(plays, clock).value;
    var pr, sk, ak := Plays(timed), SongKeys(catalog), ArtistKeys(catalog);
    CatalogJoinComplete(pr, sk, ak);
    forall e, s, a | EventMatches(plays, catalog, e, s, a)
      ensures (e, s, a) in FactProvenance(catalog, events, clock)
    {
      assert TripleMatches(pr, sk, ak, e, s, a);
    }
  }

  /** No triple yields two songplays rows: provenances strictly increase. */
  lemma SongPlaysOnce(catalog: seq<CatalogRecord>, events: seq<EventRecord>, clock: Calendar.Clock)
    requires EveryPlayTimed(events, clock)
    ensures var tr := FactProvenance(catalog, events, clock);
      forall k, k' | 0 <= k < k' < |tr| :: TripleLess(tr[k], tr[k'])
  {
    var timed := WithDatetime(SongPlayEvents(events), clock).value;
    CatalogJoinOrdered(Plays(timed), SongKeys(catalog), ArtistKeys(catalog));
  }

  /**
   * A song-play event with no title match, or no artist-name match, in the
   * catalog yields no songplays row, and the run does not fail because of it.
   */
  lemma UnmatchedEventYieldsNothing(catalog: seq<CatalogRecord>, events: seq<EventRecord>, clock: Calendar.Clock, e: nat)
    requires EveryPlayTimed(events, clock)
    requires e < |SongPlayEvents(events)|
    requires var ev := SongPlayEvents(events)[e];
      (forall s | 0 <= s < |catalog| :: !SqlEquals(ev.song, catalog[s].title))
      || (forall a | 0 <= a < |catalog| :: !SqlEquals(ev.artist, catalog[a].artist_name))
    ensures ProcessLogData(catalog, events, clock).Ok?
    ensures WithDatetime(SongPlayEvents(events), clock).Ok?
    ensures forall k | 0 <= k < |FactProvenance(catalog, events, clock)| :: FactProvenance(catalog, events, clock)[k].0 != e
  {
    DatetimeOfLog(events, clock);
    SongPlaysSound(catalog, events, clock);
  }

  /**
   * When a log's only event is a song play with a `ts` that matches exactly
   * one (song record, artist record) pair, that triple is the only
   * provenance: the run yields exactly one songplays row.
   */
  lemma SingleMatchProvenance(catalog: seq<CatalogRecord>, e: EventRecord, clock: Calendar.Clock, s: nat, a: nat)
    requires IsSongPlay(e) && Convertible(e, clock)
    requires EventMatches([e], catalog, 0, s, a)
    requires forall s', a' | EventMatches([e], catalog, 0, s', a') :: s' == s && a' == a
    ensures ProcessLogData(catalog, [e], clock).Ok?
    ensures WithDatetime(SongPlayEvents([e]), clock).Ok?
    ensures FactProvenance(catalog, [e], clock) == [(0, s, a)]
    ensures |ProcessLogData(catalog, [e], clock).value.songplays| == 1
  {
    OneTimedPlay(e, clock);
    var timed := WithDatetime([e], clock).value;
    var pr, sk, ak := Plays(timed), SongKeys(catalog), ArtistKeys(catalog);
    forall i, s', a' | TripleMatches(pr, sk, ak, i, s', a') ensures i == 0 && s' == s && a' == a
    {
      assert EventMatches([e], catalog, i, s', a');
    }
    assert TripleMatches(pr, sk, ak, 0, s, a);
    SingleTriple(pr, sk, ak, (0, s, a));
    SongPlaysSound(catalog, [e], clock);
  }

  /**
   * A log of one song play the datetime UDF cannot convert fails with that
   * play's error; the run still writes the catalog tables.
   */
  lemma OneUnconvertiblePlay(catalog: seq<CatalogRecord>, e: EventRecord, clock: Calendar.Clock)
    requires IsSongPlay(e) && !Convertible(e, clock)
    ensures ProcessLogData(catalog, [e], clock) == Err(DatetimeError(e))
    ensures Run(catalog, [e], clock).facts == Err(DatetimeError(e))
    ensures Run(catalog, [e], clock).songs == Songs(catalog)
    ensures Run(catalog, [e], clock).artists == Artists(catalog)
  {
    assert e in [e];
    var r := ProcessLogData(catalog, [e], clock);
    var e' :| e' in [e] && IsSongPlay(e') && !Convertible(e', clock) && r.error == DatetimeError(e');
    assert e' == e;
    var w := Run(catalog, [e], clock);
    var e'' :| e'' in [e] && IsSongPlay(e'') && !Convertible(e'', clock) && w.facts.error == DatetimeError(e'');
    assert e'' == e;
  }

  /**
   * A log of one song play with a `ts`, whose title matches only catalog
   * record s and whose artist name matches only catalog record a, runs and
   * yields one songplays row, built from the play and those two records.
   */
  lemma OnePlay(catalog: seq<CatalogRecord>, e: EventRecord, clock: Calendar.Clock, s: nat, a: nat)
    requires IsSongPlay(e) && Convertible(e, clock)
    requires s < |catalog| && SqlEquals(e.song, catalog[s].title)
    requires forall s' | 0 <= s' < |catalog| && SqlEquals(e.song, catalog[s'].title) :: s' == s
    requires a < |catalog| && SqlEquals(e.artist, catalog[a].artist_name)
    requires forall a' | 0 <= a' < |catalog| && SqlEquals(e.artist, catalog[a'].artist_name) :: a' == a
    ensures ProcessLogData(catalog, [e], clock).Ok?
    ensures var facts := ProcessLogData(catalog, [e], clock).value.songplays;
      |facts| == 1 && facts[0] == ExpectedFact(facts[0].songplay_id, e, catalog[s], catalog[a], clock)
  {
    OneTimedPlay(e, clock);
    SingleMatchProvenance(catalog, e, clock, s, a);
    SongPlaysRows(catalog, [e], clock);
  }

  /**
   * The catalog joins give a play one row per pair of a catalog record with
   * its title and a catalog record with its artist name.
   */
  lemma CatalogJoinCount(catalog: seq<CatalogRecord>, e: EventRecord, p: PlayRow)
    requires p.song == e.song && p.artist == e.artist
    ensures |JoinArtists(JoinSongs([p], SongKeys(catalog)), ArtistKeys(catalog))| ==
      MatchCount(e, catalog, SameTitle) * MatchCount(e, catalog, SameArtist)
  {
    var sk, ak := SongKeys(catalog), ArtistKeys(catalog);
    SinglePlayJoinCount(p, sk, ak);
    MatchCountAgrees(p, sk, TitleMatches, e, catalog, SameTitle);
    MatchCountAgrees(p, ak, PlayArtistMatches, e, catalog, SameArtist);
  }

  /** The time join and the id assignment keep every row of the catalog joins. */
  lemma SongPlaysTableLength(catalog: seq<CatalogRecord>, timed: seq<TimedEvent>, clock: Calendar.Clock)
    ensures |SongPlaysTable(catalog, timed, clock)| == |Matched(catalog, timed)|
  {
    SongPlaysTableRows(catalog, timed, clock);
    CatalogJoinSound(Plays(timed), SongKeys(catalog), ArtistKeys(catalog));
  }

  /**
   * A log of one song play with a `ts` runs and yields one songplays row
   * for every pair of a catalog record with the play's title and a catalog
   * record with the play's artist name: with duplicate titles or artist
   * names in the catalog, more rows than song plays.
   */
  lemma OnePlayRowCount(catalog: seq<CatalogRecord>, e: EventRecord, clock: Calendar.Clock)
    requires IsSongPlay(e) && Convertible(e, clock)
    ensures ProcessLogData(catalog, [e], clock).Ok?
    ensures |ProcessLogData(catalog, [e], clock).value.songplays| ==
      MatchCount(e, catalog, SameTitle) * MatchCount(e, catalog, SameArtist)
  {
    OneTimedPlay(e, clock);
    var timed := [TimedEvent(e, e.ts.value)];
    assert Plays(timed) == [PlayOf(timed[0])];
    SongPlaysTableLength(catalog, timed, clock);
    CatalogJoinCount(catalog, e, PlayOf(timed[0]));
  }
}
