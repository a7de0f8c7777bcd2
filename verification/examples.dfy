/** Small concrete runs of the pipeline, derived from the general lemmas. */
module Examples {
  import opened Values
  import opened Schema
  import opened Relational
  import opened LogData
  import opened Etl
  import Calendar

  /** The clock of a session whose time zone is UTC. */
  const UTC: Calendar.Clock := Calendar.FixedOffset(0)

  function Song(id: string, title: string, artistId: string, artistName: string): CatalogRecord
  {
    CatalogRecord(NonNull(id), NonNull(title), NonNull(artistId), NonNull(artistName),
                  Null, Null, Null, NonNull(2000), NonNull(200.5))
  }

  function Play(user: string, level: string, song: string, artist: string): EventRecord
  {
    EventRecord(NonNull(user), Null, Null, Null, NonNull(level), NonNull("NextSong"),
                NonNull(1541105830796), NonNull(song), NonNull(artist), NonNull(345), Null, Null)
  }

  /** Every example play happens at ts 1541105830796, in 2018 on the UTC clock, so the datetime UDF converts it. */
  lemma PlayConvertible(user: string, level: string, song: string, artist: string)
    ensures Convertible(Play(user, level, song, artist), UTC)
  {
    Calendar.November1st2018();
    assert UTC(1541105830796) == Calendar.FieldsOf(1541105830796);
  }

  /**
   * One catalog record and one matching play give exactly one songplays row
   * carrying the record's song_id and artist_id, the play's user and session,
   * and the calendar columns of its ts (UTC clock).
   */
  lemma EndToEnd()
    ensures var catalog := [Song("S1", "Song A", "AR1", "Artist A")];
      var events := [Play("10", "free", "Song A", "Artist A")];
      && ProcessLogData(catalog, events, UTC).Ok?
      && var facts := ProcessLogData(catalog, events, UTC).value.songplays;
      && |facts| == 1
      && facts[0].song_id == NonNull("S1") && facts[0].artist_id == NonNull("AR1")
      && facts[0].user_id == NonNull("10") && facts[0].session_id == NonNull(345)
      && facts[0].start_time == 1541105830796
      && facts[0].hour == 20 && facts[0].day == 1 && facts[0].week == 44
      && facts[0].month == 11 && facts[0].year == 2018 && facts[0].weekday == 5
  {
    var catalog := [Song("S1", "Song A", "AR1", "Artist A")];
    PlayConvertible("10", "free", "Song A", "Artist A");
    OnePlay(catalog, Play("10", "free", "Song A", "Artist A"), UTC, 0, 0);
    Calendar.November1st2018();
    assert UTC(1541105830796) == Calendar.FieldsOf(1541105830796);
  }

  /**
   * The title match and the artist-name match are independent: a play of
   * "Song A" by "Artist B" takes song_id from one record and artist_id from
   * another.
   */
  lemma MixedRecords()
    ensures var catalog := [Song("S1", "Song A", "AR1", "Artist A"), Song("S2", "Song B", "AR2", "Artist B")];
      var events := [Play("10", "free", "Song A", "Artist B")];
      && ProcessLogData(catalog, events, UTC).Ok?
      && var facts := ProcessLogData(catalog, events, UTC).value.songplays;
      && |facts| == 1
      && facts[0].song_id == NonNull("S1") && facts[0].artist_id == NonNull("AR2")
  {
    var catalog := [Song("S1", "Song A", "AR1", "Artist A"), Song("S2", "Song B", "AR2", "Artist B")];
    PlayConvertible("10", "free", "Song A", "Artist B");
    OnePlay(catalog, Play("10", "free", "Song A", "Artist B"), UTC, 0, 1);
  }

  /** Two catalog records sharing the title "Song A" and the artist name "Artist A". */
  const Duplicated: seq<CatalogRecord> :=
    [Song("S1", "Song A", "AR1", "Artist A"), Song("S2", "Song A", "AR2", "Artist A")]

  /** A play of "Song A" by "Artist A". */
  const PlayOfA: EventRecord := Play("10", "free", "Song A", "Artist A")

  /** Both records of `Duplicated` match the play's title and its artist name. */
  lemma DuplicatedMatches()
    ensures MatchCount(PlayOfA, Duplicated, SameTitle) == 2
    ensures MatchCount(PlayOfA, Duplicated, SameArtist) == 2
  {
    assert Duplicated[1..][1..] == [];
  }

  /**
   * With two catalog records sharing the title and the artist name, one play
   * yields four songplays rows (every song record with every artist record),
   * more rows than there are song-play events.
   */
  lemma DuplicateCatalogEntries()
    ensures ProcessLogData(Duplicated, [PlayOfA], UTC).Ok?
    ensures |SongPlayEvents([PlayOfA])| == 1
    ensures |ProcessLogData(Duplicated, [PlayOfA], UTC).value.songplays| == 4
  {
    PlayConvertible("10", "free", "Song A", "Artist A");
    OneTimedPlay(PlayOfA, UTC);
    OnePlayRowCount(Duplicated, PlayOfA, UTC);
    DuplicatedMatches();
  }

  /** The play of `PlayOfA` moved to ts 253402300800000, 10000-01-01 in UTC. */
  const LatePlay: EventRecord := PlayOfA.(ts := NonNull(253402300800000))

  /** 10000 is past the last year a Python `datetime` holds, so the datetime UDF cannot convert `LatePlay`. */
  lemma LatePlayUnconvertible()
    ensures !Convertible(LatePlay, UTC)
  {
    Calendar.January1st10000();
    assert UTC(253402300800000) == Calendar.FieldsOf(253402300800000);
  }

  /**
   * A song play the datetime UDF cannot convert aborts the run with the
   * out-of-range error, after the users table and before the time and
   * songplays tables are written.
   */
  lemma YearTenThousandAborts()
    ensures ProcessLogData(Duplicated, [LatePlay], UTC) == Err(TimestampOutOfRange)
    ensures Run(Duplicated, [LatePlay], UTC).facts == Err(TimestampOutOfRange)
    ensures |Run(Duplicated, [LatePlay], UTC).songs| == |Run(Duplicated, [LatePlay], UTC).artists| == 2
  {
    LatePlayUnconvertible();
    OneUnconvertiblePlay(Duplicated, LatePlay, UTC);
  }
}
