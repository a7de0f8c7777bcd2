# Data-lake ETL for a music-streaming log, modelled in Dafny

`etl.py` runs two Spark stages.

- `process_song_data` projects the song catalog into a **songs** table and an **artists** table.
- `process_log_data` keeps only the `NextSong` events of the activity log. From them it builds:
  - a deduplicated **users** table;
  - a **time** table that splits each event's `ts` into calendar columns;
  - a **songplays** fact table. Each song play is joined to the catalog on title, then on artist name, then to the time table on `start_time`, and then numbered with `songplay_id`.

The model states this pipeline as pure functions over sequences of records. Spark is reduced to the standard meaning of `select`, `filter`, `distinct` and inner join:

- `values.dfy`: nullable column values with SQL equality in join conditions (NULL matches nothing). It also holds the run's error outcome.
- `schema.dfy`: the input records and the rows of the five output tables.
- `relational.dfy`: `distinct`, and a generic inner join. The join yields one row per matching (left, right) pair in row-major order, so row multiplicities can be stated.
- `calendar.dfy`: integer Gregorian calendar arithmetic covering day number ↔ date (each conversion inverts the other), ISO week, and Spark's `dayofweek` (1 = Sunday). `Clock` is the calendar of the session time zone, and `FixedOffset` is a zone at a fixed offset from UTC.
- `songdata.dfy`: the two catalog projections.
- `logdata.dfy`: the NextSong filter, the users table, the `datetime` column and the time table.
- `songplays.dfy`: the songplays projection, the two catalog joins, the time join and the ids.
- `etl.dfy`: the two stages and a whole run, with end-to-end properties of the three log tables.
- `examples.dfy`: concrete runs derived from the general lemmas.

Three behaviours of the code worth stating:

- **No `level` column.** The songplays table has no `level` column: the projection at etl.py:133-140 does not select it.
- **Fact count is not bounded by the event count.** The catalog joins keep *all* matches (etl.py:148, 151), so the fact table is not bounded by the number of song plays. A play matching `t` catalog titles and `n` catalog artist names yields `t * n` rows (`Etl.OnePlayRowCount`). The song record and the artist record are matched independently and can be different records (`Examples.MixedRecords`).
- **A song play without a usable `ts` aborts the run.** The datetime UDF (etl.py:109-112) raises when `ts` is missing (`Err(NullTimestamp)`) and when its local year falls outside 1..9999, the years a Python `datetime` can hold (`Err(TimestampOutOfRange)`; `Examples.YearTenThousandAborts`). The songs, artists and users tables are written before the abort (etl.py:105); the time and songplays tables are not. Other missing fields become NULL columns.

## Model

| member | source | states |
|---|---|---|
| Relational.Distinct | etl.py:101 | `distinct()` keeps exactly the rows of its input, each once |
| Relational.Pairs | etl.py:148 | the matching (left, right) positions of an inner join: every pair it lists matches, every matching pair is listed, strictly increasing |
| Relational.Join | etl.py:148 | the join has one row per matching pair |
| Relational.JoinMembership | etl.py:151 | a row is in the join exactly when it combines a matching left and right row |
| Relational.JoinCount | etl.py:148-151 | when every left row matches n right rows, the join has exactly n rows per left row |
| Relational.JoinOneToOne | etl.py:154 | when every left row matches exactly one right row, the join keeps every left row, in place |
| Calendar.IsoWeekday | etl.py:122 | the Monday-based weekday is in 1..7 and moves in step with the day number (1970-01-01 a Thursday) |
| Calendar.DayOfWeek | etl.py:125 | `dayofweek` is in 1..7, Sunday = 1, one ahead of the ISO weekday modulo 7 |
| Calendar.WeeksInYear | etl.py:122 | an ISO year has 52 or 53 weeks |
| Calendar.IsoWeek | etl.py:122 | `weekofyear` is in 1..53 |
| Calendar.January4InWeekOne | etl.py:122 | January 4 of every year is in ISO week 1 |
| Calendar.CivilFromDaysValid | etl.py:121-124 | every day number converts to a date that exists (valid month, day within the month's length) |
| Calendar.DaysFromCivilInverse | etl.py:121-124 | converting a day number to a date and back gives the day number |
| Calendar.CivilFromDaysInverse | etl.py:121-124 | converting an existing date to its day number and back gives the date, so a day number fixes its date and no two dates share one |
| Calendar.FieldsOf | etl.py:118-125 | the calendar columns of a local instant are in range, name an existing date, and name the hour of that date that contains the instant; the weekday is that date's |
| Calendar.Day17836 | etl.py:121-124 | day 17836 after 1970-01-01 is 2018-11-01 |
| Calendar.Week44 | etl.py:122 | 2018-11-01 is in ISO week 44 and is a Thursday (`dayofweek` 5) |
| Calendar.January1st10000 | etl.py:111 | ts 253402300800000 falls in year 10000 in UTC |
| Calendar.November1st2018 | etl.py:111 | ts 1541105830796 is 2018-11-01, hour 20, week 44, in UTC, and hour 21 one hour east of UTC |
| SongData.Songs | etl.py:56 | the songs table has one row per catalog record, same position, with song_id, title, artist_id, year and duration unchanged |
| SongData.Artists | etl.py:64-65 | the artists table has one row per catalog record, with artist_name, artist_location, artist_latitude and artist_longitude renamed |
| SongData.ProjectionsLossless | etl.py:56-65 | at each position the songs row and the artists row agree on artist_id and together give back the catalog record |
| SongData.ArtistMultiplicity | etl.py:64-65 | no dedup: an artist row occurs in the artists table as often as catalog records carry it |
| LogData.SongPlayEvents | etl.py:97 | the filter keeps exactly the NextSong events, and no more of them than the log has |
| LogData.SongPlayEventsMultiplicity | etl.py:97 | each NextSong event is kept as often as the log holds it; every other event is kept zero times |
| LogData.SongPlayEventsAppend | etl.py:97 | filtering a concatenated log concatenates the filtered parts |
| LogData.SongPlayEventsSkip | etl.py:97 | removing a non-NextSong event from the log does not change what the filter keeps |
| LogData.Users | etl.py:100-101 | the users table has no duplicate 5-tuple, and holds a tuple exactly when some song play projects to it |
| LogData.WithDatetime | etl.py:109-115 | the datetime column succeeds exactly when every song play is convertible (has a `ts` whose local year is in 1..9999); it then keeps every play in order, with its `ts` as the instant (exact in zones without a repeated hour, such as a fixed offset); otherwise it fails with the error of an unconvertible play |
| LogData.TimeRowOf | etl.py:118-119 | a time row's start_time is the play's instant |
| LogData.TimeRowLocatesInstant | etl.py:111-125 | on a fixed-offset clock, the time row's columns are in range, name an existing date and the hour holding the local instant, and its weekday is that date's |
| LogData.TimeTable | etl.py:118-125 | the time table has no duplicate row, holds exactly the time rows of the plays' instants, and holds at most one row per start_time |
| LogData.TimeRowsOf | etl.py:118-124 | before `distinct()`, a row is present exactly when it is some play's time row |
| LogData.OneTimedPlay | etl.py:97-115 | a one-event log whose event is a convertible song play keeps it and times it at its `ts` |
| LogData.DatetimeOfLog | etl.py:97-115 | the datetime column of the filtered log succeeds exactly when every NextSong event is convertible, and otherwise fails with the error of some unconvertible NextSong event |
| LogData.UsersOfLog | etl.py:97-101 | a tuple is in the users table exactly when some NextSong event of the log projects to it |
| LogData.TimeOfLog | etl.py:97-125 | a row is in the time table exactly when it is the time row of some NextSong event's `ts` |
| SongPlays.Plays | etl.py:133-140 | the songplays projection has one row per song play, at the same position, whose start_time is the play's `datetime` and whose user_id, song, artist, session_id, location and user_agent are the event's userId, song, artist, sessionId, location and userAgent; no `level` |
| SongPlays.SongKeys | etl.py:144 | the (song_id, title) selection has one row per catalog record, with that record's song_id and title |
| SongPlays.ArtistKeys | etl.py:145 | the (artist_id, artist_name) selection has one row per catalog record, with that record's artist_id and artist_name |
| SongPlays.CatalogJoinSound | etl.py:144-151 | each row of the two catalog joins comes from a (play, song key, artist key) triple that matches on title and artist name, and carries that play's columns, that song_id and that artist_id |
| SongPlays.CatalogJoinComplete | etl.py:144-151 | every matching triple is the source of some row |
| SongPlays.CatalogJoinOrdered | etl.py:144-151 | the source triples strictly increase, so no triple yields two rows |
| SongPlays.SingleTriple | etl.py:144-151 | when exactly one triple matches, the catalog joins yield exactly one row, from that triple |
| SongPlays.SinglePlayJoinCount | etl.py:148-151 | one play yields (title matches) × (artist-name matches) rows |
| SongPlays.TimeJoinKeepsRows | etl.py:154 | when the time table holds each start_time's time row once, the time join keeps every row in place and attaches that row's calendar columns |
| SongPlays.AssignIds | etl.py:157 | numbering keeps every row and its columns, and no two rows share a songplay_id |
| Etl.ProcessSongData | etl.py:56-65 | both catalog tables have one row per record and together reassemble each record |
| Etl.SongPlaysTable | etl.py:133-157 | no two songplays rows share an id |
| Etl.ProcessLogData | etl.py:97-157 | the log stage succeeds exactly when every NextSong event is convertible, fails only with the error of an unconvertible NextSong event, and otherwise yields duplicate-free users and time tables and unique songplay ids |
| Etl.UsersTableExact | etl.py:97-101 | after a successful run the users table is duplicate-free and holds exactly the projections of the NextSong events |
| Etl.TimeTableExact | etl.py:97-125 | after a successful run the time table is duplicate-free, holds exactly the time rows of the NextSong events, and holds one row per start_time |
| Etl.Run | etl.py:175-176 | a run always writes the songs and artists projections of the catalog and the duplicate-free users table of the NextSong events; it writes the time and songplays tables of the log stage exactly when every NextSong event is convertible, and otherwise stops with an unconvertible event's error |
| Etl.IgnoredEventContributesNothing | etl.py:97 | deleting a non-NextSong event from the log changes none of users, time and songplays |
| Etl.MatchedRowsHaveTime | etl.py:118-154 | every row out of the catalog joins finds its start_time's row in the time table |
| Etl.SongPlaysTableRows | etl.py:133-157 | songplays row k is the row of the k-th matching triple, with the time row of its play's instant |
| Etl.SongPlaysSound | etl.py:144-157 | every songplays row comes from a NextSong event, a catalog record with its title and a catalog record with its artist name |
| Etl.SongPlaysRows | etl.py:133-157 | every songplays row carries its event's user, session, location, agent and `ts`, its song record's song_id, its artist record's artist_id, and the calendar columns of its `ts` |
| Etl.SongPlaysComplete | etl.py:144-157 | every matching (event, song record, artist record) triple yields a songplays row |
| Etl.SongPlaysOnce | etl.py:144-157 | no triple yields two songplays rows |
| Etl.UnmatchedEventYieldsNothing | etl.py:109-151 | when every NextSong event is convertible, the run succeeds, and a NextSong event with no title match or no artist-name match yields no songplays row |
| Etl.SingleMatchProvenance | etl.py:97-157 | a log whose only event is a convertible song play matching exactly one (song record, artist record) pair runs and yields exactly one row, from that pair |
| Etl.OneUnconvertiblePlay | etl.py:109-115 | a log of one song play the datetime UDF cannot convert makes the log stage and the run fail with that play's error, while the run still writes the songs and artists projections |
| Etl.OnePlay | etl.py:97-157 | a one-event log whose play matches a unique title and a unique artist name runs and yields exactly that row |
| Etl.CatalogJoinCount | etl.py:144-151 | the catalog joins give a play (records with its title) × (records with its artist name) rows |
| Etl.SongPlaysTableLength | etl.py:154-157 | the time join and the numbering keep the number of rows of the catalog joins |
| Etl.OnePlayRowCount | etl.py:97-157 | a one-event log runs and yields (records with its title) × (records with its artist name) songplays rows |
| Examples.EndToEnd | etl.py:97-157 | one catalog record and one matching play (ts 1541105830796) yield one row with song_id S1, artist_id AR1, user 10, session 345, 2018-11-01 hour 20, week 44, Thursday |
| Examples.MixedRecords | etl.py:148-151 | song_id and artist_id can come from different catalog records |
| Examples.DuplicateCatalogEntries | etl.py:148-151 | two records sharing title and artist name turn one song play into four songplays rows |
| Examples.LatePlayUnconvertible | etl.py:111 | a song play at ts 253402300800000 (10000-01-01 in UTC) is not convertible |
| Examples.YearTenThousandAborts | etl.py:109-115 | such a play makes the log stage and the run fail with the out-of-range error, while both catalog tables, of two rows each, are still written |

## Left out

- Spark session creation and teardown, `print` logging, the config file and the AWS credentials (etl.py:9-33, 171-179): resource plumbing and global state.
- Reading JSON and writing Parquet with `partitionBy` and `mode='overwrite'`. This is external storage. Each stage is modelled as computing its tables in full, and the partition columns are kept as constants in `etl.dfy`.
- The input paths: which files are read is I/O. The catalog and the log are parameters, and the catalog passed to the joins is the one the song stage projects.
- LogData.WithDatetime: the Python float division `ts/1000` and the conversion to a naive local datetime are not modelled. The instant is kept in integer milliseconds, and the machine's time zone is assumed to be the Spark session's time zone. Only the year range of `fromtimestamp` is modelled; platform limits of the C `localtime` call are not. Taking start_time to be the `ts` itself is exact only in zones that never repeat an hour, such as `FixedOffset`. Where a daylight-saving zone falls back, Spark turns the naive local datetime back into an instant with `mktime`, which drops the fold. Two plays an hour apart inside the repeated hour then get one start_time and share one time row, while the model keeps two.
- LogData.DatetimeOfLog: when several plays are unconvertible, the model reports the error of the first one. Spark evaluates partitions in an order of its own and may report another.
- LogData.TimeRowLocatesInstant: only fixed-offset zones are proved. In a zone with daylight-saving rules the abstract `Clock` parameter, which every other member takes, gives the calendar columns of each `ts`, but not the start_time the code computes inside a repeated hour (see LogData.WithDatetime above).
- SongPlays.AssignIds: the bit layout of `monotonically_increasing_id` (partition id in the high bits) is not modelled. The id is the row's position, which keeps the promised uniqueness.
- Data-parallel execution, shuffles and lazy evaluation are not modelled. Table order is the engine's choice: the model fixes input order, row-major for joins.
- Input fields the pipeline never reads are not part of the record types.
