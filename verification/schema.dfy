/** The records the pipeline reads and the rows of the five tables it writes. */
module Schema {
  import opened Values

  /** One line of the song catalog (song_data JSON). */
  datatype CatalogRecord = CatalogRecord(
    song_id: Nullable<string>,
    title: Nullable<string>,
    artist_id: Nullable<string>,
    artist_name: Nullable<string>,
    artist_location: Nullable<string>,
    artist_latitude: Nullable<real>,
    artist_longitude: Nullable<real>,
    year: Nullable<int>,
    duration: Nullable<real>)

  /** One line of the activity log (log-data JSON), restricted to the fields the pipeline reads. */
  datatype EventRecord = EventRecord(
    userId: Nullable<string>,
    firstName: Nullable<string>,
    lastName: Nullable<string>,
    gender: Nullable<string>,
    level: Nullable<string>,
    page: Nullable<string>,
    ts: Nullable<int>,
    song: Nullable<string>,
    artist: Nullable<string>,
    sessionId: Nullable<int>,
    location: Nullable<string>,
    userAgent: Nullable<string>)

  /** Row of the songs table. */
  datatype SongRow = SongRow(
    song_id: Nullable<string>,
    title: Nullable<string>,
    artist_id: Nullable<string>,
    year: Nullable<int>,
    duration: Nullable<real>)

  /** Row of the artists table. */
  datatype ArtistRow = ArtistRow(
    artist_id: Nullable<string>,
    name: Nullable<string>,
    location: Nullable<string>,
    latitude: Nullable<real>,
    longitude: Nullable<real>)

  /** Row of the users table. */
  datatype UserRow = UserRow(
    user_id: Nullable<string>,
    first_name: Nullable<string>,
    last_name: Nullable<string>,
    gender: Nullable<string>,
    level: Nullable<string>)

  /** Row of the time table; start_time is an instant in epoch milliseconds. */
  datatype TimeRow = TimeRow(
    start_time: int,
    hour: int,
    day: int,
    week: int,
    month: int,
    year: int,
    weekday: int)

  /** Row of the songplays fact table. It has no `level` column. */
  datatype SongPlayRow = SongPlayRow(
    songplay_id: nat,
    start_time: int,
    user_id: Nullable<string>,
    session_id: Nullable<int>,
    location: Nullable<string>,
    user_agent: Nullable<string>,
    song_id: Nullable<string>,
    artist_id: Nullable<string>,
    hour: int,
    day: int,
    week: int,
    month: int,
    year: int,
    weekday: int)
}
