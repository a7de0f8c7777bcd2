/**
 * The event side of `process_log_data`: the NextSong filter, the users
 * table, the datetime column and the time table.
 */
module LogData {
  import opened Values
  import opened Schema
  import opened Relational
  import Calendar

  /** The log's page value for a song play. */
  const NextSong: string := "NextSong"

  /** `filter('page = "NextSong"')` keeps the event; a NULL page compares as unknown and is dropped. */
  predicate IsSongPlay(e: EventRecord)
  {
    e.page == NonNull(NextSong)
  }

  /** The song-play events, in log order. */
  function SongPlayEvents(events: seq<EventRecord>): (plays: seq<EventRecord>)
    ensures forall e | e in plays :: e in events && IsSongPlay(e)
    ensures forall e | e in events && IsSongPlay(e) :: e in plays
    ensures |plays| <= |events|
  {
    if |events| == 0 then []
    else
      var init := events[..|events| - 1];
      var last := events[|events| - 1];
      assert events == init + [last];
      SongPlayEvents(init) + (if IsSongPlay(last) then [last] else [])
  }

  /** The filter keeps every song-play event as many times as the log holds it, and nothing else. */
  lemma {:induction false} SongPlayEventsMultiplicity(events: seq<EventRecord>)
    ensures forall e :: multiset(SongPlayEvents(events))[e] == if IsSongPlay(e) then multiset(events)[e] else 0
  {
    if |events| > 0 {
      var init := events[..|events| - 1];
      var last := events[|events| - 1];
      assert events == init + [last];
      SongPlayEventsMultiplicity(init);
    }
  }

  /** Filtering a log split in two filters each part. */
  lemma {:induction false} SongPlayEventsAppend(a: seq<EventRecord>, b: seq<EventRecord>)
    ensures SongPlayEvents(a + b) == SongPlayEvents(a) + SongPlayEvents(b)
    decreases |b|
  {
    if |b| > 0 {
      var init := b[..|b| - 1];
      assert (a + b)[..|a + b| - 1] == a + init;
      assert (a + b)[|a + b| - 1] == b[|b| - 1];
      SongPlayEventsAppend(a, init);
    } else {
      assert a + b == a;
    }
  }

  /** An event that is not a song play can be deleted from the log without changing what the filter keeps. */
  lemma SongPlayEventsSkip(events: seq<EventRecord>, i: nat)
    requires i < |events| && !IsSongPlay(events[i])
    ensures SongPlayEvents(events[..i] + events[i + 1..]) == SongPlayEvents(events)
  {
    SplitAt(events, i);
    SongPlayEventsDrop(events[..i], events[i], events[i + 1..]);
  }

  lemma SplitAt<T>(s: seq<T>, i: nat)
    requires i < |s|
    ensures s == s[..i] + [s[i]] + s[i + 1..]
  {
  }

  lemma SongPlayEventsDrop(before: seq<EventRecord>, x: EventRecord, after: seq<EventRecord>)
    requires !IsSongPlay(x)
    ensures SongPlayEvents(before + [x] + after) == SongPlayEvents(before + after)
  {
    assert SongPlayEvents([x]) == [] by {
      assert [x][..0] == [];
    }
    assert SongPlayEvents(before + [x] + after) == SongPlayEvents(before + [x]) + SongPlayEvents(after) by {
      SongPlayEventsAppend(before + [x], after);
    }
    assert SongPlayEvents(before + [x]) == SongPlayEvents(before) by {
      SongPlayEventsAppend(before, [x]);
    }
    assert SongPlayEvents(before + after) == SongPlayEvents(before) + SongPlayEvents(after) by {
      SongPlayEventsAppend(before, after);
    }
  }

  /** The `selectExpr` renaming userId, firstName, lastName for the users table. */
  function UserOf(e: EventRecord): UserRow
  {
    UserRow(e.userId, e.firstName, e.lastName, e.gender, e.level)
  }

  /**
   * The users table: the distinct (user_id, first_name, last_name, gender,
   * level) tuples of the song-play events. Uniqueness is on the whole tuple,
   * so one user_id may head several rows.
   */
  function Users(plays: seq<EventRecord>): (users: seq<UserRow>)
    ensures NoDup(users)
    ensures forall u :: u in users <==> exists e :: e in plays && UserOf(e) == u
  {
    var projected := seq(|plays|, i requires 0 <= i < |plays| => UserOf(plays[i]));
    assert forall e | e in plays :: UserOf(e) in projected by {
      forall e | e in plays ensures UserOf(e) in projected {
        var i :| 0 <= i < |plays| && plays[i] == e;
        assert projected[i] == UserOf(e);
      }
    }
    Distinct(projected)
  }

  /** The years a Python `datetime` can hold (`datetime.MINYEAR`, `datetime.MAXYEAR`). */
  const MinYear: int := 1
  const MaxYear: int := 9999

  /**
   * `get_datetime` converts event e: it has a `ts`, and the local date of
   * that instant has a year a Python `datetime` can hold.
   */
  predicate Convertible(e: EventRecord, clock: Calendar.Clock)
  {
    e.ts.NonNull? && MinYear <= clock(e.ts.value).year <= MaxYear
  }

  /** What `get_datetime` raises on an event it cannot convert. */
  function DatetimeError(e: EventRecord): EtlError
  {
    if e.ts.Null? then NullTimestamp else TimestampOutOfRange
  }

  /** A song-play event with the `datetime` column the UDF adds. */
  datatype TimedEvent = TimedEvent(event: EventRecord, datetime: int)

  /**
   * `withColumn('datetime', get_datetime('ts'))`: each event's instant, in
   * epoch milliseconds. The UDF raises on a NULL `ts` and on a `ts` whose
   * local year a Python `datetime` cannot hold; either aborts the run.
   * The instant is the `ts` itself, which is what the code computes in
   * zones that never repeat an hour.
   */
  function WithDatetime(plays: seq<EventRecord>, clock: Calendar.Clock): (r: Result<seq<TimedEvent>>)
    ensures r.Ok? <==> forall i | 0 <= i < |plays| :: Convertible(plays[i], clock)
    ensures r.Ok? ==> |r.value| == |plays|
    ensures r.Ok? ==> forall i | 0 <= i < |plays| ::
      r.value[i].event == plays[i] && r.value[i].datetime == plays[i].ts.value
    ensures r.Err? ==> exists i | 0 <= i < |plays| :: !Convertible(plays[i], clock) && r.error == DatetimeError(plays[i])
  {
    if |plays| == 0 then Ok([])
    else
      var init := plays[..|plays| - 1];
      var last := plays[|plays| - 1];
      match WithDatetime(init, clock)
      case Err(e) => Err(e)
      case Ok(timed) =>
        if !Convertible(last, clock) then Err(DatetimeError(last))
        else Ok(timed + [TimedEvent(last, last.ts.value)])
  }

  /**
   * The time row of an instant: start_time is the instant itself, the other
   * columns are the calendar fields `clock` gives it in the session time zone.
   */
  function TimeRowOf(startTime: int, clock: Calendar.Clock): (t: TimeRow)
    ensures t.start_time == startTime
  {
    var f := clock(startTime);
    TimeRow(startTime, f.hour, f.day, f.week, f.month, f.year, f.weekday)
  }

  /**
   * On a clock `offsetMs` milliseconds ahead of UTC, the calendar columns of
   * a time row are in range, name an existing date and the hour of that date
   * which holds the local instant, and weekday is that date's.
   */
  lemma TimeRowLocatesInstant(startTime: int, offsetMs: int)
    ensures var t := TimeRowOf(startTime, Calendar.FixedOffset(offsetMs));
      var days := Calendar.DaysFromCivil(Calendar.Civil(t.year, t.month, t.day));
      && 0 <= t.hour <= 23 && 1 <= t.day <= 31 && 1 <= t.week <= 53
      && 1 <= t.month <= 12 && 1 <= t.weekday <= 7
      && Calendar.ValidCivil(Calendar.Civil(t.year, t.month, t.day))
      && days * Calendar.MillisPerDay + t.hour * Calendar.MillisPerHour <= startTime + offsetMs
      && startTime + offsetMs < days * Calendar.MillisPerDay + (t.hour + 1) * Calendar.MillisPerHour
      && t.weekday == Calendar.DayOfWeek(days)
  {
    assert Calendar.FixedOffset(offsetMs)(startTime) == Calendar.FieldsOf(startTime + offsetMs);
  }

  /** Distinct rows that are functions of their start_time differ in start_time. */
  lemma KeyedNoDup(rows: seq<TimeRow>, clock: Calendar.Clock)
    requires NoDup(rows)
    requires forall t | t in rows :: t == TimeRowOf(t.start_time, clock)
    ensures forall i, j | 0 <= i < |rows| && 0 <= j < |rows| && rows[i].start_time == rows[j].start_time :: i == j
  {
    forall i, j | 0 <= i < |rows| && 0 <= j < |rows| && rows[i].start_time == rows[j].start_time
      ensures i == j
    {
      assert rows[i] == TimeRowOf(rows[i].start_time, clock);
      assert rows[j] == TimeRowOf(rows[j].start_time, clock);
    }
  }

  /**
   * The time table: the distinct time rows of the events' instants. Since
   * every column is a function of start_time, no two rows share a start_time.
   */
  function TimeTable(timed: seq<TimedEvent>, clock: Calendar.Clock): (rows: seq<TimeRow>)
    ensures NoDup(rows)
    ensures forall t :: t in rows <==>
      exists i :: 0 <= i < |timed| && t == TimeRowOf(timed[i].datetime, clock)
    ensures forall t | t in rows :: t == TimeRowOf(t.start_time, clock)
    ensures forall i, j | 0 <= i < |rows| && 0 <= j < |rows| && rows[i].start_time == rows[j].start_time :: i == j
  {
    var projected := TimeRowsOf(timed, clock);
    var rows := Distinct(projected);
    assert forall t :: t in rows <==> t in projected;
    assert forall t | t in rows :: t == TimeRowOf(t.start_time, clock) by {
      forall t | t in rows ensures t == TimeRowOf(t.start_time, clock) {
        assert t in projected;
      }
    }
    KeyedNoDup(rows, clock);
    rows
  }

  /** The time row of every event, before `distinct()`. */
  function TimeRowsOf(timed: seq<TimedEvent>, clock: Calendar.Clock): (rows: seq<TimeRow>)
    ensures forall t :: t in rows <==>
      exists i :: 0 <= i < |timed| && t == TimeRowOf(timed[i].datetime, clock)
  {
    var rows := seq(|timed|, i requires 0 <= i < |timed| => TimeRowOf(timed[i].datetime, clock));
    assert forall i | 0 <= i < |timed| :: rows[i] == TimeRowOf(timed[i].datetime, clock);
    rows
  }

  /** A log of one song play with a `ts` keeps that play and times it at its `ts`. */
  lemma OneTimedPlay(e: EventRecord, clock: Calendar.Clock)
    requires IsSongPlay(e) && Convertible(e, clock)
    ensures SongPlayEvents([e]) == [e]
    ensures WithDatetime([e], clock) == Ok([TimedEvent(e, e.ts.value)])
  {
    assert [e][..0] == [];
    assert WithDatetime([e][..0], clock) == Ok([]);
    assert [] + [TimedEvent(e, e.ts.value)] == [TimedEvent(e, e.ts.value)];
  }

  /** `get_datetime` can convert every song-play event of the log. */
  predicate EveryPlayTimed(events: seq<EventRecord>, clock: Calendar.Clock)
  {
    forall e | e in events && IsSongPlay(e) :: Convertible(e, clock)
  }

  /**
   * The datetime column can be computed exactly when every song-play event
   * of the log can be converted; otherwise it fails with the error of one
   * that cannot.
   */
  lemma DatetimeOfLog(events: seq<EventRecord>, clock: Calendar.Clock)
    ensures WithDatetime(SongPlayEvents(events), clock).Ok? <==> EveryPlayTimed(events, clock)
    ensures var r := WithDatetime(SongPlayEvents(events), clock);
      r.Err? ==> exists e | e in events && IsSongPlay(e) :: !Convertible(e, clock) && r.error == DatetimeError(e)
  {
    var plays := SongPlayEvents(events);
    if !WithDatetime(plays, clock).Ok? {
      var i :| 0 <= i < |plays| && !Convertible(plays[i], clock)
        && WithDatetime(plays, clock).error == DatetimeError(plays[i]);
      assert plays[i] in plays;
    }
  }

  /** A tuple is in the users table exactly when some song-play event of the log projects to it. */
  lemma UsersOfLog(events: seq<EventRecord>)
    ensures forall u :: u in Users(SongPlayEvents(events)) <==> exists e :: e in events && IsSongPlay(e) && UserOf(e) == u
  {
  }

  /** A row is in the time table exactly when it is the time row of some song-play event's `ts`. */
  lemma TimeOfLog(events: seq<EventRecord>, timed: seq<TimedEvent>, clock: Calendar.Clock)
    requires WithDatetime(SongPlayEvents(events), clock) == Ok(timed)
    ensures forall t :: t in TimeTable(timed, clock) <==>
      exists e :: e in events && IsSongPlay(e) && t == TimeRowOf(e.ts.value, clock)
  {
    var plays := SongPlayEvents(events);
    var time := TimeTable(timed, clock);
    forall t | t in time ensures exists e :: e in events && IsSongPlay(e) && t == TimeRowOf(e.ts.value, clock)
    {
      var i :| 0 <= i < |timed| && t == TimeRowOf(timed[i].datetime, clock);
      assert plays[i] in plays;
    }
    forall e | e in events && IsSongPlay(e) ensures TimeRowOf(e.ts.value, clock) in time
    {
      var i :| 0 <= i < |plays| && plays[i] == e;
      assert timed[i].datetime == e.ts.value;
    }
  }
}
