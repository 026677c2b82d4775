/**
 * The transform stage: the five `INSERT ... SELECT` statements of `insert_table_queries`,
 * each as a function from the staging tables to the rows it inserts.
 */
module Transform {
  import opened Sql
  import opened Calendar
  import opened Schema

  // ---------------------------------------------------------------------------
  // Shared pieces: the song-play filter and the timestamp conversion

  /** `page = 'NextSong'`; `page` is NOT NULL, so the comparison is never UNKNOWN. */
  predicate IsNextSong(e: StagingEvent) {
    e.page == "NextSong"
  }

  /** The staging events the song-play filter keeps, with their multiplicities. */
  function NextSongEvents(events: seq<StagingEvent>): (r: seq<StagingEvent>)
    ensures forall e :: e in r <==> e in events && IsNextSong(e)
  {
    Filter(IsNextSong, events)
  }

  /** `timestamp 'epoch' + ts / 1000 * interval '1 second'`: the instant `ts` milliseconds after the epoch. */
  function StartTime(e: StagingEvent): (t: Timestamp)
    ensures ValidTimestamp(t)
    ensures ToEpochMillis(t) == e.ts
  {
    FromEpochMillis(e.ts)
  }

  // ---------------------------------------------------------------------------
  // songplays: staging_events LEFT JOIN staging_songs, WHERE page = 'NextSong'

  /** The join condition `e.song = s.title and e.artist = s.artist_name`, kept only when TRUE. */
  function JoinOn(e: StagingEvent, s: StagingSong): (b: bool)
    ensures b <==> e.song == Some(s.title) && e.artist == Some(s.artistName)
  {
    And(Equal(e.song, Some(s.title)), Equal(e.artist, Some(s.artistName))) == True
  }

  /** The join condition for a fixed event, as a row predicate on staging songs. */
  function JoinsWith(e: StagingEvent): StagingSong -> bool {
    s => JoinOn(e, s)
  }

  /** The staging songs that join with event e, in table order. */
  function Matches(e: StagingEvent, songs: seq<StagingSong>): (m: seq<StagingSong>)
    ensures forall s :: s in m <==> s in songs && JoinOn(e, s)
    ensures e.song.None? || e.artist.None? ==> m == []
  {
    Filter(JoinsWith(e), songs)
  }

  /** Each joining staging song is matched as many times as the staging table holds it. */
  lemma MatchMultiplicity(e: StagingEvent, songs: seq<StagingSong>, s: StagingSong)
    ensures multiset(Matches(e, songs))[s] == if JoinOn(e, s) then multiset(songs)[s] else 0
  {
    FilterMultiplicity(JoinsWith(e), songs, s);
  }

  /** The selected columns for event e joined with song s (s == None: the NULL-extended row). */
  function SongplayRow(e: StagingEvent, s: Option<StagingSong>): Songplay {
    Songplay(
      StartTime(e),
      e.userId,
      e.level,
      if s.Some? then Some(s.value.songId) else None,
      if s.Some? then Some(s.value.artistId) else None,
      e.sessionId,
      e.location,
      e.userAgent)
  }

  /** The left outer join for one event: a row per matching song, or one NULL-extended row. */
  function JoinedRows(e: StagingEvent, songs: seq<StagingSong>): (r: seq<Songplay>)
    ensures |r| >= 1
  {
    var m := Matches(e, songs);
    if |m| == 0 then [SongplayRow(e, None)]
    else Map(s => SongplayRow(e, Some(s)), m)
  }

  /** The rows one staging event contributes: its joined rows if it passes `page = 'NextSong'`. */
  function RowsForEvent(songs: seq<StagingSong>): StagingEvent -> seq<Songplay> {
    e => if IsNextSong(e) then JoinedRows(e, songs) else []
  }

  /** songplay_table_insert: the rows inserted into `songplays`. */
  function Songplays(events: seq<StagingEvent>, songs: seq<StagingSong>): seq<Songplay> {
    FlatMap(RowsForEvent(songs), events)
  }

  /** The columns a songplay row copies from its staging event. */
  predicate Inherits(r: Songplay, e: StagingEvent) {
    && r.startTime == StartTime(e)
    && r.userId == e.userId
    && r.level == e.level
    && r.sessionId == e.sessionId
    && r.location == e.location
    && r.userAgent == e.userAgent
  }

  /** The song columns of r are those of a song joining with e, or NULL when none joins. */
  predicate SongColumnsFrom(r: Songplay, e: StagingEvent, songs: seq<StagingSong>) {
    || (Matches(e, songs) == [] && r.songId == None && r.artistId == None)
    || (exists s :: s in songs && JoinOn(e, s) && r.songId == Some(s.songId) && r.artistId == Some(s.artistId))
  }

  lemma JoinedRowOrigin(e: StagingEvent, songs: seq<StagingSong>, r: Songplay)
    requires r in JoinedRows(e, songs)
    ensures Inherits(r, e) && SongColumnsFrom(r, e, songs)
  {
    var m := Matches(e, songs);
    if |m| > 0 {
      var i :| 0 <= i < |m| && JoinedRows(e, songs)[i] == r;
      assert m[i] in m;
    }
  }

  /** Song plays only come from 'NextSong' events, copy their columns and take song columns from the join. */
  lemma SongplayOrigin(events: seq<StagingEvent>, songs: seq<StagingSong>, r: Songplay)
    requires r in Songplays(events, songs)
    ensures exists e :: e in events && IsNextSong(e) && Inherits(r, e) && SongColumnsFrom(r, e, songs)
  {
    FlatMapMembers(RowsForEvent(songs), events, r);
    var e :| e in events && r in RowsForEvent(songs)(e);
    JoinedRowOrigin(e, songs, r);
  }

  /** A staging table split in two yields the rows of each part, in order. */
  lemma SongplaysAppend(a: seq<StagingEvent>, b: seq<StagingEvent>, songs: seq<StagingSong>)
    ensures Songplays(a + b, songs) == Songplays(a, songs) + Songplays(b, songs)
  {
    FlatMapAppend(RowsForEvent(songs), a, b);
  }

  /** Filtering the events first gives the same rows: other pages contribute nothing. */
  lemma SongplaysIgnoreOtherPages(events: seq<StagingEvent>, songs: seq<StagingSong>)
    ensures Songplays(events, songs) == Songplays(NextSongEvents(events), songs)
  {
    FlatMapIgnoresFiltered(RowsForEvent(songs), IsNextSong, events);
  }

  /** The rows of a staging table holding the single event e. */
  lemma SingleEvent(e: StagingEvent, songs: seq<StagingSong>)
    ensures Songplays([e], songs) == if IsNextSong(e) then JoinedRows(e, songs) else []
  {
    assert [e][1..] == [];
    assert FlatMap(RowsForEvent(songs), [e]) == RowsForEvent(songs)(e) + FlatMap(RowsForEvent(songs), []);
  }

  lemma OtherPageYieldsNoRow(e: StagingEvent, songs: seq<StagingSong>)
    requires !IsNextSong(e)
    ensures Songplays([e], songs) == []
  {
    SingleEvent(e, songs);
  }

  /** A 'NextSong' event with no joining song yields exactly one row, with NULL song and artist ids. */
  lemma UnmatchedEventYieldsNullRow(e: StagingEvent, songs: seq<StagingSong>)
    requires IsNextSong(e)
    requires forall s :: s in songs ==> !(e.song == Some(s.title) && e.artist == Some(s.artistName))
    ensures Songplays([e], songs)
         == [Songplay(StartTime(e), e.userId, e.level, None, None, e.sessionId, e.location, e.userAgent)]
  {
    SingleEvent(e, songs);
    assert Matches(e, songs) == [];
  }

  /** A NULL song title or artist name never joins, so the event keeps a NULL-extended row. */
  lemma NullKeyNeverMatches(e: StagingEvent, songs: seq<StagingSong>)
    requires IsNextSong(e)
    requires e.song.None? || e.artist.None?
    ensures forall s :: s in songs ==> !JoinOn(e, s)
    ensures Songplays([e], songs)
         == [Songplay(StartTime(e), e.userId, e.level, None, None, e.sessionId, e.location, e.userAgent)]
  {
    UnmatchedEventYieldsNullRow(e, songs);
  }

  /**
   * A 'NextSong' event with k joining staging-song rows yields k rows, the i-th carrying the
   * ids of the i-th match; each joining song is matched as often as the staging table holds it.
   */
  lemma MatchedEventYieldsRowPerMatch(e: StagingEvent, songs: seq<StagingSong>)
    requires IsNextSong(e)
    requires exists s :: s in songs && JoinOn(e, s)
    ensures |Songplays([e], songs)| == |Matches(e, songs)|
    ensures forall i :: 0 <= i < |Matches(e, songs)| ==>
      var r := Songplays([e], songs)[i];
      Inherits(r, e) && r.songId == Some(Matches(e, songs)[i].songId)
      && r.artistId == Some(Matches(e, songs)[i].artistId)
    ensures forall s :: multiset(Matches(e, songs))[s] == if JoinOn(e, s) then multiset(songs)[s] else 0
  {
    SingleEvent(e, songs);
    var s :| s in songs && JoinOn(e, s);
    assert s in Matches(e, songs);
    forall s ensures multiset(Matches(e, songs))[s] == if JoinOn(e, s) then multiset(songs)[s] else 0 {
      MatchMultiplicity(e, songs, s);
    }
  }

  /** Every joining song of a 'NextSong' event shows up as a row; without one, the NULL row does. */
  lemma SongplayCompleteness(events: seq<StagingEvent>, songs: seq<StagingSong>, e: StagingEvent)
    requires e in events && IsNextSong(e)
    ensures Matches(e, songs) == [] ==> SongplayRow(e, None) in Songplays(events, songs)
    ensures forall s :: s in songs && JoinOn(e, s) ==> SongplayRow(e, Some(s)) in Songplays(events, songs)
  {
    var m := Matches(e, songs);
    if m == [] {
      FlatMapMembers(RowsForEvent(songs), events, SongplayRow(e, None));
    }
    forall s | s in songs && JoinOn(e, s)
      ensures SongplayRow(e, Some(s)) in Songplays(events, songs)
    {
      assert s in m;
      var i :| 0 <= i < |m| && m[i] == s;
      assert JoinedRows(e, songs)[i] == SongplayRow(e, Some(s));
      FlatMapMembers(RowsForEvent(songs), events, SongplayRow(e, Some(s)));
    }
  }

  /** No two staging songs share a title and an artist name. */
  predicate UniqueSongKeys(songs: seq<StagingSong>) {
    forall i, j | 0 <= i < j < |songs| ::
      songs[i].title != songs[j].title || songs[i].artistName != songs[j].artistName
  }

  /** Under UniqueSongKeys, two songs with the same title and artist name are the same row. */
  lemma SameKeySameRow(songs: seq<StagingSong>, i: int, j: int)
    requires UniqueSongKeys(songs)
    requires 0 <= i < |songs| && 0 <= j < |songs|
    requires songs[i].title == songs[j].title && songs[i].artistName == songs[j].artistName
    ensures i == j
  {
  }

  lemma AtMostOneMatch(e: StagingEvent, songs: seq<StagingSong>)
    requires UniqueSongKeys(songs)
    ensures |Matches(e, songs)| <= 1
  {
    var m := Matches(e, songs);
    if |m| > 0 {
      var a := m[0];
      assert a in m;
      var i :| 0 <= i < |songs| && songs[i] == a;
      forall k | 0 <= k < |m|
        ensures m[k] == a
      {
        assert m[k] in m;
        var j :| 0 <= j < |songs| && songs[j] == m[k];
        SameKeySameRow(songs, i, j);
      }
      ConstantMultiplicity(m, a);
      MatchMultiplicity(e, songs, a);
      assert NoDuplicates(songs);
      NoDuplicatesMultiplicity(songs, a);
    }
  }

  /**
   * The left join never drops a qualifying event; when no two staging songs share a title and
   * artist name, the fact table has exactly one row per 'NextSong' event.
   */
  lemma SongplayCount(events: seq<StagingEvent>, songs: seq<StagingSong>)
    ensures |Songplays(events, songs)| >= |NextSongEvents(events)|
    ensures UniqueSongKeys(songs) ==> |Songplays(events, songs)| == |NextSongEvents(events)|
  {
    var f := RowsForEvent(songs);
    if UniqueSongKeys(songs) {
      forall e | IsNextSong(e) ensures |f(e)| == 1 {
        AtMostOneMatch(e, songs);
      }
    }
    FlatMapCount(f, IsNextSong, events);
  }

  // ---------------------------------------------------------------------------
  // users: SELECT DISTINCT (userId, firstName, lastName, gender, level) of 'NextSong' events

  function UserRow(e: StagingEvent): User {
    User(e.userId, e.firstName, e.lastName, e.gender, e.level)
  }

  /** user_table_insert: the rows inserted into `users`. */
  function Users(events: seq<StagingEvent>): seq<User> {
    Distinct(Map(UserRow, NextSongEvents(events)))
  }

  /** The users rows are exactly the distinct user tuples of 'NextSong' events, each once. */
  lemma UsersAreDistinctUserTuples(events: seq<StagingEvent>)
    ensures NoDuplicates(Users(events))
    ensures forall u :: u in Users(events) <==> exists e :: e in events && IsNextSong(e) && UserRow(e) == u
    ensures |Users(events)| == |set e | e in events && IsNextSong(e) :: UserRow(e)|
  {
    var rows := Map(UserRow, NextSongEvents(events));
    forall u
      ensures u in Users(events) <==> exists e :: e in events && IsNextSong(e) && UserRow(e) == u
    {
      MapMembers(UserRow, NextSongEvents(events), u);
    }
    DistinctCardinality(rows);
    assert (set u | u in rows) == (set e | e in events && IsNextSong(e) :: UserRow(e)) by {
      forall u ensures u in rows <==> exists e :: e in events && IsNextSong(e) && UserRow(e) == u {
        MapMembers(UserRow, NextSongEvents(events), u);
      }
    }
  }

  /** The declared primary key does not collapse rows: a level change gives a second row for one user id. */
  lemma UserIdCanRepeat(a: StagingEvent)
    requires IsNextSong(a) && a.userId.Some?
    ensures var b := a.(level := a.level + "!");
      |Users([a, b])| == 2 && Users([a, b])[0].userId == Users([a, b])[1].userId
  {
    var b := a.(level := a.level + "!");
    assert |b.level| != |a.level|;
    assert NextSongEvents([a, b]) == [a, b] by {
      assert [a, b] == [a] + [b];
      FilterAppend(IsNextSong, [a], [b]);
      assert [a][1..] == [] && [b][1..] == [];
    }
    var rows := Map(UserRow, [a, b]);
    assert rows == [UserRow(a), UserRow(b)];
    assert UserRow(a) != UserRow(b);
    DistinctOfDistinct(rows);
  }

  // ---------------------------------------------------------------------------
  // songs: a verbatim copy of the staging songs

  function SongRow(s: StagingSong): Song {
    Song(s.songId, s.title, s.artistId, s.year, s.duration)
  }

  /** song_table_insert: the rows inserted into `songs`. */
  function Songs(songs: seq<StagingSong>): seq<Song> {
    Map(SongRow, songs)
  }

  /** One songs row per staging song, in order, with the five columns copied unchanged. */
  lemma SongsCopyStaging(songs: seq<StagingSong>)
    ensures |Songs(songs)| == |songs|
    ensures forall i :: 0 <= i < |songs| ==>
      var r := Songs(songs)[i];
      r.songId == songs[i].songId && r.title == songs[i].title && r.artistId == songs[i].artistId
      && r.year == songs[i].year && r.duration == songs[i].duration
  {
  }

  /** Song ids are unique in `songs` exactly when they are unique in the staging songs. */
  lemma SongIdsUniqueIffStagingUnique(songs: seq<StagingSong>)
    ensures (forall i, j | 0 <= i < j < |songs| :: Songs(songs)[i].songId != Songs(songs)[j].songId)
        <==> (forall i, j | 0 <= i < j < |songs| :: songs[i].songId != songs[j].songId)
  {
    forall i | 0 <= i < |songs|
      ensures Songs(songs)[i].songId == songs[i].songId
    {
    }
  }

  // ---------------------------------------------------------------------------
  // artists: SELECT DISTINCT (artist_id, artist_name, location, latitude, longitude) of staging songs

  function ArtistRow(s: StagingSong): Artist {
    Artist(s.artistId, s.artistName, s.artistLocation, s.artistLatitude, s.artistLongitude)
  }

  /** artist_table_insert: the rows inserted into `artists`. */
  function Artists(songs: seq<StagingSong>): seq<Artist> {
    Distinct(Map(ArtistRow, songs))
  }

  /** The artists rows are the staging songs' artist tuples, each exactly once, and no more rows than songs. */
  lemma ArtistsAreDistinctArtistTuples(songs: seq<StagingSong>)
    ensures NoDuplicates(Artists(songs))
    ensures forall s :: s in songs ==> ArtistRow(s) in Artists(songs)
    ensures forall a :: a in Artists(songs) ==> exists s :: s in songs && ArtistRow(s) == a
    ensures |Artists(songs)| <= |songs|
  {
    forall a | a in Artists(songs)
      ensures exists s :: s in songs && ArtistRow(s) == a
    {
      MapMembers(ArtistRow, songs, a);
    }
    forall s | s in songs
      ensures ArtistRow(s) in Artists(songs)
    {
      MapMembers(ArtistRow, songs, ArtistRow(s));
    }
  }

  /** Two songs by one artist id with different locations give two artists rows with that id. */
  lemma ArtistIdCanRepeat(s: StagingSong)
    ensures var t := s.(artistLocation := Some("elsewhere"), songId := s.songId + "!");
      s.artistLocation != Some("elsewhere") ==>
        |Artists([s, t])| == 2 && Artists([s, t])[0].artistId == Artists([s, t])[1].artistId
  {
    var t := s.(artistLocation := Some("elsewhere"), songId := s.songId + "!");
    var rows := Map(ArtistRow, [s, t]);
    assert rows == [ArtistRow(s), ArtistRow(t)];
    if s.artistLocation != Some("elsewhere") {
      assert ArtistRow(s) != ArtistRow(t);
      DistinctOfDistinct(rows);
    }
  }

  // ---------------------------------------------------------------------------
  // times: the distinct start times of 'NextSong' events, decomposed

  /**
   * The `extract(...)` columns of one start time. The year is numbered as `extract(year)`
   * numbers it, without a year 0; the date it names is that of the astronomical year.
   */
  function TimeRowOf(t: Timestamp): (r: TimeRow)
    ensures r.startTime == t
    ensures 0 <= r.hour <= 23 && 1 <= r.day <= 31 && 1 <= r.week <= 53
    ensures 1 <= r.month <= 12 && 0 <= r.weekday <= 6 && r.year != 0
    ensures ValidDate(Date(AstronomicalYear(r.year), r.month, r.day))
    ensures DaysFromCivil(Date(AstronomicalYear(r.year), r.month, r.day)) == DayNumber(t)
    ensures DayNumber(t) * SecondsPerDay + r.hour * 3600 <= t.epochSeconds
    ensures t.epochSeconds < DayNumber(t) * SecondsPerDay + (r.hour + 1) * 3600
    ensures r.weekday == Weekday(DayNumber(t)) && r.week == IsoWeek(DayNumber(t))
  {
    var z := DayNumber(t);
    var d := CivilFromDays(z);
    var year := HistoricalYear(d.year);
    assert Date(AstronomicalYear(year), d.month, d.day) == d;
    TimeRow(t, HourOf(t), d.day, IsoWeek(z), d.month, year, Weekday(z))
  }

  /** Some row of the `times` table has start time t. */
  predicate HasTimeRow(rows: seq<TimeRow>, t: Timestamp) {
    exists r :: r in rows && r.startTime == t
  }

  /** Some 'NextSong' event has start time t. */
  predicate IsQualifyingStartTime(events: seq<StagingEvent>, t: Timestamp) {
    exists e :: e in events && IsNextSong(e) && StartTime(e) == t
  }

  /** The inner `SELECT DISTINCT start_time ... WHERE page = 'NextSong'`. */
  function StartTimes(events: seq<StagingEvent>): seq<Timestamp> {
    Distinct(Map(StartTime, NextSongEvents(events)))
  }

  /** time_table_insert: the rows inserted into `times`. */
  function Times(events: seq<StagingEvent>): seq<TimeRow> {
    Map(TimeRowOf, StartTimes(events))
  }

  lemma StartTimesMembers(events: seq<StagingEvent>, t: Timestamp)
    ensures t in StartTimes(events) <==> exists e :: e in events && IsNextSong(e) && StartTime(e) == t
  {
    MapMembers(StartTime, NextSongEvents(events), t);
  }

  /** No two `times` rows share a start time. */
  lemma TimesStartTimesDistinct(events: seq<StagingEvent>)
    ensures forall i, j | 0 <= i < j < |Times(events)| :: Times(events)[i].startTime != Times(events)[j].startTime
  {
    var ts := StartTimes(events);
    forall i | 0 <= i < |ts|
      ensures Times(events)[i].startTime == ts[i]
    {
    }
  }

  /** The rows of `times` are the distinct start times, decomposed, in the same order. */
  lemma TimesRowAt(events: seq<StagingEvent>, i: int)
    requires 0 <= i < |StartTimes(events)|
    ensures |Times(events)| == |StartTimes(events)|
    ensures Times(events)[i] == TimeRowOf(StartTimes(events)[i])
    ensures Times(events)[i].startTime == StartTimes(events)[i]
  {
  }

  /** A start time of a 'NextSong' event has a `times` row. */
  lemma QualifyingStartTimeHasRow(events: seq<StagingEvent>, t: Timestamp)
    requires IsQualifyingStartTime(events, t)
    ensures HasTimeRow(Times(events), t)
  {
    var ts := StartTimes(events);
    StartTimesMembers(events, t);
    var i :| 0 <= i < |ts| && ts[i] == t;
    TimesRowAt(events, i);
    assert Times(events)[i] in Times(events);
  }

  /** Every `times` row has the start time of some 'NextSong' event. */
  lemma TimeRowIsQualifying(events: seq<StagingEvent>, t: Timestamp)
    requires HasTimeRow(Times(events), t)
    ensures IsQualifyingStartTime(events, t)
  {
    var r :| r in Times(events) && r.startTime == t;
    MapMembers(TimeRowOf, StartTimes(events), r);
    StartTimesMembers(events, t);
  }

  /** `times` has a row for a start time exactly when some 'NextSong' event has that start time. */
  lemma TimesCoverQualifyingStartTimes(events: seq<StagingEvent>, t: Timestamp)
    ensures HasTimeRow(Times(events), t) <==> IsQualifyingStartTime(events, t)
  {
    if IsQualifyingStartTime(events, t) {
      QualifyingStartTimeHasRow(events, t);
    }
    if HasTimeRow(Times(events), t) {
      TimeRowIsQualifying(events, t);
    }
  }

  /** `times` has as many rows as there are distinct start times of 'NextSong' events. */
  lemma TimesCount(events: seq<StagingEvent>)
    ensures |Times(events)| == |set e | e in events && IsNextSong(e) :: StartTime(e)|
  {
    var starts := Map(StartTime, NextSongEvents(events));
    DistinctCardinality(starts);
    forall t
      ensures t in starts <==> t in (set e | e in events && IsNextSong(e) :: StartTime(e))
    {
      MapMembers(StartTime, NextSongEvents(events), t);
    }
    assert (set t | t in starts) == (set e | e in events && IsNextSong(e) :: StartTime(e));
  }

  /** Every `times` row is the calendar decomposition of its own start time. */
  lemma TimesRowsDecompose(events: seq<StagingEvent>, r: TimeRow)
    requires r in Times(events)
    ensures r == TimeRowOf(r.startTime)
  {
  }

  /** Songplays and times use the same conversion, so every song play's start time has a times row. */
  lemma SongplayStartTimesCovered(events: seq<StagingEvent>, songs: seq<StagingSong>, p: Songplay)
    requires p in Songplays(events, songs)
    ensures HasTimeRow(Times(events), p.startTime)
  {
    SongplayOrigin(events, songs, p);
    TimesCoverQualifyingStartTimes(events, p.startTime);
  }

  /** The instant 1541121934796 ms is 2018-11-02 01:25:34.796 UTC, a Friday in ISO week 44. */
  lemma KnownStartTimeDecomposition(ts: int)
    requires ts == 1541121934796
    ensures TimeRowOf(FromEpochMillis(ts)) == TimeRow(Timestamp(1541121934, 796), 1, 2, 44, 11, 2018, 5)
  {
    KnownInstant(ts);
    var z := DayNumber(FromEpochMillis(ts));
    KnownCivilDate(z);
    KnownIsoWeek(z);
  }

  // ---------------------------------------------------------------------------
  // The stage as a whole

  /** The contents of the five derived tables. */
  datatype DerivedTables = DerivedTables(
    songplays: seq<Songplay>,
    users: seq<User>,
    songs: seq<Song>,
    artists: seq<Artist>,
    times: seq<TimeRow>)

  const NoDerivedRows := DerivedTables([], [], [], [], [])

  /** Runs `insert_table_queries` in list order; each `INSERT INTO` appends to its table. */
  function RunInserts(d: DerivedTables, events: seq<StagingEvent>, songs: seq<StagingSong>): (r: DerivedTables)
    ensures |r.songplays| >= |d.songplays| + |NextSongEvents(events)|
    ensures |r.songs| == |d.songs| + |songs|
    ensures d.songplays <= r.songplays && d.users <= r.users && d.songs <= r.songs
    ensures d.artists <= r.artists && d.times <= r.times
  {
    SongplayCount(events, songs);
    d.(songplays := d.songplays + Songplays(events, songs))
     .(users := d.users + Users(events))
     .(songs := d.songs + Songs(songs))
     .(artists := d.artists + Artists(songs))
     .(times := d.times + Times(events))
  }

  /** The songs insert appends exactly the copied staging songs. */
  lemma RunInsertsSongs(d: DerivedTables, events: seq<StagingEvent>, songs: seq<StagingSong>)
    ensures RunInserts(d, events, songs).songs == d.songs + Songs(songs)
  {
  }

  /** Without a reset between runs the inserts are not idempotent: a rerun duplicates every song. */
  lemma RerunWithoutResetDuplicates(events: seq<StagingEvent>, songs: seq<StagingSong>)
    ensures var once := RunInserts(NoDerivedRows, events, songs);
      var twice := RunInserts(once, events, songs);
      && twice.songs == Songs(songs) + Songs(songs)
      && (|songs| > 0 ==> twice != once)
  {
    var once := RunInserts(NoDerivedRows, events, songs);
    RunInsertsSongs(NoDerivedRows, events, songs);
    assert once.songs == Songs(songs) by {
      assert NoDerivedRows.songs == [];
    }
    RerunAppendsSongs(once, events, songs);
  }

  lemma RerunAppendsSongs(once: DerivedTables, events: seq<StagingEvent>, songs: seq<StagingSong>)
    requires once.songs == Songs(songs)
    ensures var twice := RunInserts(once, events, songs);
      && twice.songs == Songs(songs) + Songs(songs)
      && (|songs| > 0 ==> twice != once)
  {
    RunInsertsSongs(once, events, songs);
  }

  /** The staging events of the end-to-end scenario: two song plays and one other action. */
  predicate ScenarioEvents(e10: StagingEvent, e11: StagingEvent, e12: StagingEvent, s: StagingSong) {
    && IsNextSong(e10) && IsNextSong(e11) && !IsNextSong(e12)
    && e10.userId == Some(10) && e11.userId == Some(11) && e12.userId == Some(12)
    && e10.song == Some(s.title) && e10.artist == Some(s.artistName)
    && e11.song != Some(s.title)
  }

  lemma ScenarioNextSongEvents(e10: StagingEvent, e11: StagingEvent, e12: StagingEvent, s: StagingSong)
    requires ScenarioEvents(e10, e11, e12, s)
    ensures NextSongEvents([e10, e11, e12]) == [e10, e11]
  {
    assert [e12][1..] == [];
    assert Filter(IsNextSong, [e12]) == [];
    assert [e11, e12][1..] == [e12];
    assert Filter(IsNextSong, [e11, e12]) == [e11];
    assert [e10, e11, e12][1..] == [e11, e12];
  }

  lemma ScenarioSongplays(e10: StagingEvent, e11: StagingEvent, e12: StagingEvent, s: StagingSong)
    requires ScenarioEvents(e10, e11, e12, s)
    ensures Songplays([e10, e11, e12], [s]) == [SongplayRow(e10, Some(s)), SongplayRow(e11, None)]
  {
    assert [e10, e11, e12] == [e10] + [e11] + [e12];
    SongplaysAppend([e10] + [e11], [e12], [s]);
    SongplaysAppend([e10], [e11], [s]);
    SingleEvent(e10, [s]);
    assert Matches(e10, [s]) == [s] by {
      assert s in Matches(e10, [s]);
    }
    UnmatchedEventYieldsNullRow(e11, [s]);
    OtherPageYieldsNoRow(e12, [s]);
  }

  lemma ScenarioUsers(e10: StagingEvent, e11: StagingEvent, e12: StagingEvent, s: StagingSong)
    requires ScenarioEvents(e10, e11, e12, s)
    ensures Users([e10, e11, e12]) == [UserRow(e10), UserRow(e11)]
  {
    ScenarioNextSongEvents(e10, e11, e12, s);
    var rows := Map(UserRow, [e10, e11]);
    assert rows == [UserRow(e10), UserRow(e11)];
    DistinctOfDistinct(rows);
  }

  /**
   * Two song plays by users 10 and 11, one other action by user 12, and one staging song
   * matching the first play: two songplays rows (one joined, one NULL-extended), two users
   * rows (10 and 11) and at most two times rows.
   */
  lemma EndToEndScenario(e10: StagingEvent, e11: StagingEvent, e12: StagingEvent, s: StagingSong)
    requires ScenarioEvents(e10, e11, e12, s)
    ensures var d := RunInserts(NoDerivedRows, [e10, e11, e12], [s]);
      && |d.songplays| == 2
      && d.songplays[0].songId == Some(s.songId) && d.songplays[0].artistId == Some(s.artistId)
      && d.songplays[1].songId == None && d.songplays[1].artistId == None
      && |d.users| == 2 && d.users[0].userId == Some(10) && d.users[1].userId == Some(11)
      && |d.times| <= 2
  {
    ScenarioSongplays(e10, e11, e12, s);
    ScenarioUsers(e10, e11, e12, s);
    ScenarioNextSongEvents(e10, e11, e12, s);
  }
}
