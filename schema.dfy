/**
 * Row types of the seven tables of the star schema: the two staging tables the bulk loads
 * fill, and the fact and dimension tables the transform stage derives from them. Nullable
 * columns are `Option`s; `numeric` columns are exact rationals; `varchar`/`char` columns
 * are strings (their declared widths are not modelled).
 */
module Schema {
  import opened Sql
  import opened Calendar

  /** One row of `staging_events`: a user-activity log record. `ts` is epoch milliseconds. */
  datatype StagingEvent = StagingEvent(
    artist: Option<string>,
    auth: string,
    firstName: Option<string>,
    gender: Option<string>,
    itemInSession: int,
    lastName: Option<string>,
    length: Option<real>,
    level: string,
    location: Option<string>,
    httpMethod: string,  // the `method` column
    page: string,
    registration: Option<real>,
    sessionId: int,
    song: Option<string>,
    status: int,
    ts: int,
    userAgent: Option<string>,
    userId: Option<int>)

  /** One row of `staging_songs`: a song-catalog record. */
  datatype StagingSong = StagingSong(
    numSongs: int,
    artistId: string,
    artistLatitude: Option<string>,
    artistLongitude: Option<string>,
    artistLocation: Option<string>,
    artistName: string,
    songId: string,
    title: string,
    duration: real,
    year: int)

  /** One row of the `songplays` fact table (without its identity column). */
  datatype Songplay = Songplay(
    startTime: Timestamp,
    userId: Option<int>,
    level: string,
    songId: Option<string>,
    artistId: Option<string>,
    sessionId: int,
    location: Option<string>,
    userAgent: Option<string>)

  /** One row of the `users` dimension. */
  datatype User = User(
    userId: Option<int>,
    firstName: Option<string>,
    lastName: Option<string>,
    gender: Option<string>,
    level: string)

  /** One row of the `songs` dimension. */
  datatype Song = Song(songId: string, title: string, artistId: string, year: int, duration: real)

  /** One row of the `artists` dimension. */
  datatype Artist = Artist(
    artistId: string,
    name: string,
    location: Option<string>,
    latitude: Option<string>,
    longitude: Option<string>)

  /** One row of the `times` dimension (without its identity column). */
  datatype TimeRow = TimeRow(
    startTime: Timestamp,
    hour: int,
    day: int,
    week: int,
    month: int,
    year: int,
    weekday: int)
}
