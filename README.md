# Star-schema ETL job: transform stage and schema lifecycle

This project models the SQL of a Redshift ETL job that loads a music-streaming service's
listening logs and song catalog into a star schema. Two parts of `sql_queries.py` are modelled
and proved.

- **The transform stage.** There are five `INSERT ... SELECT` statements. They derive the
  `songplays` fact table and the `users`, `songs`, `artists` and `times` dimensions from the
  two staging tables. Each is a pure function from staging rows to inserted rows:
  - A table is a sequence of rows.
  - A nullable column is an `Option`.
  - Comparisons use SQL's three-valued logic.
  - `SELECT DISTINCT` keeps the first occurrence of each tuple.
  - `LEFT JOIN` is a flat map over the outer table.
  - SQL fixes no row order, so the properties speak of membership, multiplicity and row counts.
- **The schema lifecycle.** The `drop_table_queries` and `create_table_queries` lists act on a
  catalog, which is a set of table names. A `Warehouse` class executes them one statement at
  a time in a loop. `Run`, a recursive function, specifies it.

Modules:

- `Sql` holds the SQL fragment the queries use.
- `Calendar` holds the epoch-milliseconds conversion and UTC calendar arithmetic. It converts
  day numbers to civil dates, and computes hour, weekday (0 = Sunday) and ISO 8601 week.
- `Schema` holds the row types of the seven tables.
- `Transform` holds the five inserts.
- `Lifecycle` holds the DDL state machine.

Time representation:

- `ts` is an integer count of epoch milliseconds.
- `start_time` is the exact instant `ts / 1000` seconds after the epoch. It is a `Timestamp`
  of floored seconds plus leftover milliseconds, so no rounding happens.
- Songplays and times use this same conversion.

## Model

| member | source | states |
|---|---|---|
| Sql.Equal | sql_queries.py:153 | `a = b` is TRUE exactly when both sides are non-NULL and equal, and UNKNOWN exactly when a side is NULL |
| Sql.And | sql_queries.py:153 | `AND` is TRUE exactly when both operands are TRUE, and FALSE exactly when one is FALSE |
| Sql.Filter | sql_queries.py:154 | `WHERE` keeps exactly the rows satisfying the condition, never adds rows, and yields nothing when no row qualifies |
| Sql.FilterMultiplicity | sql_queries.py:154 | a qualifying row is kept as many times as the table holds it; other rows are dropped |
| Sql.Map | sql_queries.py:178 | a projection gives one output row per input row, in order |
| Sql.MapMembers | sql_queries.py:178 | a projected row is the image of some input row, and every input row's image is present |
| Sql.Distinct | sql_queries.py:164 | `SELECT DISTINCT` has no duplicate rows and holds exactly the values of its input |
| Sql.DistinctCardinality | sql_queries.py:164 | `SELECT DISTINCT` has one row per distinct input value |
| Sql.DistinctOfDistinct | sql_queries.py:164 | `SELECT DISTINCT` leaves a duplicate-free table unchanged |
| Sql.FlatMapMembers | sql_queries.py:152-153 | a row of a join driven by an outer table comes from some outer row, and every row an outer row yields is output |
| Sql.FlatMapIgnoresFiltered | sql_queries.py:152-154 | filtering the outer table first changes nothing when the dropped rows yield nothing |
| Sql.FlatMapCount | sql_queries.py:152-154 | when every qualifying outer row yields at least one row, the output is at least as long as the qualifying rows; exactly as long when each yields one |
| Calendar.FromEpochMillis | sql_queries.py:144 | the start time is the instant whose whole seconds bracket `ts` milliseconds, with the leftover milliseconds kept: seconds × 1000 + milliseconds is `ts` |
| Calendar.EpochMillisRoundTrip | sql_queries.py:144 | converting to an instant and back returns `ts`, and every valid instant is the conversion of its milliseconds |
| Calendar.FromEpochMillisInjective | sql_queries.py:210-211 | two events have the same `start_time` exactly when their `ts` values are equal |
| Calendar.DaysInYear | sql_queries.py:207 | a Gregorian year has 365 or 366 days |
| Calendar.YearStep | sql_queries.py:207 | consecutive year starts differ by the length of the year |
| Calendar.DaysBeforeYearMonotone | sql_queries.py:207 | later years start on later days |
| Calendar.YearUnique | sql_queries.py:207 | at most one year contains a given day |
| Calendar.YearOfDay | sql_queries.py:207 | the astronomical year (0 is 1 BC) whose span contains the day; `Transform.TimeRowOf` renumbers it as `extract(year)` does |
| Calendar.HistoricalYear | sql_queries.py:207 | `extract(year)` has no year 0: years from 1 on are kept, year 0 becomes -1 and earlier years move down by one, so the result is never 0 |
| Calendar.YearNumberingRoundTrip | sql_queries.py:207 | the renumbering and its inverse undo each other, year 0 maps to -1, and the renumbering keeps the order of years |
| Calendar.DaysInMonth | sql_queries.py:204 | a month has 28 to 31 days |
| Calendar.MonthStep | sql_queries.py:206 | consecutive month starts differ by the length of the month |
| Calendar.MonthContaining | sql_queries.py:206 | `extract(month)` is the month whose span contains the day of the year |
| Calendar.MonthUnique | sql_queries.py:206 | at most one month contains a given day of the year |
| Calendar.CivilFromDays | sql_queries.py:204-207 | every day number decomposes into a valid date that numbers back to the same day |
| Calendar.CivilRoundTrip | sql_queries.py:204-207 | every valid date is the decomposition of its own day number |
| Calendar.CivilFromDaysCharacterized | sql_queries.py:204-207 | day z decomposes to d exactly when d is a valid date numbered z |
| Calendar.HourOf | sql_queries.py:203 | `extract(hour)` is in 0..23 and is the hour of the day that brackets the instant |
| Calendar.Weekday | sql_queries.py:208 | `extract(weekday)` is in 0..6, with 0 = Sunday |
| Calendar.WeekdayPeriodic | sql_queries.py:208 | 1970-01-01 (day 0) was a Thursday (4); the weekday advances by one each day and repeats every seven days |
| Calendar.IsoWeekday | sql_queries.py:205 | the ISO weekday is in 1..7 and agrees with `weekday`, with Sunday as 7 |
| Calendar.WeekThursday | sql_queries.py:205 | each Monday-to-Sunday week has a Thursday within three days of each of its days |
| Calendar.IsoWeek | sql_queries.py:205 | `extract(week)` is in 1..53 |
| Calendar.IsoWeekOfJanuaryFourth | sql_queries.py:205 | January 4th is always in ISO week 1 |
| Calendar.IsoWeekConstantWithinWeek | sql_queries.py:205 | Monday to Sunday of one week share their ISO week number |
| Calendar.KnownInstant | sql_queries.py:203-208 | 1541121934796 ms is 01:25:34.796 on day 17837, a Friday |
| Calendar.KnownCivilDate | sql_queries.py:204-207 | day 17837 is 2018-11-02 |
| Calendar.KnownIsoWeek | sql_queries.py:205 | day 17837 falls in ISO week 44 |
| Transform.NextSongEvents | sql_queries.py:154 | the song-play filter keeps exactly the events whose page is 'NextSong' |
| Transform.StartTime | sql_queries.py:144 | an event's `start_time` is a valid instant whose epoch milliseconds are its `ts` |
| Transform.JoinOn | sql_queries.py:153 | an event joins a staging song exactly when its song equals the title and its artist equals the artist name; a NULL side never joins |
| Transform.Matches | sql_queries.py:153 | the matches of an event are exactly the joining staging songs, and none when its song or artist is NULL |
| Transform.MatchMultiplicity | sql_queries.py:153 | a joining staging song is matched as often as the staging table holds it |
| Transform.SongplayRow | sql_queries.py:143-151 | the selected columns of one event and its joined song; its properties are stated by Transform.JoinedRowOrigin, Transform.UnmatchedEventYieldsNullRow and Transform.MatchedEventYieldsRowPerMatch |
| Transform.Songplays | sql_queries.py:132-155 | songplay_table_insert; its properties are stated by Transform.SongplayOrigin, Transform.SongplayCompleteness, Transform.SongplayCount, Transform.SongplaysIgnoreOtherPages and Transform.SongplaysAppend |
| Transform.Users | sql_queries.py:157-174 | user_table_insert; its properties are stated by Transform.UsersAreDistinctUserTuples and Transform.UserIdCanRepeat |
| Transform.Songs | sql_queries.py:176-179 | song_table_insert; its properties are stated by Transform.SongsCopyStaging and Transform.SongIdsUniqueIffStagingUnique |
| Transform.Artists | sql_queries.py:181-189 | artist_table_insert; its properties are stated by Transform.ArtistsAreDistinctArtistTuples and Transform.ArtistIdCanRepeat |
| Transform.StartTimes | sql_queries.py:209-214 | the inner `SELECT DISTINCT` of start times; its properties are stated by Transform.StartTimesMembers and Transform.TimesCount |
| Transform.Times | sql_queries.py:191-215 | time_table_insert; its properties are stated by Transform.TimesCoverQualifyingStartTimes, Transform.TimesStartTimesDistinct, Transform.TimesCount, Transform.TimesRowsDecompose and Transform.SongplayStartTimesCovered |
| Transform.JoinedRows | sql_queries.py:153 | the left join gives every event at least one row |
| Transform.JoinedRowOrigin | sql_queries.py:143-153 | each joined row copies its event's columns and takes its song ids from a joining song, or NULL when none joins |
| Transform.SongplayOrigin | sql_queries.py:132-155 | every songplays row comes from a 'NextSong' event, carries its start time, user id, level, session id, location and user agent, and takes its song and artist ids from a joining staging song or is NULL |
| Transform.SongplaysAppend | sql_queries.py:152-154 | splitting the staging events in two yields the rows of each part, in order |
| Transform.SongplaysIgnoreOtherPages | sql_queries.py:154 | filtering to 'NextSong' first gives the same rows: other pages contribute nothing |
| Transform.SingleEvent | sql_queries.py:152-154 | a single event yields its joined rows when it is a 'NextSong' event, and nothing otherwise |
| Transform.OtherPageYieldsNoRow | sql_queries.py:154 | an event with any other page yields no row |
| Transform.UnmatchedEventYieldsNullRow | sql_queries.py:143-153 | a 'NextSong' event with no joining staging song yields exactly one row, with NULL song and artist ids and its own other columns |
| Transform.NullKeyNeverMatches | sql_queries.py:153 | an event whose song or artist is NULL joins no staging song and yields one NULL-extended row |
| Transform.MatchedEventYieldsRowPerMatch | sql_queries.py:143-153 | an event with k joining staging songs yields k rows, the i-th carrying the i-th match's ids; each joining song is matched with its multiplicity |
| Transform.SongplayCompleteness | sql_queries.py:152-154 | for each 'NextSong' event, every joining staging song gives a row, and the NULL row is present when none joins |
| Transform.SameKeySameRow | sql_queries.py:153 | with unique (title, artist name) keys, two songs with equal keys are the same row |
| Transform.AtMostOneMatch | sql_queries.py:153 | with unique (title, artist name) keys, an event joins at most one staging song |
| Transform.SongplayCount | sql_queries.py:132-155 | songplays has at least one row per 'NextSong' event, and exactly one per event when staging song keys are unique |
| Transform.UsersAreDistinctUserTuples | sql_queries.py:157-174 | users holds exactly the distinct (userId, firstName, lastName, gender, level) tuples of 'NextSong' events, each once |
| Transform.UserIdCanRepeat | sql_queries.py:75 | the declared primary key does not collapse rows: two levels give two rows with one user id |
| Transform.SongsCopyStaging | sql_queries.py:176-179 | songs has one row per staging song, in order, with its five columns copied verbatim |
| Transform.SongIdsUniqueIffStagingUnique | sql_queries.py:176-179 | song ids are unique in songs exactly when they are unique in staging songs |
| Transform.ArtistsAreDistinctArtistTuples | sql_queries.py:181-189 | artists has no duplicate tuples, holds every staging song's artist tuple and nothing else, and has no more rows than staging songs |
| Transform.ArtistIdCanRepeat | sql_queries.py:93 | two staging songs by one artist id with different locations give two artists rows with that id |
| Transform.TimeRowOf | sql_queries.py:201-208 | each times row keeps its start time; its hour, day, month, weekday and week are the UTC decomposition of that instant, within their bounds; its year is never 0 and, converted back to the astronomical year, names with the month and day a valid date that is the instant's day |
| Transform.StartTimesMembers | sql_queries.py:210-213 | the distinct start times are exactly those of 'NextSong' events |
| Transform.TimesRowAt | sql_queries.py:201-214 | the i-th times row decomposes the i-th distinct start time |
| Transform.TimesStartTimesDistinct | sql_queries.py:210 | no two times rows share a start time |
| Transform.QualifyingStartTimeHasRow | sql_queries.py:209-214 | every start time of a 'NextSong' event has a times row |
| Transform.TimeRowIsQualifying | sql_queries.py:209-214 | every times row has the start time of some 'NextSong' event |
| Transform.TimesCoverQualifyingStartTimes | sql_queries.py:209-214 | a start time has a times row exactly when a 'NextSong' event has that start time |
| Transform.TimesCount | sql_queries.py:209-214 | times has one row per distinct start time of 'NextSong' events |
| Transform.TimesRowsDecompose | sql_queries.py:201-208 | every times row is the decomposition of its own start time |
| Transform.SongplayStartTimesCovered | sql_queries.py:144 | songplays and times share the conversion, so every song play's start time has a times row |
| Transform.KnownStartTimeDecomposition | sql_queries.py:201-211 | 1541121934796 ms decomposes to 2018-11-02, hour 1, ISO week 44, weekday 5 |
| Transform.RunInserts | sql_queries.py:222 | running the inserts only appends: every table keeps its old rows as a prefix; songplays gains at least one row per 'NextSong' event, and songs exactly one row per staging song |
| Transform.RunInsertsSongs | sql_queries.py:176-179 | the songs insert appends exactly the copied staging songs |
| Transform.RerunAppendsSongs | sql_queries.py:222 | running the inserts on tables whose songs are already the copied staging songs doubles them, so the tables change |
| Transform.RerunWithoutResetDuplicates | sql_queries.py:222 | rerunning the inserts without a reset duplicates the songs rows, so the inserts are not idempotent |
| Transform.ScenarioNextSongEvents | sql_queries.py:154 | in the scenario, the filter keeps the two song plays |
| Transform.ScenarioSongplays | sql_queries.py:132-155 | in the scenario, songplays is one joined row then one NULL-extended row |
| Transform.ScenarioUsers | sql_queries.py:157-174 | in the scenario, users gets the two song-playing users |
| Transform.EndToEndScenario | sql_queries.py:132-215 | two plays (one matching a staging song) and one other action give two songplays rows (joined, then NULL), users 10 and 11, and at most two times rows |
| Lifecycle.DropTableQueries | sql_queries.py:220 | seven `DROP TABLE IF EXISTS` statements; Lifecycle.DropListTables and Lifecycle.DropListNeverFails state that they name the seven tables and never fail |
| Lifecycle.CreateTableQueries | sql_queries.py:219 | seven creates, plain for the two staging tables (statements 0 and 1) and `IF NOT EXISTS` for the rest; Lifecycle.CreateListTables, Lifecycle.CreateListFromClean and Lifecycle.CreateListFails state what they name and when they fail |
| Lifecycle.Apply | sql_queries.py:10-112 | a statement fails exactly when it is a plain `CREATE TABLE` of an existing table; otherwise its table exists exactly when it is a create, and no other table changes |
| Lifecycle.Run | sql_queries.py:219-220 | a failed run names a statement of the list, and that statement fails on the catalog it left |
| Lifecycle.RunAppend | sql_queries.py:219-220 | running two lists in turn is running the first, then the second from where it stopped |
| Lifecycle.RunPrefixStep | sql_queries.py:219-220 | running one more statement extends the completed prefix, or fails at that statement |
| Lifecycle.RunPrefixFails | sql_queries.py:219-220 | a failure in a prefix is the failure of the whole list |
| Lifecycle.TablesCons | sql_queries.py:219-220 | the tables a list names are its first statement's table plus those of the rest |
| Lifecycle.DropsNeverFail | sql_queries.py:10-16 | a list of `DROP TABLE IF EXISTS` never fails and removes exactly the tables it names |
| Lifecycle.CreatesSucceed | sql_queries.py:21-112 | a list of creates whose plain creates name tables absent from the catalog and from earlier statements succeeds and adds exactly its tables |
| Lifecycle.DropListTables | sql_queries.py:220 | `drop_table_queries` names exactly the seven tables |
| Lifecycle.CreateListTables | sql_queries.py:219 | `create_table_queries` names exactly the seven tables |
| Lifecycle.DropListNeverFails | sql_queries.py:220 | `drop_table_queries` never fails from any catalog and removes exactly the seven tables |
| Lifecycle.CreateListFromClean | sql_queries.py:219 | `create_table_queries` without the staging tables present succeeds and adds the seven tables |
| Lifecycle.CreateListFails | sql_queries.py:22-45 | `create_table_queries` alone fails exactly when a staging table exists: at statement 0 when `staging_events` exists, else at statement 1 |
| Lifecycle.ResetSucceeds | sql_queries.py:219-220 | dropping then creating every table never fails and leaves the seven tables, plus any tables the job does not manage |
| Lifecycle.ResetLeavesExactlyManagedTables | sql_queries.py:219-220 | from a catalog holding only the job's tables, a reset leaves exactly the seven tables |
| Lifecycle.ResetIdempotent | sql_queries.py:219-220 | a second reset leaves the catalog of the first |
| Lifecycle.Warehouse.constructor | sql_queries.py:219-220 | a warehouse starts with the given catalog |
| Lifecycle.Warehouse.Execute | sql_queries.py:10-112 | executing a statement succeeds exactly when `Apply` does, and updates the catalog to its result or leaves it unchanged |
| Lifecycle.Warehouse.ExecuteAll | sql_queries.py:219-220 | the loop stops at the first failing statement, and its catalog and failing index are those `Run` gives |
| Lifecycle.Warehouse.Reset | sql_queries.py:219-220 | dropping then creating every table never fails and adds the seven tables to the catalog |

## Left out

- Configuration loading (`sql_queries.py:1-6`, `115-118`). This is file I/O and has no logic to model.
- The `COPY` statements (`sql_queries.py:120-128`). Bulk loading from object storage, the JSON
  path mapping, IAM roles and regions are engine behaviour. The staging tables are inputs of
  the transform functions instead.
- `SORTKEY`/`DISTKEY` and the `identity(0,1)` surrogate columns (`sql_queries.py:61`, `103`).
  These are physical layout and engine-generated values. `Songplay` and `TimeRow` leave the
  identity column out.
- Column widths, the storage of `start_time` as `VARCHAR(100)` and `NOT NULL` rejection. The
  model does not capture that the engine rejects a whole insert when a selected value is NULL
  in a `NOT NULL` column (for example a NULL `userAgent` for `songplays`), or too wide for its
  column.
- Transform.JoinOn: string equality is exact, character by character. The engine ignores
  trailing blanks when it compares `VARCHAR`/`CHAR` values and blank-pads the `CHAR` columns
  (`gender`, `artist_id`, `song_id`). That rule is not modelled, so an event whose `song` differs
  from a title only by trailing blanks does not join here. The same holds for the
  `page = 'NextSong'` test and for the `SELECT DISTINCT` of users and artists.
- Calendar.FromEpochMillis: every integer `ts` is taken as a valid instant. The engine's bounded
  timestamp range is not modelled, nor the error that makes an insert fail for a `ts` outside it.
  `Transform.TimeRowOf` likewise decomposes every instant.
- `numeric` columns other than `ts` (`length`, `registration`, `duration`) are carried
  as exact rationals and never computed with. `ts` is taken to hold whole milliseconds, so no
  fractional arithmetic appears.
- Row order of the derived tables. `Distinct` keeps first occurrences and `Songplays` follows
  the staging event order. SQL promises neither, so no contract relies on them beyond index
  correspondence with the model's own sequences.
- Primary keys (`sql_queries.py:75`, `84`, `93`) are declared but, as in Redshift, not
  enforced: `Users`, `Songs` and `Artists` do not collapse rows that share a key. In
  particular, the code does not give one songs or artists row per id.
- `Lifecycle.Apply`: a `DROP TABLE IF EXISTS` that the engine refuses because of dependent
  objects, or any permission or connection failure, is not modelled; only the
  exists/not-exists conditions decide a DDL statement's outcome.
- Connection handling, transactions, commits and concurrency belong to the runner and driver, which are not part of
  this model. A failing statement is taken to leave the catalog as the earlier statements
  left it.
