/**
 * The schema lifecycle: the `drop_table_queries` and `create_table_queries` lists run one
 * statement at a time against the warehouse catalog, the set of table names that exist.
 * `DROP TABLE IF EXISTS` always succeeds; `CREATE TABLE IF NOT EXISTS` succeeds and adds the
 * table when it is missing; a plain `CREATE TABLE` fails when the table already exists. A
 * failing statement stops the run and leaves the catalog as the earlier statements left it.
 */
module Lifecycle {
  import opened Sql

  /** A DDL statement of the two lists. */
  datatype Statement =
    | DropTableIfExists(table: string)
    | CreateTable(table: string, ifNotExists: bool)

  /** The names of the tables that exist. */
  type Catalog = set<string>

  const StagingEvents := "staging_events"
  const StagingSongs := "staging_songs"
  const SongplaysTable := "songplays"
  const UsersTable := "users"
  const SongsTable := "songs"
  const ArtistsTable := "artists"
  const TimesTable := "times"

  /** The seven tables the job manages. */
  const ManagedTables: Catalog :=
    {StagingEvents, StagingSongs, SongplaysTable, UsersTable, SongsTable, ArtistsTable, TimesTable}

  /** `drop_table_queries`, in list order: seven `DROP TABLE IF EXISTS` statements. */
  function DropTableQueries(): (q: seq<Statement>)
    ensures |q| == 7
    ensures forall i | 0 <= i < |q| :: q[i].DropTableIfExists?
  {
    [
      DropTableIfExists(StagingEvents),
      DropTableIfExists(StagingSongs),
      DropTableIfExists(SongplaysTable),
      DropTableIfExists(UsersTable),
      DropTableIfExists(SongsTable),
      DropTableIfExists(ArtistsTable),
      DropTableIfExists(TimesTable)
    ]
  }

  /**
   * `create_table_queries`, in list order: the two staging tables are created without
   * `IF NOT EXISTS`, the five star-schema tables with it.
   */
  function CreateTableQueries(): (q: seq<Statement>)
    ensures |q| == 7
    ensures forall i | 0 <= i < |q| :: q[i].CreateTable? && (q[i].ifNotExists <==> i >= 2)
    ensures q[0].table == StagingEvents && q[1].table == StagingSongs
  {
    [
      CreateTable(StagingEvents, false),
      CreateTable(StagingSongs, false),
      CreateTable(SongplaysTable, true),
      CreateTable(UsersTable, true),
      CreateTable(SongsTable, true),
      CreateTable(ArtistsTable, true),
      CreateTable(TimesTable, true)
    ]
  }

  /** `drop_table_queries` followed by `create_table_queries`: a clean-slate reset. */
  const ResetQueries: seq<Statement> := DropTableQueries() + CreateTableQueries()

  /**
   * The effect of one statement: the new catalog, or None when the statement fails. Only the
   * statement's own table can change.
   */
  function Apply(c: Catalog, s: Statement): (r: Option<Catalog>)
    ensures r.None? <==> s.CreateTable? && !s.ifNotExists && s.table in c
    ensures r.Some? ==> (s.table in r.value <==> s.CreateTable?)
    ensures r.Some? ==> r.value - {s.table} == c - {s.table}
  {
    match s
    case DropTableIfExists(t) => Some(c - {t})
    case CreateTable(t, ifNotExists) =>
      if t in c then (if ifNotExists then Some(c) else None)
      else Some(c + {t})
  }

  /** How a run of statements ends: with the final catalog, or at the failing statement. */
  datatype Outcome =
    | Completed(catalog: Catalog)
    | Failed(index: nat, catalog: Catalog)

  /** An outcome with its failing index moved k statements later. */
  function Shift(o: Outcome, k: nat): Outcome {
    match o
    case Completed(c) => o
    case Failed(i, c) => Failed(i + k, c)
  }

  /** Runs the statements in order, stopping at the first that fails. */
  function Run(c: Catalog, stmts: seq<Statement>): (r: Outcome)
    ensures r.Failed? ==> r.index < |stmts|
    ensures r.Failed? ==> Apply(r.catalog, stmts[r.index]).None?
    decreases |stmts|
  {
    if |stmts| == 0 then Completed(c)
    else
      match Apply(c, stmts[0])
      case None => Failed(0, c)
      case Some(c') => Shift(Run(c', stmts[1..]), 1)
  }

  /** Running a + b is running a, then b from where a left the catalog. */
  lemma {:induction false} RunAppend(c: Catalog, a: seq<Statement>, b: seq<Statement>)
    ensures Run(c, a + b) == match Run(c, a)
      case Completed(c') => Shift(Run(c', b), |a|)
      case Failed(i, c') => Failed(i, c')
    decreases |a|
  {
    if |a| == 0 {
      assert a + b == b;
      match Run(c, b)
      case Completed(_) =>
      case Failed(_, _) =>
    } else {
      assert (a + b)[0] == a[0];
      assert (a + b)[1..] == a[1..] + b;
      match Apply(c, a[0])
      case None =>
      case Some(c') =>
        RunAppend(c', a[1..], b);
    }
  }

  /** The run of a prefix one statement longer. */
  lemma RunPrefixStep(c: Catalog, stmts: seq<Statement>, i: nat, c': Catalog)
    requires i < |stmts|
    requires Run(c, stmts[..i]) == Completed(c')
    ensures Run(c, stmts[..i + 1]) == match Apply(c', stmts[i])
      case None => Failed(i, c')
      case Some(c'') => Completed(c'')
  {
    assert stmts[..i + 1] == stmts[..i] + [stmts[i]];
    RunAppend(c, stmts[..i], [stmts[i]]);
    assert [stmts[i]][1..] == [];
  }

  /** A failure within a prefix is the failure of the whole run. */
  lemma RunPrefixFails(c: Catalog, stmts: seq<Statement>, i: nat)
    requires i <= |stmts|
    requires Run(c, stmts[..i]).Failed?
    ensures Run(c, stmts) == Run(c, stmts[..i])
  {
    assert stmts == stmts[..i] + stmts[i..];
    RunAppend(c, stmts[..i], stmts[i..]);
  }

  /** The tables a list of statements names. */
  function Tables(stmts: seq<Statement>): set<string> {
    set s | s in stmts :: s.table
  }

  lemma TablesCons(stmts: seq<Statement>)
    requires |stmts| > 0
    ensures Tables(stmts) == {stmts[0].table} + Tables(stmts[1..])
  {
    assert forall s :: s in stmts <==> s == stmts[0] || s in stmts[1..] by {
      assert stmts == [stmts[0]] + stmts[1..];
    }
  }

  /** A list of drops never fails and removes exactly the tables it names. */
  lemma {:induction false} DropsNeverFail(c: Catalog, stmts: seq<Statement>)
    requires forall i | 0 <= i < |stmts| :: stmts[i].DropTableIfExists?
    ensures Run(c, stmts) == Completed(c - Tables(stmts))
    decreases |stmts|
  {
    if |stmts| > 0 {
      TablesCons(stmts);
      DropsNeverFail(c - {stmts[0].table}, stmts[1..]);
    }
  }

  /**
   * A list of creates succeeds when each plain `CREATE TABLE` names a table that neither the
   * catalog nor an earlier statement of the list holds; it adds exactly the tables it names.
   */
  predicate CreatableFrom(c: Catalog, stmts: seq<Statement>) {
    forall i | 0 <= i < |stmts| ::
      && stmts[i].CreateTable?
      && (stmts[i].ifNotExists
          || (stmts[i].table !in c && forall j | 0 <= j < i :: stmts[j].table != stmts[i].table))
  }

  lemma {:induction false} CreatesSucceed(c: Catalog, stmts: seq<Statement>)
    requires CreatableFrom(c, stmts)
    ensures Run(c, stmts) == Completed(c + Tables(stmts))
    decreases |stmts|
  {
    if |stmts| > 0 {
      var c' := c + {stmts[0].table};
      assert Apply(c, stmts[0]) == Some(c') by {
        if stmts[0].table in c {
          assert c' == c;
        }
      }
      forall i | 0 <= i < |stmts[1..]|
        ensures
          && stmts[1..][i].CreateTable?
          && (stmts[1..][i].ifNotExists
              || (stmts[1..][i].table !in c'
                  && forall j | 0 <= j < i :: stmts[1..][j].table != stmts[1..][i].table))
      {
        assert stmts[1..][i] == stmts[i + 1];
        if !stmts[i + 1].ifNotExists {
          assert stmts[0].table != stmts[i + 1].table;
          forall j | 0 <= j < i
            ensures stmts[1..][j].table != stmts[1..][i].table
          {
            assert stmts[1..][j] == stmts[j + 1];
          }
        }
      }
      CreatesSucceed(c', stmts[1..]);
      TablesCons(stmts);
    }
  }

  lemma DropListTables()
    ensures Tables(DropTableQueries()) == ManagedTables
  {
    var d := DropTableQueries();
    assert d[0].table == StagingEvents && d[1].table == StagingSongs && d[2].table == SongplaysTable;
    assert d[3].table == UsersTable && d[4].table == SongsTable && d[5].table == ArtistsTable;
    assert d[6].table == TimesTable;
  }

  lemma CreateListTables()
    ensures Tables(CreateTableQueries()) == ManagedTables
  {
    var d := CreateTableQueries();
    assert d[0].table == StagingEvents && d[1].table == StagingSongs && d[2].table == SongplaysTable;
    assert d[3].table == UsersTable && d[4].table == SongsTable && d[5].table == ArtistsTable;
    assert d[6].table == TimesTable;
  }

  /** `drop_table_queries` never fails, from any catalog, and removes exactly the managed tables. */
  lemma DropListNeverFails(c: Catalog)
    ensures Run(c, DropTableQueries()) == Completed(c - ManagedTables)
  {
    DropsNeverFail(c, DropTableQueries());
    DropListTables();
  }

  /** `create_table_queries` run on a catalog without the staging tables adds all seven tables. */
  lemma CreateListFromClean(c: Catalog)
    requires StagingEvents !in c && StagingSongs !in c
    ensures Run(c, CreateTableQueries()) == Completed(c + ManagedTables)
  {
    assert StagingEvents != StagingSongs;
    CreatesSucceed(c, CreateTableQueries());
    CreateListTables();
  }

  /**
   * `create_table_queries` alone fails exactly when a staging table already exists: at the
   * first statement when `staging_events` exists, otherwise at the second, after creating
   * `staging_events`.
   */
  lemma CreateListFails(c: Catalog)
    ensures Run(c, CreateTableQueries()).Failed? <==> StagingEvents in c || StagingSongs in c
    ensures StagingEvents in c ==> Run(c, CreateTableQueries()) == Failed(0, c)
    ensures StagingEvents !in c && StagingSongs in c ==>
      Run(c, CreateTableQueries()) == Failed(1, c + {StagingEvents})
  {
    var q := CreateTableQueries();
    if StagingEvents !in c {
      if StagingSongs in c {
        var c' := c + {StagingEvents};
        assert Apply(c, q[0]) == Some(c');
        assert StagingSongs in c';
        assert q[1..][0] == q[1];
        assert Run(c', q[1..]) == Failed(0, c');
      } else {
        CreateListFromClean(c);
      }
    }
  }

  /** Dropping every table and then creating every table never fails, from any catalog. */
  lemma ResetSucceeds(c: Catalog)
    ensures Run(c, ResetQueries) == Completed(c + ManagedTables)
  {
    RunAppend(c, DropTableQueries(), CreateTableQueries());
    DropListNeverFails(c);
    CreateListFromClean(c - ManagedTables);
    assert (c - ManagedTables) + ManagedTables == c + ManagedTables;
  }

  /** On a catalog holding only the job's tables, a reset leaves exactly the seven tables. */
  lemma ResetLeavesExactlyManagedTables(c: Catalog)
    requires c <= ManagedTables
    ensures Run(c, ResetQueries) == Completed(ManagedTables)
  {
    ResetSucceeds(c);
    assert c + ManagedTables == ManagedTables;
  }

  /** A second reset leaves the catalog the first one produced. */
  lemma ResetIdempotent(c: Catalog)
    ensures Run(Run(c, ResetQueries).catalog, ResetQueries) == Run(c, ResetQueries)
  {
    ResetSucceeds(c);
    ResetSucceeds(c + ManagedTables);
    assert c + ManagedTables + ManagedTables == c + ManagedTables;
  }

  /** The warehouse whose catalog the DDL statements change. */
  class Warehouse {
    var tables: Catalog

    constructor(initial: Catalog)
      ensures tables == initial
    {
      tables := initial;
    }

    /** Executes one statement; on failure the catalog is unchanged. */
    method Execute(s: Statement) returns (ok: bool)
      modifies this
      ensures ok <==> Apply(old(tables), s).Some?
      ensures tables == if ok then Apply(old(tables), s).value else old(tables)
    {
      var r := Apply(tables, s);
      if r.Some? {
        tables := r.value;
        ok := true;
      } else {
        ok := false;
      }
    }

    /**
     * Executes the statements in order and stops at the first failure, returning its index.
     * The final catalog and the index are those Run gives.
     */
    method ExecuteAll(stmts: seq<Statement>) returns (failedAt: Option<nat>)
      modifies this
      ensures Run(old(tables), stmts)
           == if failedAt.None? then Completed(tables) else Failed(failedAt.value, tables)
    {
      ghost var initial := tables;
      failedAt := None;
      var i := 0;
      while i < |stmts|
        invariant 0 <= i <= |stmts|
        invariant Run(initial, stmts[..i]) == Completed(tables)
      {
        ghost var before := tables;
        var ok := Execute(stmts[i]);
        RunPrefixStep(initial, stmts, i, before);
        if !ok {
          failedAt := Some(i);
          RunPrefixFails(initial, stmts, i + 1);
          return;
        }
        i := i + 1;
      }
      assert stmts[..i] == stmts;
    }

    /** Runs `drop_table_queries`, then `create_table_queries`; this never fails. */
    method Reset() returns (failedAt: Option<nat>)
      modifies this
      ensures failedAt.None?
      ensures tables == old(tables) + ManagedTables
    {
      ResetSucceeds(tables);
      failedAt := ExecuteAll(ResetQueries);
    }
  }
}
