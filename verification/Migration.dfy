/**
  `migrate` runs outside any transaction: each DROP, CREATE and INSERT commits on its
  own, so a crash can leave the file between any two of them. This module says which
  statements a reopen runs, what each does, and proves that however often the sequence
  is cut short, the next completed reopen ends exactly where an uninterrupted one would.
 */
module Migration {
  import opened Wrappers
  import opened Schema

  const SCHEMA_VERSION := "3"
  const SCHEMA: nat := 3

  datatype DataTable = AddressTxs | TxTypes | TxTypeCounts | ConsensusBlocks | TokenTransfers | Tokens

  datatype LegacyTable = Blocks | Transactions

  /** A number stored as text in `meta`. */
  datatype Stored = Number(n: nat) | Unparsable

  datatype Meta = Meta(version: Option<string>, lastIndexed: Option<Stored>, chainId: Option<Stored>)

  /** `columns` maps each existing data table to the schema version whose columns it has. */
  datatype File = File(meta: Option<Meta>, columns: map<DataTable, nat>, rows: Rows, legacy: set<LegacyTable>)

  datatype Statement =
    | DropTable(table: DataTable)
    | DropMeta
    | DropLegacy(legacyTable: LegacyTable)
    | CreateMeta
    | CreateTable(table: DataTable)
    | StampVersion
    | StampChainId(chainId: nat)

  datatype MigrateError = InvalidChainId | WrongChain(stored: nat, node: nat)

  const ALL_TABLES: set<DataTable> := {AddressTxs, TxTypes, TxTypeCounts, ConsensusBlocks, TokenTransfers, Tokens}

  /** Data tables first, then `meta`, then the v1 marker tables. */
  const DROP_ALL: seq<Statement> := [
    DropTable(AddressTxs), DropTable(TxTypes), DropTable(TxTypeCounts), DropTable(ConsensusBlocks),
    DropTable(TokenTransfers), DropTable(Tokens), DropMeta, DropLegacy(Blocks), DropLegacy(Transactions)]

  const CREATE_ALL: seq<Statement> := [
    CreateMeta, CreateTable(AddressTxs), CreateTable(TxTypes), CreateTable(TxTypeCounts),
    CreateTable(ConsensusBlocks), CreateTable(TokenTransfers), CreateTable(Tokens), StampVersion]

  function ClearRows(rows: Rows, table: DataTable): Rows {
    match table
    case AddressTxs => rows.(addressTxs := map[])
    case TxTypes => rows.(txTypes := {})
    case TxTypeCounts => rows.(typeCounts := map[])
    case ConsensusBlocks => rows.(consensus := map[])
    case TokenTransfers => rows.(transfers := map[])
    case Tokens => rows.(tokens := map[])
  }

  /** A table that does not exist holds no rows. */
  ghost predicate WellFormed(file: File) {
    && (AddressTxs !in file.columns ==> file.rows.addressTxs == map[])
    && (TxTypes !in file.columns ==> file.rows.txTypes == {})
    && (TxTypeCounts !in file.columns ==> file.rows.typeCounts == map[])
    && (ConsensusBlocks !in file.columns ==> file.rows.consensus == map[])
    && (TokenTransfers !in file.columns ==> file.rows.transfers == map[])
    && (Tokens !in file.columns ==> file.rows.tokens == map[])
  }

  function Execute(file: File, statement: Statement): File {
    match statement
    case DropTable(t) => file.(columns := map u | u in file.columns && u != t :: file.columns[u],
                               rows := ClearRows(file.rows, t))
    case DropMeta => file.(meta := None)
    case DropLegacy(t) => file.(legacy := file.legacy - {t})
    case CreateMeta => if file.meta.None? then file.(meta := Some(Meta(None, None, None))) else file
    case CreateTable(t) =>
      if t in file.columns then file
      else file.(columns := file.columns[t := SCHEMA], rows := ClearRows(file.rows, t))
    case StampVersion =>
      if file.meta.Some? && file.meta.value.version.None?
      then file.(meta := Some(file.meta.value.(version := Some(SCHEMA_VERSION)))) else file
    case StampChainId(id) =>
      if file.meta.Some? then file.(meta := Some(file.meta.value.(chainId := Some(Number(id))))) else file
  }

  function ExecuteAll(file: File, statements: seq<Statement>): File
    decreases |statements|
  {
    if statements == [] then file
    else ExecuteAll(Execute(file, statements[0]), statements[1..])
  }

  /** Another schema version in `meta`, or a leftover v1 table: drop and rebuild. */
  predicate Outdated(file: File) {
    (file.meta.Some? && file.meta.value.version != Some(SCHEMA_VERSION)) || file.legacy != {}
  }

  predicate HasChainId(file: File) {
    !Outdated(file) && file.meta.Some? && file.meta.value.chainId.Some?
  }

  /** The statements one uninterrupted reopen executes; every branch is decided by the file it finds. */
  function Plan(file: File, chainId: nat): seq<Statement> {
    (if Outdated(file) then DROP_ALL else [])
    + CREATE_ALL
    + (if HasChainId(file) then [] else [StampChainId(chainId)])
  }

  function Reopened(file: File, chainId: nat): File {
    ExecuteAll(file, Plan(file, chainId))
  }

  /** The chain-id guard, checked after the schema exists. */
  function Verdict(file: File, chainId: nat): Result<(), MigrateError> {
    if !HasChainId(file) then Success(())
    else
      match file.meta.value.chainId.value
      case Unparsable => Failure(InvalidChainId)
      case Number(n) => if n == chainId then Success(()) else Failure(WrongChain(n, chainId))
  }

  // ----- what a completed reopen must leave -----

  /** A complete v3 schema. */
  ghost predicate Ready(file: File) {
    && file.meta.Some? && file.meta.value.version == Some(SCHEMA_VERSION)
    && file.legacy == {}
    && (forall table :: table in ALL_TABLES ==> table in file.columns && file.columns[table] == SCHEMA)
  }

  ghost predicate Empty(file: File) {
    file.rows == NO_ROWS && (file.meta.Some? ==> file.meta.value.lastIndexed.None?)
  }

  ghost predicate SameIndex(before: File, after: File) {
    && before.meta.Some? && after.meta.Some?
    && after.meta.value.lastIndexed == before.meta.value.lastIndexed
    && after.rows == before.rows
  }

  /** Either an empty index without a cursor, or cursor and rows exactly as a current file held them. */
  ghost predicate Sound(before: File, after: File) {
    Ready(after) && (Empty(after) || (Ready(before) && SameIndex(before, after)))
  }

  /**
    The files a reopen can trust, checkable before it: an outdated file, or existing data
    tables that all have v3 columns and, unless all of them exist beside `meta`, are empty
    and have no cursor.
   */
  ghost predicate Recoverable(file: File) {
    || Outdated(file)
    || (&& (forall table :: table in file.columns ==> file.columns[table] == SCHEMA)
        && ((file.meta.Some? && ALL_TABLES <= file.columns.Keys) || Empty(file)))
  }

  // ----- one reopen -----

  function AllColumns(): map<DataTable, nat> {
    map table | table in ALL_TABLES :: SCHEMA
  }

  /** A brand-new v3 file. */
  function FreshFile(chainId: nat): File {
    File(Some(Meta(Some(SCHEMA_VERSION), None, Some(Number(chainId)))), AllColumns(), NO_ROWS, {})
  }

  lemma {:induction false} ExecuteAllConcat(file: File, a: seq<Statement>, b: seq<Statement>)
    ensures ExecuteAll(file, a + b) == ExecuteAll(ExecuteAll(file, a), b)
    decreases |a|
  {
    if a == [] {
      assert a + b == b;
    } else {
      assert (a + b)[1..] == a[1..] + b;
      ExecuteAllConcat(Execute(file, a[0]), a[1..], b);
    }
  }

  lemma ExecuteAllPrefix(file: File, statements: seq<Statement>, k: nat)
    requires 0 < k <= |statements|
    ensures ExecuteAll(file, statements[..k]) == Execute(ExecuteAll(file, statements[..k - 1]), statements[k - 1])
  {
    assert statements[..k] == statements[..k - 1] + [statements[k - 1]];
    ExecuteAllConcat(file, statements[..k - 1], [statements[k - 1]]);
  }

  /** Position of a data table in the drop and create orders. */
  function Rank(table: DataTable): nat {
    match table
    case AddressTxs => 0
    case TxTypes => 1
    case TxTypeCounts => 2
    case ConsensusBlocks => 3
    case TokenTransfers => 4
    case Tokens => 5
  }

  /** The file after the first `k` drops: `meta` outlives the data tables, the v1 markers outlive `meta`. */
  ghost predicate AfterDrops(file: File, now: File, k: nat) {
    && WellFormed(now)
    && now.columns == (map table | table in file.columns && Rank(table) >= k :: file.columns[table])
    && now.meta == (if k > 6 then None else file.meta)
    && now.legacy == (if k > 8 then {} else if k > 7 then file.legacy - {Blocks} else file.legacy)
  }

  lemma OnlyLegacyTables(tables: set<LegacyTable>)
    ensures tables - {Blocks} - {Transactions} == {}
  {
    forall t | t in tables - {Blocks} - {Transactions} ensures false {
      match t case Blocks => case Transactions =>
    }
  }

  /** The k-th drop of a data table. */
  lemma DropOrder(k: nat)
    requires 0 < k <= 6
    ensures DROP_ALL[k - 1].DropTable? && Rank(DROP_ALL[k - 1].table) + 1 == k
    ensures forall table :: Rank(table) + 1 == k ==> table == DROP_ALL[k - 1].table
  {
  }

  lemma {:induction false} DropPrefix(file: File, k: nat)
    requires WellFormed(file) && k <= |DROP_ALL|
    ensures AfterDrops(file, ExecuteAll(file, DROP_ALL[..k]), k)
  {
    if k != 0 {
      DropPrefix(file, k - 1);
      ExecuteAllPrefix(file, DROP_ALL, k);
      if k <= 6 {
        DropOrder(k);
        DropStep(file, ExecuteAll(file, DROP_ALL[..k - 1]), DROP_ALL[k - 1].table, k);
      } else {
        DropMarker(file, ExecuteAll(file, DROP_ALL[..k - 1]), k);
      }
    }
  }

  /** The last three drops: `meta` and the v1 tables. */
  lemma DropMarker(file: File, before: File, k: nat)
    requires 6 < k <= 9 && AfterDrops(file, before, k - 1)
    ensures AfterDrops(file, Execute(before, DROP_ALL[k - 1]), k)
  {
    OnlyLegacyTables(file.legacy);
    assert DROP_ALL[6..] == [DropMeta, DropLegacy(Blocks), DropLegacy(Transactions)];
    assert before.columns == map table | table in file.columns && Rank(table) >= k :: file.columns[table];
  }

  lemma DropStep(file: File, before: File, table: DataTable, k: nat)
    requires 0 < k <= 6 && Rank(table) + 1 == k
    requires forall other :: Rank(other) + 1 == k ==> other == table
    requires AfterDrops(file, before, k - 1)
    ensures AfterDrops(file, Execute(before, DropTable(table)), k)
  {
    var now := Execute(before, DropTable(table));
    assert now.columns == map other | other in file.columns && Rank(other) >= k :: file.columns[other];
  }

  function CreatedMeta(meta: Option<Meta>, k: nat): Option<Meta> {
    if k == 0 then meta
    else
      var m := meta.UnwrapOr(Meta(None, None, None));
      Some(if k == 8 && m.version.None? then m.(version := Some(SCHEMA_VERSION)) else m)
  }

  /** The file after the first `k` creations: the version stamp comes only after every table. */
  ghost predicate AfterCreates(file: File, now: File, k: nat) {
    && now.rows == file.rows
    && now.legacy == file.legacy
    && now.meta == CreatedMeta(file.meta, k)
    && now.columns == (map table | table in ALL_TABLES && (table in file.columns || Rank(table) + 1 < k) ::
                         if table in file.columns then file.columns[table] else SCHEMA)
  }

  lemma EveryTable(table: DataTable)
    ensures table in ALL_TABLES
  {
    match table
    case AddressTxs | TxTypes | TxTypeCounts | ConsensusBlocks | TokenTransfers | Tokens =>
  }

  lemma OnlyTables(file: File)
    ensures file.columns.Keys <= ALL_TABLES
  {
    forall table | table in file.columns ensures table in ALL_TABLES {
      EveryTable(table);
    }
  }

  /** The k-th creation. */
  lemma CreateOrder(k: nat)
    requires 1 < k < 8
    ensures CREATE_ALL[k - 1].CreateTable? && Rank(CREATE_ALL[k - 1].table) + 2 == k
    ensures forall table :: Rank(table) + 2 == k ==> table == CREATE_ALL[k - 1].table
  {
  }

  lemma {:induction false} CreatePrefix(file: File, k: nat)
    requires WellFormed(file) && k <= |CREATE_ALL|
    ensures AfterCreates(file, ExecuteAll(file, CREATE_ALL[..k]), k)
  {
    OnlyTables(file);
    if k != 0 {
      CreatePrefix(file, k - 1);
      ExecuteAllPrefix(file, CREATE_ALL, k);
      var before := ExecuteAll(file, CREATE_ALL[..k - 1]);
      if k == 1 {
        assert CREATE_ALL[0] == CreateMeta;
      } else if k == 8 {
        assert CREATE_ALL[7] == StampVersion;
      } else {
        CreateOrder(k);
        CreateStep(file, before, CREATE_ALL[k - 1].table, k);
      }
    }
  }

  lemma CreateStep(file: File, before: File, table: DataTable, k: nat)
    requires WellFormed(file) && 1 < k < 8 && Rank(table) + 2 == k
    requires forall other :: Rank(other) + 2 == k ==> other == table
    requires AfterCreates(file, before, k - 1)
    ensures AfterCreates(file, Execute(before, CreateTable(table)), k)
  {
    EveryTable(table);
  }

  /** Where an uninterrupted reopen ends. */
  function Target(file: File, chainId: nat): File {
    if Outdated(file) then FreshFile(chainId)
    else
      var meta := CreatedMeta(file.meta, 8).value;
      File(
        Some(if meta.chainId.None? then meta.(chainId := Some(Number(chainId))) else meta),
        map table | table in ALL_TABLES :: if table in file.columns then file.columns[table] else SCHEMA,
        file.rows, {})
  }

  lemma NothingLeft(file: File)
    requires WellFormed(file) && file.columns == map[]
    ensures file.rows == NO_ROWS
  {
  }

  lemma StampIfMissing(file: File, created: File, chainId: nat)
    requires !Outdated(file) && AfterCreates(file, created, 8)
    ensures Target(file, chainId) == if HasChainId(file) then created else Execute(created, StampChainId(chainId))
  {
    OnlyTables(file);
    assert created.columns == Target(file, chainId).columns;
  }

  lemma CreatesDone(file: File)
    requires WellFormed(file)
    ensures AfterCreates(file, ExecuteAll(file, CREATE_ALL), 8)
  {
    var creates := CREATE_ALL;
    CreatePrefix(file, 8);
    assert creates[..8] == creates;
  }

  /** What remains to be done once the drops are over. */
  lemma CreateAndStamp(file: File, chainId: nat, tail: seq<Statement>)
    requires WellFormed(file) && !Outdated(file)
    requires tail == if HasChainId(file) then [] else [StampChainId(chainId)]
    ensures ExecuteAll(file, CREATE_ALL + tail) == Target(file, chainId)
  {
    var creates := CREATE_ALL;
    CreatesDone(file);
    ExecuteAllConcat(file, creates, tail);
    var created := ExecuteAll(file, creates);
    StampIfMissing(file, created, chainId);
    if tail != [] {
      ExecuteAllPrefix(created, tail, 1);
      assert tail[..1] == tail && tail[..0] == [];
    }
  }

  lemma AllDropped(file: File, now: File)
    requires AfterDrops(file, now, 9)
    ensures now == File(None, map[], NO_ROWS, {})
  {
    forall table: DataTable ensures table !in now.columns {
      EveryTable(table);
    }
    assert now.columns == map[];
    NothingLeft(now);
  }

  /** The drops leave nothing at all. */
  lemma DropsLeaveBlank(file: File)
    requires WellFormed(file)
    ensures ExecuteAll(file, DROP_ALL) == File(None, map[], NO_ROWS, {})
  {
    DropPrefix(file, 9);
    var drops := DROP_ALL;
    assert drops[..9] == drops;
    AllDropped(file, ExecuteAll(file, drops));
  }

  lemma OutdatedReopens(file: File, chainId: nat)
    requires WellFormed(file) && Outdated(file)
    ensures Reopened(file, chainId) == FreshFile(chainId)
  {
    var blank := File(None, map[], NO_ROWS, {});
    var drops, rest := DROP_ALL, CREATE_ALL + [StampChainId(chainId)];
    DropsLeaveBlank(file);
    assert Plan(file, chainId) == drops + rest;
    ExecuteAllConcat(file, drops, rest);
    CreateAndStamp(blank, chainId, [StampChainId(chainId)]);
    BlankTarget(chainId);
  }

  lemma BlankTarget(chainId: nat)
    ensures Target(File(None, map[], NO_ROWS, {}), chainId) == FreshFile(chainId)
  {
  }

  lemma ReopenedIsTarget(file: File, chainId: nat)
    requires WellFormed(file)
    ensures Reopened(file, chainId) == Target(file, chainId)
  {
    if Outdated(file) {
      OutdatedReopens(file, chainId);
    } else {
      var tail := if HasChainId(file) then [] else [StampChainId(chainId)];
      assert Plan(file, chainId) == CREATE_ALL + tail;
      CreateAndStamp(file, chainId, tail);
    }
  }

  /** One completed reopen is sound exactly for the recoverable files. */
  lemma ReopenSoundIffRecoverable(file: File, chainId: nat)
    requires WellFormed(file)
    ensures Sound(file, Reopened(file, chainId)) <==> Recoverable(file)
  {
    ReopenedIsTarget(file, chainId);
    var after := Target(file, chainId);
    if !Outdated(file) {
      assert forall table :: table in ALL_TABLES ==>
        after.columns[table] == if table in file.columns then file.columns[table] else SCHEMA;
      OnlyTables(file);
    }
  }

  // ----- crashes -----

  /** A reopen cut short after `k` statements (a larger `k` lets it finish). */
  function Interrupted(file: File, chainId: nat, k: nat): File {
    var plan := Plan(file, chainId);
    ExecuteAll(file, plan[..Min(k, |plan|)])
  }

  function InterruptedAll(file: File, chainId: nat, cuts: seq<nat>): File
    decreases |cuts|
  {
    if cuts == [] then file
    else InterruptedAll(Interrupted(file, chainId, cuts[0]), chainId, cuts[1..])
  }

  /** What one interruption keeps. */
  ghost predicate Converges(file: File, now: File, chainId: nat) {
    && WellFormed(now) && Recoverable(now)
    && Target(now, chainId) == Target(file, chainId)
    && Verdict(now, chainId) == Verdict(file, chainId)
  }

  lemma InterruptedDrops(file: File, chainId: nat, k: nat)
    requires WellFormed(file) && Outdated(file) && k <= 9
    ensures Converges(file, ExecuteAll(file, DROP_ALL[..k]), chainId)
  {
    DropPrefix(file, k);
    var now := ExecuteAll(file, DROP_ALL[..k]);
    if !Outdated(now) {
      assert k > 6 && now.columns == map[];
      NothingLeft(now);
      assert Target(now, chainId) == FreshFile(chainId);
    }
  }

  lemma InterruptedCreates(file: File, chainId: nat, k: nat)
    requires WellFormed(file) && !Outdated(file) && Recoverable(file) && k <= 8
    ensures Converges(file, ExecuteAll(file, CREATE_ALL[..k]), chainId)
  {
    CreatePrefix(file, k);
    var now := ExecuteAll(file, CREATE_ALL[..k]);
    OnlyTables(file);
    if Outdated(now) {
      assert file.meta.None? && file.rows == NO_ROWS;
      assert Target(file, chainId).columns == AllColumns();
    } else {
      assert Target(now, chainId).columns == Target(file, chainId).columns;
    }
  }

  lemma InterruptedOutdated(file: File, chainId: nat, n: nat)
    requires WellFormed(file) && Outdated(file) && n < |Plan(file, chainId)|
    ensures Converges(file, ExecuteAll(file, Plan(file, chainId)[..n]), chainId)
  {
    var plan, drops, creates := Plan(file, chainId), DROP_ALL, CREATE_ALL;
    if n <= 9 {
      assert plan[..n] == drops[..n];
      InterruptedDrops(file, chainId, n);
    } else {
      assert plan[..n] == drops + creates[..n - 9];
      InterruptedRebuild(file, chainId, n - 9);
    }
  }

  /** Cut short after all the drops and `k` creations. */
  lemma InterruptedRebuild(file: File, chainId: nat, k: nat)
    requires WellFormed(file) && Outdated(file) && k <= 8
    ensures Converges(file, ExecuteAll(file, DROP_ALL + CREATE_ALL[..k]), chainId)
  {
    var blank := File(None, map[], NO_ROWS, {});
    DropsLeaveBlank(file);
    ExecuteAllConcat(file, DROP_ALL, CREATE_ALL[..k]);
    InterruptedCreates(blank, chainId, k);
    SameTarget(file, blank, chainId);
  }

  /** An outdated file and a blank one lead to the same file and verdict. */
  lemma SameTarget(file: File, blank: File, chainId: nat)
    requires Outdated(file) && blank == File(None, map[], NO_ROWS, {})
    ensures Target(file, chainId) == Target(blank, chainId) && Verdict(file, chainId) == Verdict(blank, chainId)
  {
    BlankTarget(chainId);
  }

  lemma InterruptedCurrent(file: File, chainId: nat, n: nat)
    requires WellFormed(file) && Recoverable(file) && !Outdated(file) && n < |Plan(file, chainId)|
    ensures Converges(file, ExecuteAll(file, Plan(file, chainId)[..n]), chainId)
  {
    var creates := CREATE_ALL;
    assert Plan(file, chainId)[..n] == creates[..n];
    InterruptedCreates(file, chainId, n);
  }

  lemma InterruptedOnce(file: File, chainId: nat, k: nat)
    requires WellFormed(file) && Recoverable(file)
    ensures Converges(file, Interrupted(file, chainId, k), chainId)
  {
    var plan := Plan(file, chainId);
    if k >= |plan| {
      assert plan[..|plan|] == plan;
      ReopenedIsTarget(file, chainId);
      TargetIsStable(file, chainId);
    } else if Outdated(file) {
      InterruptedOutdated(file, chainId, k);
    } else {
      InterruptedCurrent(file, chainId, k);
    }
  }

  /** A finished file is left alone by the next reopen. */
  lemma TargetIsStable(file: File, chainId: nat)
    requires WellFormed(file) && Recoverable(file)
    ensures Converges(file, Target(file, chainId), chainId)
  {
    var after := Target(file, chainId);
    assert after.columns.Keys == ALL_TABLES;
    assert Target(after, chainId).columns == after.columns;
  }

  /**
    Crash between any two statements, any number of times: the next completed reopen ends
    in the very file, and the very verdict, that one uninterrupted reopen would have given.
   */
  lemma {:induction false} CrashesConverge(file: File, chainId: nat, cuts: seq<nat>)
    requires WellFormed(file) && Recoverable(file)
    ensures var now := InterruptedAll(file, chainId, cuts);
            && Reopened(now, chainId) == Reopened(file, chainId)
            && Verdict(now, chainId) == Verdict(file, chainId)
            && Converges(file, now, chainId)
    decreases |cuts|
  {
    if cuts == [] {
    } else {
      InterruptedOnce(file, chainId, cuts[0]);
      CrashesConverge(Interrupted(file, chainId, cuts[0]), chainId, cuts[1..]);
    }
    ReopenedIsTarget(file, chainId);
    ReopenedIsTarget(InterruptedAll(file, chainId, cuts), chainId);
  }

  /** So a stale cursor never survives over dropped tables, whatever the crashes. */
  lemma CrashesStaySound(file: File, chainId: nat, cuts: seq<nat>)
    requires WellFormed(file) && Recoverable(file)
    ensures Sound(file, Reopened(InterruptedAll(file, chainId, cuts), chainId))
    ensures Outdated(file) ==> Reopened(InterruptedAll(file, chainId, cuts), chainId) == FreshFile(chainId)
  {
    CrashesConverge(file, chainId, cuts);
    ReopenSoundIffRecoverable(file, chainId);
    ReopenedIsTarget(file, chainId);
  }

  /**
    The chain-id guard refuses a file of another network exactly when it is not outdated:
    an outdated file of another network is dropped and rebuilt without an error.
   */
  lemma WrongChainRefusedIffCurrent(file: File, chainId: nat, stored: nat)
    requires WellFormed(file)
    requires file.meta.Some? && file.meta.value.chainId == Some(Number(stored)) && stored != chainId
    ensures Verdict(file, chainId) == Failure(WrongChain(stored, chainId)) <==> !Outdated(file)
    ensures !Outdated(file) ==> SameIndex(file, Reopened(file, chainId))
    ensures Outdated(file) ==> Reopened(file, chainId) == FreshFile(chainId)
  {
    ReopenedIsTarget(file, chainId);
  }

  /** What a reopen must do, by what `meta` says, spelled out. */
  ghost predicate KeptOrRebuilt(file: File, after: File, chainId: nat) {
    if (file.meta.Some? && file.meta.value.version != Some("3")) || Blocks in file.legacy || Transactions in file.legacy
    then
      && Ready(after) && after.rows == NO_ROWS
      && after.meta.value.lastIndexed == None && after.meta.value.chainId == Some(Number(chainId))
    else
      && after.meta.Some? && after.rows == file.rows
      && (file.meta.Some? ==> after.meta.value.lastIndexed == file.meta.value.lastIndexed)
      && (file.meta.None? ==> after.meta.value.lastIndexed == None)
      && after.meta.value.chainId
         == if file.meta.Some? && file.meta.value.chainId.Some? then file.meta.value.chainId else Some(Number(chainId))
  }

  /**
    However often it was cut short, a reopen rebuilds exactly the files of another schema
    version and those with a v1 table; every other one keeps its rows, cursor and chain id, and
    gets the node's chain id if it had none.
   */
  lemma ReopenKeepsOrRebuilds(file: File, chainId: nat, cuts: seq<nat>)
    requires WellFormed(file) && Recoverable(file)
    ensures KeptOrRebuilt(file, Reopened(InterruptedAll(file, chainId, cuts), chainId), chainId)
  {
    CrashesConverge(file, chainId, cuts);
    ReopenedIsTarget(file, chainId);
    OutdatedByContent(file);
    FreshIsReady(chainId);
  }

  lemma OutdatedByContent(file: File)
    ensures Outdated(file) <==>
            || (file.meta.Some? && file.meta.value.version != Some("3"))
            || Blocks in file.legacy || Transactions in file.legacy
  {
    OnlyLegacyTables(file.legacy);
    if Blocks !in file.legacy && Transactions !in file.legacy {
      assert file.legacy - {Blocks} - {Transactions} == file.legacy;
    }
  }

  lemma FreshIsReady(chainId: nat)
    ensures Ready(FreshFile(chainId))
  {
  }

  /** A file once opened for a chain is refused for every other one, and accepted for its own. */
  lemma GuardBinds(file: File, chainId: nat, other: nat)
    requires WellFormed(file) && Recoverable(file) && Verdict(file, chainId).Success?
    ensures Verdict(Reopened(file, chainId), other)
            == if other == chainId then Success(()) else Failure(WrongChain(chainId, other))
  {
    ReopenedIsTarget(file, chainId);
  }

  /** A chain id that is no number is refused, and so is a wrong one; a missing one is not. */
  lemma VerdictByContent(file: File, chainId: nat)
    requires file.meta.Some? && file.meta.value.version == Some("3") && file.legacy == {}
    ensures match file.meta.value.chainId
            case None => Verdict(file, chainId) == Success(())
            case Some(Unparsable) => Verdict(file, chainId) == Failure(InvalidChainId)
            case Some(Number(n)) =>
              Verdict(file, chainId) == if n == chainId then Success(()) else Failure(WrongChain(n, chainId))
  {
  }

  // ----- what the chain-id guard reads -----

  /** The schema part of `migrate` leaves a `meta` row set that only the chain id can still lack. */
  lemma SchemaBeforeGuard(start: File, now: File, drops: seq<Statement>)
    requires drops == if Outdated(start) then DROP_ALL else []
    requires now == ExecuteAll(start, drops + CREATE_ALL)
    ensures now.meta.Some?
    ensures now.meta.value.chainId == if HasChainId(start) then start.meta.value.chainId else None
  {
    ExecuteAllConcat(start, drops, CREATE_ALL);
    var dropped := ExecuteAll(start, drops);
    MetaAfterDrops(start, dropped, drops);
    MetaAfterCreates(dropped, 8);
    assert CREATE_ALL[..8] == CREATE_ALL;
  }

  lemma MetaAfterDrops(start: File, dropped: File, drops: seq<Statement>)
    requires drops == if Outdated(start) then DROP_ALL else []
    requires dropped == ExecuteAll(start, drops)
    ensures dropped.meta == if Outdated(start) then None else start.meta
  {
    if Outdated(start) {
      DropsClearMeta(start, 9);
      assert DROP_ALL[..9] == DROP_ALL;
    }
  }

  lemma {:induction false} DropsClearMeta(start: File, k: nat)
    requires k <= 9
    ensures ExecuteAll(start, DROP_ALL[..k]).meta == if k > 6 then None else start.meta
  {
    if k != 0 {
      DropsClearMeta(start, k - 1);
      ExecuteAllPrefix(start, DROP_ALL, k);
    }
  }

  lemma {:induction false} MetaAfterCreates(start: File, k: nat)
    requires k <= 8
    ensures ExecuteAll(start, CREATE_ALL[..k]).meta == CreatedMeta(start.meta, k)
  {
    if k != 0 {
      MetaAfterCreates(start, k - 1);
      ExecuteAllPrefix(start, CREATE_ALL, k);
    }
  }
}
