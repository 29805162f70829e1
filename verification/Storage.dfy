/**
  The single writing handle: one connection whose tables the statements update in place.
  Every method is proved against the value-level statement of Schema or Migration.
 */
module Storage {
  import opened Wrappers
  import opened Chain
  import opened Extraction
  import opened Schema
  import opened Index
  import opened Migration

  datatype StorageError = CorruptCursor | SqlError

  const FINISH: nat := 7

  /**
    What the disk does to one block's write: the step at which a statement fails, if any. Step 0
    is BEGIN and the cursor read, 1 to 5 are the tables, 6 is the cursor and 7 what ends the
    transaction: the commit, or the rollback of a skipped block.
   */
  type Fault = Option<nat>

  /** A skipped block runs only the first step and the last. */
  predicate WriteFails(fault: Fault, skipped: bool) {
    fault.Some? && (if skipped then fault.value == 0 || fault.value == FINISH else fault.value <= FINISH)
  }

  /** The token lookups of one block: step 0 prepares the statement, step `i + 1` is candidate `i`. */
  predicate LookupFails(fault: Fault, candidates: nat) {
    fault.Some? && fault.value <= candidates
  }

  class Writer {
    var meta: Option<Meta>
    var columns: map<DataTable, nat>
    var legacy: set<LegacyTable>
    var addressTxs: map<AddressKey, Byte>
    var txTypes: set<TypeKey>
    var typeCounts: map<Byte, nat>
    var consensus: map<Digest, ConsensusEntry>
    var transfers: map<TransferKey, TransferBody>
    var tokens: map<Address, TokenEntry>

    ghost function CurrentRows(): Rows
      reads this
    {
      Rows(addressTxs, txTypes, typeCounts, consensus, transfers, tokens)
    }

    ghost function CurrentFile(): File
      reads this
    {
      File(meta, columns, CurrentRows(), legacy)
    }

    /** `meta` exists and its cursor, if any, parses. */
    ghost predicate CursorReadable()
      reads this
    {
      meta.Some? && (meta.value.lastIndexed.Some? ==> meta.value.lastIndexed.value.Number?)
    }

    ghost function Contents(): Db
      reads this
      requires CursorReadable()
    {
      Db(if meta.value.lastIndexed.Some? then Some(meta.value.lastIndexed.value.n) else None, CurrentRows())
    }

    /** The connection to whatever file is on disk. */
    constructor (file: File)
      ensures CurrentFile() == file
    {
      meta, columns, legacy := file.meta, file.columns, file.legacy;
      addressTxs, txTypes, typeCounts := file.rows.addressTxs, file.rows.txTypes, file.rows.typeCounts;
      consensus, transfers, tokens := file.rows.consensus, file.rows.transfers, file.rows.tokens;
    }

    // ----- schema -----

    method ClearTable(table: DataTable)
      modifies this`addressTxs, this`txTypes, this`typeCounts, this`consensus, this`transfers, this`tokens
      ensures CurrentRows() == ClearRows(old(CurrentRows()), table)
    {
      match table
      case AddressTxs => addressTxs := map[];
      case TxTypes => txTypes := {};
      case TxTypeCounts => typeCounts := map[];
      case ConsensusBlocks => consensus := map[];
      case TokenTransfers => transfers := map[];
      case Tokens => tokens := map[];
    }

    method Run(statement: Statement)
      modifies this
      ensures CurrentFile() == Execute(old(CurrentFile()), statement)
    {
      match statement
      case DropTable(t) =>
        columns := map u | u in columns && u != t :: columns[u];
        ClearTable(t);
      case DropMeta => meta := None;
      case DropLegacy(t) => legacy := legacy - {t};
      case CreateMeta =>
        if meta.None? { meta := Some(Meta(None, None, None)); }
      case CreateTable(t) =>
        if t !in columns {
          columns := columns[t := SCHEMA];
          ClearTable(t);
        }
      case StampVersion =>
        if meta.Some? && meta.value.version.None? {
          meta := Some(meta.value.(version := Some(SCHEMA_VERSION)));
        }
      case StampChainId(id) =>
        if meta.Some? { meta := Some(meta.value.(chainId := Some(Number(id)))); }
    }

    /** `execute_batch`: one statement after the other, each committing on its own. */
    method ExecuteBatch(statements: seq<Statement>)
      modifies this
      ensures CurrentFile() == ExecuteAll(old(CurrentFile()), statements)
    {
      ghost var start := CurrentFile();
      assert statements[..0] == [];
      for i := 0 to |statements|
        invariant CurrentFile() == ExecuteAll(start, statements[..i])
      {
        ExecuteAllPrefix(start, statements, i + 1);
        Run(statements[i]);
      }
      assert statements[..|statements|] == statements;
    }

    /** `migrate`: drop an outdated schema, create what is missing, enforce the chain id. */
    method Migrate(chainId: nat) returns (verdict: Result<(), MigrateError>)
      modifies this
      ensures CurrentFile() == Reopened(old(CurrentFile()), chainId)
      ensures verdict == Verdict(old(CurrentFile()), chainId)
    {
      ghost var start := CurrentFile();
      var metaExists := meta.Some?;
      var v1Tables := Blocks in legacy || Transactions in legacy;
      assert v1Tables == (legacy != {}) by {
        OnlyLegacyTables(legacy);
        if !v1Tables { assert legacy - {Blocks} - {Transactions} == legacy; }
      }
      var version := if metaExists then meta.value.version else None;
      ghost var drops: seq<Statement> := if Outdated(start) then DROP_ALL else [];
      if (metaExists && version != Some(SCHEMA_VERSION)) || v1Tables {
        ExecuteBatch(DROP_ALL);
      }
      assert CurrentFile() == ExecuteAll(start, drops);
      ExecuteAllConcat(start, drops, CREATE_ALL);
      ExecuteBatch(CREATE_ALL);
      assert CurrentFile() == ExecuteAll(start, drops + CREATE_ALL);
      SchemaBeforeGuard(start, CurrentFile(), drops);

      match meta.value.chainId
      case None =>
        assert Plan(start, chainId) == drops + CREATE_ALL + [StampChainId(chainId)];
        ExecuteAllConcat(start, drops + CREATE_ALL, [StampChainId(chainId)]);
        ExecuteBatch([StampChainId(chainId)]);
        verdict := Success(());
      case Some(stored) =>
        assert Plan(start, chainId) == drops + CREATE_ALL;
        match stored {
          case Unparsable => verdict := Failure(InvalidChainId);
          case Number(n) =>
            if n != chainId {
              verdict := Failure(WrongChain(n, chainId));
            } else {
              verdict := Success(());
            }
        }
    }

    // ----- the per-block write -----

    /** `read_cursor`. */
    method ReadCursor() returns (cursor: Result<Option<nat>, StorageError>)
      requires meta.Some?
      ensures cursor == if CursorReadable() then Success(Contents().cursor) else Failure(CorruptCursor)
    {
      match meta.value.lastIndexed
      case None => cursor := Success(None);
      case Some(Number(n)) => cursor := Success(Some(n));
      case Some(Unparsable) => cursor := Failure(CorruptCursor);
    }

    method WriteAddresses(rows: seq<AddressRow>)
      modifies this`addressTxs
      ensures addressTxs == InsertAddresses(old(addressTxs), rows)
    {
      ghost var start := addressTxs;
      for i := 0 to |rows|
        invariant addressTxs == InsertAddresses(start, rows[..i])
      {
        assert rows[..i + 1][..i] == rows[..i];
        var row := rows[i];
        if KeyOfAddress(row) !in addressTxs {
          addressTxs := addressTxs[KeyOfAddress(row) := row.txType];
        }
      }
      assert rows[..|rows|] == rows;
    }

    /** Insert the type rows, counting per type what each insert changed, then fold the counts in. */
    method WriteTypes(rows: seq<TxTypeRow>)
      modifies this`txTypes, this`typeCounts
      ensures txTypes == InsertTypes(old(txTypes), rows)
      ensures typeCounts == AddTotals(old(typeCounts), TypeDeltas(old(txTypes), rows))
    {
      ghost var start := txTypes;
      var inserted: map<Byte, nat> := map[];
      for i := 0 to |rows|
        invariant txTypes == InsertTypes(start, rows[..i])
        invariant inserted == TypeDeltas(start, rows[..i])
        invariant typeCounts == old(typeCounts)
      {
        assert rows[..i + 1][..i] == rows[..i];
        var row := rows[i];
        var changed := if KeyOfType(row) in txTypes then 0 else 1;
        txTypes := txTypes + {KeyOfType(row)};
        inserted := inserted[row.txType := CountOf(inserted, row.txType) + changed];
      }
      assert rows[..|rows|] == rows;
      FoldTotals(inserted);
    }

    /** One upsert per entry; the entries are distinct keys, so their order does not matter. */
    method FoldTotals(inserted: map<Byte, nat>)
      modifies this`typeCounts
      ensures typeCounts == AddTotals(old(typeCounts), inserted)
    {
      ghost var start := typeCounts;
      var pending := inserted.Keys;
      while pending != {}
        invariant pending <= inserted.Keys
        invariant typeCounts.Keys == start.Keys + (inserted.Keys - pending)
        invariant forall ty :: ty in typeCounts ==>
                    typeCounts[ty] == CountOf(start, ty) + if ty in pending then 0 else CountOf(inserted, ty)
      {
        var ty :| ty in pending;
        typeCounts := typeCounts[ty := CountOf(typeCounts, ty) + inserted[ty]];
        pending := pending - {ty};
      }
    }

    method WriteConsensus(row: Option<ConsensusRow>)
      modifies this`consensus
      ensures consensus == WidenRangeOpt(old(consensus), row)
    {
      if row.Some? {
        var r := row.value;
        if r.digest in consensus {
          var entry := consensus[r.digest];
          consensus := consensus[r.digest :=
            entry.(first := Min(entry.first, r.blockNumber), last := Max(entry.last, r.blockNumber))];
        } else {
          consensus := consensus[r.digest := ConsensusEntry(r.epoch, r.round, r.blockNumber, r.blockNumber)];
        }
      }
    }

    method WriteTransfers(rows: seq<TransferRow>)
      modifies this`transfers
      ensures transfers == InsertTransfers(old(transfers), rows)
    {
      ghost var start := transfers;
      for i := 0 to |rows|
        invariant transfers == InsertTransfers(start, rows[..i])
      {
        assert rows[..i + 1][..i] == rows[..i];
        var row := rows[i];
        if KeyOfTransfer(row) !in transfers {
          transfers := transfers[KeyOfTransfer(row) := BodyOfTransfer(row)];
        }
      }
      assert rows[..|rows|] == rows;
    }

    method WriteTokens(rows: seq<TokenRow>)
      modifies this`tokens
      ensures tokens == UpsertTokens(old(tokens), rows)
    {
      ghost var start := tokens;
      for i := 0 to |rows|
        invariant tokens == UpsertTokens(start, rows[..i])
      {
        assert rows[..i + 1][..i] == rows[..i];
        var row := rows[i];
        var status :=
          if row.address in tokens && row.status != 0 && tokens[row.address].status != 0 then 2 else row.status;
        tokens := tokens[row.address := TokenEntry(row.metadata, status, row.fetchedAt)];
      }
      assert rows[..|rows|] == rows;
    }

    /** The table statements in order, up to the one that fails. */
    method WriteTables(extracted: ExtractedBlock, tokenRows: seq<TokenRow>, fault: Fault) returns (written: bool)
      modifies this`addressTxs, this`txTypes, this`typeCounts, this`consensus, this`transfers, this`tokens
      ensures written <==> !(fault.Some? && 1 <= fault.value <= 5)
      ensures written ==> CurrentRows() == WriteRows(old(CurrentRows()), extracted, tokenRows)
    {
      written := false;
      if fault == Some(1) { return; }
      WriteAddresses(extracted.addressRows);
      if fault == Some(2) { return; }
      WriteTypes(extracted.txTypes);
      if fault == Some(3) { return; }
      WriteConsensus(extracted.consensus);
      if fault == Some(4) { return; }
      WriteTransfers(extracted.transfers);
      if fault == Some(5) { return; }
      WriteTokens(tokenRows);
      written := true;
    }

    /**
      `apply_block`: every statement but the commit. A failing statement leaves the rows
      somewhere in between; undoing them is the transaction's business.
     */
    method ApplyStatements(extracted: ExtractedBlock, tokenRows: seq<TokenRow>, fault: Fault)
      returns (indexed: Result<bool, StorageError>)
      requires meta.Some?
      modifies this
      ensures old(CursorReadable()) && fault.None? ==> indexed.Success?
      ensures indexed.Success? ==>
                && old(CursorReadable()) && CursorReadable()
                && Contents() == ApplyBlock(old(Contents()), extracted, tokenRows)
                && (indexed.value <==> !AtOrBelowCursor(old(Contents().cursor), extracted.number))
                && (WriteFails(fault, !indexed.value) ==> fault == Some(FINISH))
                && (!indexed.value ==> CurrentFile() == old(CurrentFile()))
      ensures indexed.Failure? ==>
                old(CursorReadable()) ==>
                  WriteFails(fault, AtOrBelowCursor(old(Contents().cursor), extracted.number))
      ensures columns == old(columns) && legacy == old(legacy)
      ensures meta.Some? && meta.value.version == old(meta.value.version)
      ensures meta.value.chainId == old(meta.value.chainId)
    {
      if fault == Some(0) {
        return Failure(SqlError);
      }
      var read := ReadCursor();
      if read.Failure? {
        return Failure(read.error);
      }
      if AtOrBelowCursor(read.value, extracted.number) {
        return Success(false);
      }
      var written := WriteTables(extracted, tokenRows, fault);
      if !written || fault == Some(6) {
        return Failure(SqlError);
      }
      meta := Some(meta.value.(lastIndexed := Some(Number(extracted.number))));
      return Success(true);
    }

    method Snapshot() returns (file: File)
      ensures file == CurrentFile()
    {
      file := File(meta, columns, Rows(addressTxs, txTypes, typeCounts, consensus, transfers, tokens), legacy);
    }

    method Rollback(file: File)
      modifies this
      ensures CurrentFile() == file
    {
      meta, columns, legacy := file.meta, file.columns, file.legacy;
      addressTxs, txTypes, typeCounts := file.rows.addressTxs, file.rows.txTypes, file.rows.typeCounts;
      consensus, transfers, tokens := file.rows.consensus, file.rows.transfers, file.rows.tokens;
    }

    /**
      `index_block`: one transaction around the whole write. `true` means committed; a skip
      or an error, wherever it strikes, leaves the file as it was.
     */
    method IndexBlock(extracted: ExtractedBlock, tokenRows: seq<TokenRow>, fault: Fault)
      returns (indexed: Result<bool, StorageError>)
      requires meta.Some?
      modifies this
      ensures old(CursorReadable()) ==>
                (indexed.Failure? <==>
                   WriteFails(fault, AtOrBelowCursor(old(Contents().cursor), extracted.number)))
      ensures !old(CursorReadable()) ==> indexed.Failure?
      ensures indexed.Success? ==>
                && CursorReadable()
                && Contents() == ApplyBlock(old(Contents()), extracted, tokenRows)
                && (indexed.value <==> !AtOrBelowCursor(old(Contents().cursor), extracted.number))
      ensures indexed != Success(true) ==> CurrentFile() == old(CurrentFile())
      ensures columns == old(columns) && legacy == old(legacy)
      ensures meta.Some? && meta.value.version == old(meta.value.version)
      ensures meta.value.chainId == old(meta.value.chainId)
    {
      var begun := Snapshot();
      indexed := ApplyStatements(extracted, tokenRows, fault);
      if indexed.Success? && fault == Some(FINISH) {
        indexed := Failure(SqlError);
      }
      if indexed != Success(true) {
        Rollback(begun);
      }
    }

    /** `token_fetch_states`: the candidates this block has to fetch, in order. */
    method TokenFetchStates(candidates: seq<Address>, fault: Fault) returns (need: Result<seq<Address>, StorageError>)
      ensures need.Failure? <==> LookupFails(fault, |candidates|)
      ensures need.Success? ==> need.value == FetchList(tokens, candidates)
      ensures need.Success? ==> forall token :: token in need.value <==>
                token in candidates && (token !in tokens || tokens[token].status == 1)
    {
      if fault == Some(0) {
        return Failure(SqlError);
      }
      var found: seq<Address> := [];
      for i := 0 to |candidates|
        invariant found == FetchList(tokens, candidates[..i])
        invariant !LookupFails(fault, i)
      {
        assert candidates[..i + 1][..i] == candidates[..i];
        if fault == Some(i + 1) {
          return Failure(SqlError);
        }
        var candidate := candidates[i];
        if candidate !in tokens || tokens[candidate].status == 1 {
          found := found + [candidate];
        }
      }
      assert candidates[..|candidates|] == candidates;
      FetchListExact(tokens, candidates);
      return Success(found);
    }
  }
}
