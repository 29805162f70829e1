/**
  The reference index: what every table must hold once blocks `0..n` are indexed, said
  directly about the chain. Nothing here mentions cursors, inserts or order of arrival;
  `IndexingOneBlock` shows that one per-block write carries the index of `n` blocks to
  the index of `n + 1`.
 */
module Index {
  import opened Wrappers
  import opened Chain
  import opened HeaderCodec
  import opened Extraction
  import opened Schema

  // ----- the reference index, table by table -----

  /** Below `n`, the address sent the transaction, received it, or was created by it. */
  predicate Participates(chain: seq<Block>, n: nat, key: AddressKey)
    requires n <= |chain|
  {
    && key.block < n
    && key.tx < |chain[key.block].transactions|
    && var tx := chain[key.block].transactions[key.tx];
       || key.address == tx.sender
       || tx.to == Some(key.address)
       || (tx.to == None && key.address == tx.created)
  }

  ghost predicate AddressesAgree(table: map<AddressKey, Byte>, chain: seq<Block>, n: nat)
    requires n <= |chain|
  {
    && (forall key :: key in table <==> Participates(chain, n, key))
    && (forall key :: key in table ==> table[key] == chain[key.block].transactions[key.tx].ty)
  }

  predicate HasType(chain: seq<Block>, n: nat, key: TypeKey)
    requires n <= |chain|
  {
    && key.block < n
    && key.tx < |chain[key.block].transactions|
    && chain[key.block].transactions[key.tx].ty == key.ty
  }

  ghost predicate TypesAgree(table: set<TypeKey>, chain: seq<Block>, n: nat)
    requires n <= |chain|
  {
    forall key :: key in table <==> HasType(chain, n, key)
  }

  /** The rows one type owns. */
  function RowsOfType(table: set<TypeKey>, ty: Byte): set<TypeKey> {
    set key | key in table && key.ty == ty
  }

  /** The stored totals are the row counts, and a type has a total exactly when it has a row. */
  ghost predicate CountsExact(counts: map<Byte, nat>, table: set<TypeKey>) {
    && (forall ty :: CountOf(counts, ty) == |RowsOfType(table, ty)|)
    && (forall ty :: ty in counts ==> counts[ty] > 0)
  }

  /** Block `b` was produced by the output `digest`. */
  predicate Names(block: Block, digest: Digest) {
    && DecodeConsensusFields(block.header).Some?
    && DecodeConsensusFields(block.header).value.digest == digest
  }

  /** `entry` is the extent of the blocks below `n` that name `digest`. */
  ghost predicate IsExtent(entry: ConsensusEntry, chain: seq<Block>, n: nat, digest: Digest)
    requires n <= |chain|
  {
    && entry.first < n && Names(chain[entry.first], digest)
    && entry.last < n && Names(chain[entry.last], digest)
    && (forall b :: 0 <= b < n && Names(chain[b], digest) ==> entry.first <= b <= entry.last)
    && var fields := DecodeConsensusFields(chain[entry.first].header).value;
       entry.epoch == fields.epoch && entry.round == fields.round
  }

  ghost predicate ConsensusAgrees(table: map<Digest, ConsensusEntry>, chain: seq<Block>, n: nat)
    requires n <= |chain|
  {
    && (forall b :: 0 <= b < n ==> forall digest :: Names(chain[b], digest) ==> digest in table)
    && (forall digest :: digest in table ==> IsExtent(table[digest], chain, n, digest))
  }

  /** The log at `key` is a conforming transfer with content `body`. */
  predicate Emitted(chain: seq<Block>, n: nat, key: TransferKey)
    requires n <= |chain|
  {
    && key.block < n
    && key.tx < |chain[key.block].transactions|
    && key.tx < |chain[key.block].receipts|
    && key.log < |chain[key.block].receipts[key.tx].logs|
    && var log := chain[key.block].receipts[key.tx].logs[key.log];
       |log.topics| == 3 && log.topics[0] == TRANSFER_TOPIC && |log.data| == 32
  }

  function TransferAt(chain: seq<Block>, key: TransferKey): TransferBody
    requires key.block < |chain| && Emitted(chain, |chain|, key)
  {
    var log := chain[key.block].receipts[key.tx].logs[key.log];
    TransferBody(log.address, AddressFromWord(log.topics[1]), AddressFromWord(log.topics[2]), FromBigEndian(log.data))
  }

  ghost predicate TransfersAgree(table: map<TransferKey, TransferBody>, chain: seq<Block>, n: nat)
    requires n <= |chain|
  {
    && (forall key :: key in table <==> Emitted(chain, n, key))
    && (forall key :: key in table ==> table[key] == TransferAt(chain, key))
  }

  /** Contract `token` emitted some conforming transfer below `n`. */
  ghost predicate EmittedBy(chain: seq<Block>, n: nat, token: Address)
    requires n <= |chain|
  {
    exists key :: Emitted(chain, n, key) && TransferAt(chain, key).token == token
  }

  ghost predicate TokensCover(table: map<Address, TokenEntry>, chain: seq<Block>, n: nat)
    requires n <= |chain|
  {
    forall token :: token in table <==> EmittedBy(chain, n, token)
  }

  /** The index of the first `n` blocks. */
  ghost predicate RowsAgree(rows: Rows, chain: seq<Block>, n: nat)
    requires n <= |chain|
  {
    && AddressesAgree(rows.addressTxs, chain, n)
    && TypesAgree(rows.txTypes, chain, n)
    && CountsExact(rows.typeCounts, rows.txTypes)
    && ConsensusAgrees(rows.consensus, chain, n)
    && TransfersAgree(rows.transfers, chain, n)
    && TokensCover(rows.tokens, chain, n)
  }

  /** The database is the index of exactly the blocks its cursor claims. */
  ghost predicate Agrees(db: Db, chain: seq<Block>) {
    NextBlock(db.cursor) <= |chain| && RowsAgree(db.rows, chain, NextBlock(db.cursor))
  }

  // ----- the reference index leaves nothing open -----

  /** Two databases with one cursor that both agree with a chain hold the same rows, token metadata aside. */
  lemma AgreementIsUnique(a: Db, b: Db, chain: seq<Block>)
    requires Agrees(a, chain) && Agrees(b, chain) && a.cursor == b.cursor
    ensures a.rows.(tokens := map[]) == b.rows.(tokens := map[])
    ensures a.rows.tokens.Keys == b.rows.tokens.Keys
  {
    var n := NextBlock(a.cursor);
    assert a.rows.addressTxs.Keys == b.rows.addressTxs.Keys;
    assert a.rows.addressTxs == b.rows.addressTxs;
    assert a.rows.txTypes == b.rows.txTypes;
    CountsUnique(a.rows.typeCounts, b.rows.typeCounts, a.rows.txTypes);
    ConsensusUnique(a.rows.consensus, b.rows.consensus, chain, n);
    TransfersUnique(a.rows.transfers, b.rows.transfers, chain, n);
  }

  lemma TransfersUnique(a: map<TransferKey, TransferBody>, b: map<TransferKey, TransferBody>, chain: seq<Block>, n: nat)
    requires n <= |chain| && TransfersAgree(a, chain, n) && TransfersAgree(b, chain, n)
    ensures a == b
  {
    assert a.Keys == b.Keys;
  }

  lemma CountsUnique(a: map<Byte, nat>, b: map<Byte, nat>, table: set<TypeKey>)
    requires CountsExact(a, table) && CountsExact(b, table)
    ensures a == b
  {
    forall ty ensures ty in a <==> ty in b {
      assert CountOf(a, ty) == CountOf(b, ty);
    }
    forall ty | ty in a ensures a[ty] == b[ty] {
      assert CountOf(a, ty) == CountOf(b, ty);
    }
  }

  lemma ExtentUnique(a: ConsensusEntry, b: ConsensusEntry, chain: seq<Block>, n: nat, digest: Digest)
    requires n <= |chain| && IsExtent(a, chain, n, digest) && IsExtent(b, chain, n, digest)
    ensures a == b
  {
  }

  lemma NamedDigestsStored(a: map<Digest, ConsensusEntry>, b: map<Digest, ConsensusEntry>, chain: seq<Block>, n: nat)
    requires n <= |chain| && ConsensusAgrees(a, chain, n) && ConsensusAgrees(b, chain, n)
    ensures a.Keys <= b.Keys
  {
    forall digest | digest in a ensures digest in b {
      assert IsExtent(a[digest], chain, n, digest);
    }
  }

  lemma ConsensusUnique(a: map<Digest, ConsensusEntry>, b: map<Digest, ConsensusEntry>, chain: seq<Block>, n: nat)
    requires n <= |chain| && ConsensusAgrees(a, chain, n) && ConsensusAgrees(b, chain, n)
    ensures a == b
  {
    NamedDigestsStored(a, b, chain, n);
    NamedDigestsStored(b, a, chain, n);
    forall digest | digest in a ensures a[digest] == b[digest] {
      ExtentUnique(a[digest], b[digest], chain, n, digest);
    }
  }

  // ----- growth of the chain does not disturb an index -----

  lemma TransactionRowsAfterGrowth(rows: Rows, chain: seq<Block>, n: nat, block: Block)
    requires n <= |chain| && AddressesAgree(rows.addressTxs, chain, n) && TypesAgree(rows.txTypes, chain, n)
    ensures AddressesAgree(rows.addressTxs, chain + [block], n) && TypesAgree(rows.txTypes, chain + [block], n)
  {
    assert forall key :: Participates(chain, n, key) == Participates(chain + [block], n, key);
    assert forall key :: HasType(chain, n, key) == HasType(chain + [block], n, key);
  }

  lemma ConsensusAfterGrowth(table: map<Digest, ConsensusEntry>, chain: seq<Block>, n: nat, block: Block)
    requires n <= |chain| && ConsensusAgrees(table, chain, n)
    ensures ConsensusAgrees(table, chain + [block], n)
  {
    forall digest | digest in table ensures IsExtent(table[digest], chain + [block], n, digest) {
      assert IsExtent(table[digest], chain, n, digest);
    }
  }

  lemma TransfersAfterGrowth(table: map<TransferKey, TransferBody>, chain: seq<Block>, n: nat, block: Block)
    requires n <= |chain| && TransfersAgree(table, chain, n)
    ensures TransfersAgree(table, chain + [block], n)
  {
    assert forall key :: Emitted(chain, n, key) == Emitted(chain + [block], n, key);
  }

  lemma TokensAfterGrowth(table: map<Address, TokenEntry>, chain: seq<Block>, n: nat, block: Block)
    requires n <= |chain| && TokensCover(table, chain, n)
    ensures TokensCover(table, chain + [block], n)
  {
    var longer := chain + [block];
    EmissionsAfterGrowth(chain, n, block);
    forall token ensures EmittedBy(chain, n, token) == EmittedBy(longer, n, token) {
      if EmittedBy(chain, n, token) {
        var key :| Emitted(chain, n, key) && TransferAt(chain, key).token == token;
        assert Emitted(longer, n, key);
      }
      if EmittedBy(longer, n, token) {
        var key :| Emitted(longer, n, key) && TransferAt(longer, key).token == token;
        assert Emitted(chain, n, key);
      }
    }
  }

  lemma EmissionsAfterGrowth(chain: seq<Block>, n: nat, block: Block)
    requires n <= |chain|
    ensures forall key :: Emitted(chain, n, key) <==> Emitted(chain + [block], n, key)
    ensures forall key :: Emitted(chain, n, key) ==> TransferAt(chain, key) == TransferAt(chain + [block], key)
  {
  }

  lemma AgreesAfterGrowth(db: Db, chain: seq<Block>, block: Block)
    requires Agrees(db, chain)
    ensures Agrees(db, chain + [block])
  {
    var n := NextBlock(db.cursor);
    TransactionRowsAfterGrowth(db.rows, chain, n, block);
    ConsensusAfterGrowth(db.rows.consensus, chain, n, block);
    TransfersAfterGrowth(db.rows.transfers, chain, n, block);
    TokensAfterGrowth(db.rows.tokens, chain, n, block);
  }

  /** An index that agrees with a chain agrees with every longer one. */
  lemma {:induction false} AgreesWithLonger(db: Db, chain: seq<Block>, longer: seq<Block>)
    requires Agrees(db, chain) && chain <= longer && ValidChain(longer)
    ensures Agrees(db, longer)
    decreases |longer| - |chain|
  {
    if |chain| == |longer| {
      assert chain == longer;
    } else {
      var more := chain + [longer[|chain|]];
      AgreesAfterGrowth(db, chain, longer[|chain|]);
      AgreesWithLonger(db, more, longer);
    }
  }

  lemma EmptyAgrees(chain: seq<Block>)
    ensures Agrees(EMPTY_DB, chain)
  {
    forall ty ensures CountOf(map[], ty) == |RowsOfType({}, ty)| {
      assert RowsOfType({}, ty) == {};
    }
  }

  /**
    What an agreeing table holds about one indexed transaction: a row for its sender, one for
    the address it was sent to or, when it was sent to none, for the one it created, and no other.
   */
  lemma TransactionIsFiled(db: Db, chain: seq<Block>, b: nat, t: nat)
    requires Agrees(db, chain) && b < NextBlock(db.cursor) && t < |chain[b].transactions|
    ensures var tx, table := chain[b].transactions[t], db.rows.addressTxs;
            && AddressKey(tx.sender, b, t) in table
            && (forall a :: tx.to == Some(a) ==> AddressKey(a, b, t) in table)
            && (tx.to == None ==> AddressKey(tx.created, b, t) in table)
            && (forall key :: key in table && key.block == b && key.tx == t ==>
                  || key.address == tx.sender || tx.to == Some(key.address)
                  || (tx.to == None && key.address == tx.created))
            && (forall key :: key in table && key.block == b && key.tx == t ==> table[key] == tx.ty)
  {
    var tx, n := chain[b].transactions[t], NextBlock(db.cursor);
    assert Participates(chain, n, AddressKey(tx.sender, b, t));
    forall a | tx.to == Some(a) ensures AddressKey(a, b, t) in db.rows.addressTxs {
      assert Participates(chain, n, AddressKey(a, b, t));
    }
    assert tx.to == None ==> Participates(chain, n, AddressKey(tx.created, b, t));
  }

  // ----- one block, table by table -----

  lemma {:induction false} InsertAddressesExact(table: map<AddressKey, Byte>, rows: seq<AddressRow>)
    requires forall a, b | a in rows && b in rows :: KeyOfAddress(a) == KeyOfAddress(b) ==> a == b
    ensures var after := InsertAddresses(table, rows);
            && (forall key :: key in after <==> key in table || exists row :: row in rows && KeyOfAddress(row) == key)
            && (forall key :: key in table ==> key in after && after[key] == table[key])
            && (forall row :: row in rows && KeyOfAddress(row) !in table ==>
                  KeyOfAddress(row) in after && after[KeyOfAddress(row)] == row.txType)
  {
    if rows != [] {
      var init, last := rows[..|rows| - 1], rows[|rows| - 1];
      assert rows == init + [last];
      assert forall row :: row in init ==> row in rows;
      InsertAddressesExact(table, init);
      var before, after := InsertAddresses(table, init), InsertAddresses(table, rows);
      forall key ensures key in after <==> key in table || exists row :: row in rows && KeyOfAddress(row) == key {
        if key == KeyOfAddress(last) {
          assert last in rows;
        } else if key in before && key !in table {
          var row :| row in init && KeyOfAddress(row) == key;
          assert row in rows;
        }
      }
      if KeyOfAddress(last) in before && KeyOfAddress(last) !in table {
        var row :| row in init && KeyOfAddress(row) == KeyOfAddress(last);
        assert row in rows && last in rows;
      }
    }
  }

  lemma AddressesStep(table: map<AddressKey, Byte>, chain: seq<Block>, n: nat)
    requires n < |chain| && chain[n].header.number == n
    requires AddressesAgree(table, chain, n)
    ensures AddressesAgree(InsertAddresses(table, Extract(chain[n]).addressRows), chain, n + 1)
  {
    var rows := Extract(chain[n]).addressRows;
    ExtractedKeysAreUnique(chain[n]);
    AddressRowsAreParticipants(chain[n]);
    InsertAddressesExact(table, rows);
    NewAddressKeys(chain, n, rows);
    var after := InsertAddresses(table, rows);
    forall key ensures key in after <==> Participates(chain, n + 1, key) {
      assert key in after <==> key in table || RowHasKey(rows, key);
    }
    forall key | key in after ensures after[key] == chain[key.block].transactions[key.tx].ty {
      if key !in table {
        var row :| row in rows && KeyOfAddress(row) == key;
      }
    }
  }

  ghost predicate RowHasKey(rows: seq<AddressRow>, key: AddressKey) {
    exists row :: row in rows && KeyOfAddress(row) == key
  }

  /** The keys of a block's rows are the participations it adds. */
  lemma NewAddressKeys(chain: seq<Block>, n: nat, rows: seq<AddressRow>)
    requires n < |chain| && chain[n].header.number == n && rows == Extract(chain[n]).addressRows
    ensures forall key :: Participates(chain, n + 1, key) <==> Participates(chain, n, key) || RowHasKey(rows, key)
  {
    AddressRowsAreParticipants(chain[n]);
    forall key ensures Participates(chain, n + 1, key) <==> Participates(chain, n, key) || RowHasKey(rows, key) {
      if key.block == n && Participates(chain, n + 1, key) {
        var row := AddressRow(key.address, n, key.tx, chain[n].transactions[key.tx].ty);
        assert row in rows && KeyOfAddress(row) == key;
      } else if RowHasKey(rows, key) {
        var row :| row in rows && KeyOfAddress(row) == key;
        assert key.block == n && Participates(chain, n + 1, key);
      }
    }
  }

  /** A block's address rows are its (participant, transaction) pairs. */
  lemma AddressRowsAreParticipants(block: Block)
    ensures forall row :: row in Extract(block).addressRows <==> IsParticipant(block, row)
  {
    var n, rows := |block.transactions|, Extract(block).addressRows;
    AddressRowsAt(block, n);
    AddressRowsParticipate(block);
    forall row | IsParticipant(block, row) ensures row in rows {
      var t := row.txIndex;
      assert row == rows[2 * t] || row == rows[2 * t + 1];
    }
  }

  lemma {:induction false} InsertTypesExact(table: set<TypeKey>, rows: seq<TxTypeRow>)
    ensures forall key :: key in InsertTypes(table, rows) <==>
              key in table || exists row :: row in rows && KeyOfType(row) == key
  {
    if rows != [] {
      var init, last := rows[..|rows| - 1], rows[|rows| - 1];
      assert rows == init + [last];
      InsertTypesExact(table, init);
      forall key ensures key in InsertTypes(table, rows) <==>
          key in table || exists row :: row in rows && KeyOfType(row) == key {
        if key == KeyOfType(last) {
          assert last in rows;
        } else if key in InsertTypes(table, init) && key !in table {
          var row :| row in init && KeyOfType(row) == key;
          assert row in rows;
        }
      }
    }
  }

  lemma TypesStep(table: set<TypeKey>, chain: seq<Block>, n: nat)
    requires n < |chain| && chain[n].header.number == n
    requires TypesAgree(table, chain, n)
    ensures TypesAgree(InsertTypes(table, Extract(chain[n]).txTypes), chain, n + 1)
  {
    var block, rows := chain[n], Extract(chain[n]).txTypes;
    TypeRowsAt(block, |block.transactions|);
    InsertTypesExact(table, rows);
    forall key ensures key in InsertTypes(table, rows) <==> HasType(chain, n + 1, key) {
      if key.block == n && HasType(chain, n + 1, key) {
        assert KeyOfType(rows[key.tx]) == key;
      }
    }
  }

  /** One more key adds one row to its own type and none to the others. */
  lemma OneMoreKey(table: set<TypeKey>, key: TypeKey, ty: Byte)
    ensures |RowsOfType(table + {key}, ty)| == |RowsOfType(table, ty)| + if key.ty == ty && key !in table then 1 else 0
    ensures key.ty == ty ==> RowsOfType(table + {key}, ty) != {}
    ensures key.ty != ty ==> RowsOfType(table + {key}, ty) == RowsOfType(table, ty)
  {
    var before, after := RowsOfType(table, ty), RowsOfType(table + {key}, ty);
    if key.ty != ty || key in table {
      assert after == before;
      assert key.ty == ty ==> key in after;
    } else {
      assert after == before + {key};
    }
  }

  /** The deltas are exactly what the inserts add, type by type, for any rows whatever. */
  lemma {:induction false} DeltaExact(table: set<TypeKey>, rows: seq<TxTypeRow>, ty: Byte)
    ensures |RowsOfType(InsertTypes(table, rows), ty)|
            == |RowsOfType(table, ty)| + CountOf(TypeDeltas(table, rows), ty)
    ensures ty in TypeDeltas(table, rows) ==> RowsOfType(InsertTypes(table, rows), ty) != {}
  {
    if rows != [] {
      var init, last := rows[..|rows| - 1], rows[|rows| - 1];
      DeltaExact(table, init, ty);
      OneMoreKey(InsertTypes(table, init), KeyOfType(last), ty);
    }
  }

  /** Counters stay exact under ANY per-block write, duplicates and ignored rows included. */
  lemma CountersStayExact(db: Db, extracted: ExtractedBlock, tokenRows: seq<TokenRow>)
    requires CountsExact(db.rows.typeCounts, db.rows.txTypes)
    ensures var after := ApplyBlock(db, extracted, tokenRows);
            CountsExact(after.rows.typeCounts, after.rows.txTypes)
  {
    var counts, table, rows := db.rows.typeCounts, db.rows.txTypes, extracted.txTypes;
    var deltas, after := TypeDeltas(table, rows), InsertTypes(table, rows);
    var totals := AddTotals(counts, deltas);
    forall ty
      ensures CountOf(totals, ty) == |RowsOfType(after, ty)|
      ensures ty in totals ==> totals[ty] > 0
    {
      DeltaExact(table, rows, ty);
      assert CountOf(totals, ty) == CountOf(counts, ty) + CountOf(deltas, ty);
    }
  }

  /** An extent below `n` and the block at `n` give the extent below `n + 1`. */
  lemma ExtentStep(entry: ConsensusEntry, chain: seq<Block>, n: nat, digest: Digest)
    requires n < |chain| && IsExtent(entry, chain, n, digest)
    ensures Names(chain[n], digest) ==>
              IsExtent(entry.(first := Min(entry.first, n), last := Max(entry.last, n)), chain, n + 1, digest)
    ensures !Names(chain[n], digest) ==> IsExtent(entry, chain, n + 1, digest)
  {
  }

  lemma ConsensusStep(table: map<Digest, ConsensusEntry>, chain: seq<Block>, n: nat)
    requires n < |chain| && chain[n].header.number == n
    requires ConsensusAgrees(table, chain, n)
    ensures ConsensusAgrees(WidenRangeOpt(table, Extract(chain[n]).consensus), chain, n + 1)
  {
    var row := ConsensusRowOf(chain[n].header);
    var after := WidenRangeOpt(table, row);
    forall digest | digest in after ensures IsExtent(after[digest], chain, n + 1, digest) {
      if digest in table {
        ExtentStep(table[digest], chain, n, digest);
      }
    }
    forall b | 0 <= b < n + 1 ensures forall digest :: Names(chain[b], digest) ==> digest in after {
    }
  }

  lemma {:induction false} InsertTransfersExact(table: map<TransferKey, TransferBody>, rows: seq<TransferRow>)
    requires forall a, b | a in rows && b in rows :: KeyOfTransfer(a) == KeyOfTransfer(b) ==> a == b
    ensures var after := InsertTransfers(table, rows);
            && (forall key :: key in after <==> key in table || exists row :: row in rows && KeyOfTransfer(row) == key)
            && (forall key :: key in table ==> key in after && after[key] == table[key])
            && (forall row :: row in rows && KeyOfTransfer(row) !in table ==>
                  KeyOfTransfer(row) in after && after[KeyOfTransfer(row)] == BodyOfTransfer(row))
  {
    if rows != [] {
      var init, last := rows[..|rows| - 1], rows[|rows| - 1];
      assert rows == init + [last];
      assert forall row :: row in init ==> row in rows;
      InsertTransfersExact(table, init);
      var before, after := InsertTransfers(table, init), InsertTransfers(table, rows);
      forall key ensures key in after <==> key in table || exists row :: row in rows && KeyOfTransfer(row) == key {
        if key == KeyOfTransfer(last) {
          assert last in rows;
        } else if key in before && key !in table {
          var row :| row in init && KeyOfTransfer(row) == key;
          assert row in rows;
        }
      }
      if KeyOfTransfer(last) in before && KeyOfTransfer(last) !in table {
        var row :| row in init && KeyOfTransfer(row) == KeyOfTransfer(last);
        assert row in rows && last in rows;
      }
    }
  }

  /** The row extraction makes of the log at `key`. */
  function RowAt(chain: seq<Block>, key: TransferKey): TransferRow
    requires key.block < |chain| && Emitted(chain, |chain|, key)
  {
    var body := TransferAt(chain, key);
    TransferRow(key.block, key.tx, key.log, body.token, body.from, body.to, body.value)
  }

  lemma ExtractedTransfers(chain: seq<Block>, n: nat)
    requires n < |chain| && chain[n].header.number == n
    ensures forall row :: row in Extract(chain[n]).transfers <==>
              row.blockNumber == n && Emitted(chain, n + 1, KeyOfTransfer(row))
              && row == RowAt(chain, KeyOfTransfer(row))
  {
    TransferRowsExact(chain[n], |chain[n].transactions|);
  }

  ghost predicate RowMovesAt(rows: seq<TransferRow>, key: TransferKey) {
    exists row :: row in rows && KeyOfTransfer(row) == key
  }

  /** The keys of a block's transfers are the emissions it adds. */
  lemma NewTransferKeys(chain: seq<Block>, n: nat, rows: seq<TransferRow>)
    requires n < |chain| && chain[n].header.number == n && rows == Extract(chain[n]).transfers
    ensures forall key :: Emitted(chain, n + 1, key) <==> Emitted(chain, n, key) || RowMovesAt(rows, key)
  {
    ExtractedTransfers(chain, n);
    forall key ensures Emitted(chain, n + 1, key) <==> Emitted(chain, n, key) || RowMovesAt(rows, key) {
      if key.block == n && Emitted(chain, n + 1, key) {
        assert RowAt(chain, key) in rows && KeyOfTransfer(RowAt(chain, key)) == key;
      }
    }
  }

  /** What the inserts leave at each key of the new index. */
  lemma NewTransferBodies(table: map<TransferKey, TransferBody>, chain: seq<Block>, n: nat, rows: seq<TransferRow>)
    requires n < |chain| && chain[n].header.number == n && rows == Extract(chain[n]).transfers
    requires TransfersAgree(table, chain, n)
    ensures forall key :: key in InsertTransfers(table, rows) <==> key in table || RowMovesAt(rows, key)
    ensures forall key :: key in InsertTransfers(table, rows) && Emitted(chain, n + 1, key) ==>
              InsertTransfers(table, rows)[key] == TransferAt(chain, key)
  {
    ExtractedTransfers(chain, n);
    InsertTransfersExact(table, rows);
    var after := InsertTransfers(table, rows);
    forall key ensures key in after <==> key in table || RowMovesAt(rows, key) {
    }
    forall key | key in after && Emitted(chain, n + 1, key) ensures after[key] == TransferAt(chain, key) {
      if key !in table {
        var row :| row in rows && KeyOfTransfer(row) == key;
      }
    }
  }

  lemma TransfersStep(table: map<TransferKey, TransferBody>, chain: seq<Block>, n: nat)
    requires n < |chain| && chain[n].header.number == n
    requires TransfersAgree(table, chain, n)
    ensures TransfersAgree(InsertTransfers(table, Extract(chain[n]).transfers), chain, n + 1)
  {
    var rows := Extract(chain[n]).transfers;
    NewTransferBodies(table, chain, n, rows);
    NewTransferKeys(chain, n, rows);
  }

  // ----- tokens -----

  /** The rows a block hands in: one attempt for every token the fetch list names, in its order. */
  ghost predicate RowsForList(tokenRows: seq<TokenRow>, need: seq<Address>) {
    && |tokenRows| == |need|
    && forall i :: 0 <= i < |need| ==>
         && tokenRows[i].address == need[i]
         && tokenRows[i].status == if tokenRows[i].metadata == NOTHING_DECODED then 1 else 0
  }

  lemma {:induction false} FetchListExact(table: map<Address, TokenEntry>, candidates: seq<Address>)
    ensures forall token :: token in FetchList(table, candidates) <==>
              token in candidates && (token !in table || table[token].status == 1)
  {
    if candidates != [] {
      var init, last := candidates[..|candidates| - 1], candidates[|candidates| - 1];
      FetchListExact(table, init);
      assert candidates == init + [last];
    }
  }

  /** The list keeps the candidates' order: further candidates only come behind. */
  lemma {:induction false} FetchListInOrder(table: map<Address, TokenEntry>, candidates: seq<Address>, k: nat)
    requires k <= |candidates|
    ensures FetchList(table, candidates[..k]) <= FetchList(table, candidates)
  {
    if k < |candidates| {
      var init := candidates[..|candidates| - 1];
      assert init[..k] == candidates[..k];
      FetchListInOrder(table, init, k);
    } else {
      assert candidates[..k] == candidates;
    }
  }

  lemma {:induction false} FetchListDistinct(table: map<Address, TokenEntry>, candidates: seq<Address>)
    requires Distinct(candidates)
    ensures Distinct(FetchList(table, candidates))
  {
    if candidates != [] {
      var init, last := candidates[..|candidates| - 1], candidates[|candidates| - 1];
      FetchListDistinct(table, init);
      FetchListExact(table, init);
      assert last !in init;
    }
  }

  lemma {:induction false} UpsertKeys(table: map<Address, TokenEntry>, rows: seq<TokenRow>)
    ensures forall token :: token in UpsertTokens(table, rows) <==>
              token in table || exists i :: 0 <= i < |rows| && rows[i].address == token
  {
    if rows != [] {
      var init, last := rows[..|rows| - 1], rows[|rows| - 1];
      UpsertKeys(table, init);
      forall token ensures token in UpsertTokens(table, rows) <==>
          token in table || exists i :: 0 <= i < |rows| && rows[i].address == token {
        if token == last.address {
          assert rows[|rows| - 1].address == token;
        } else if token in UpsertTokens(table, init) && token !in table {
          var i :| 0 <= i < |init| && init[i].address == token;
          assert rows[i].address == token;
        } else if exists i :: 0 <= i < |rows| && rows[i].address == token {
          var i :| 0 <= i < |rows| && rows[i].address == token;
          assert init[i].address == token;
        }
      }
    }
  }

  lemma TokensStep(table: map<Address, TokenEntry>, tokenRows: seq<TokenRow>, chain: seq<Block>, n: nat)
    requires n < |chain| && chain[n].header.number == n
    requires TokensCover(table, chain, n)
    requires RowsForList(tokenRows, FetchList(table, Extract(chain[n]).tokenCandidates))
    ensures TokensCover(UpsertTokens(table, tokenRows), chain, n + 1)
  {
    var candidates := Extract(chain[n]).tokenCandidates;
    var need := FetchList(table, candidates);
    FetchListExact(table, candidates);
    UpsertKeys(table, tokenRows);
    CandidatesEmit(chain, n);
    forall token ensures token in UpsertTokens(table, tokenRows) <==> EmittedBy(chain, n + 1, token) {
      if token in candidates && token !in table {
        var i :| 0 <= i < |need| && need[i] == token;
        assert tokenRows[i].address == token;
      }
      if token in UpsertTokens(table, tokenRows) && token !in table {
        var i :| 0 <= i < |tokenRows| && tokenRows[i].address == token;
        assert need[i] in need;
      }
    }
  }

  /** The contracts that emitted below `n + 1` are those below `n` and the candidates of block `n`. */
  lemma CandidatesEmit(chain: seq<Block>, n: nat)
    requires n < |chain| && chain[n].header.number == n
    ensures forall token :: EmittedBy(chain, n + 1, token) <==>
              EmittedBy(chain, n, token) || token in Extract(chain[n]).tokenCandidates
  {
    var rows := Extract(chain[n]).transfers;
    DistinctTokensExact(rows);
    ExtractedTransfers(chain, n);
    forall token ensures EmittedBy(chain, n + 1, token) <==>
        EmittedBy(chain, n, token) || token in Extract(chain[n]).tokenCandidates {
      if EmittedBy(chain, n + 1, token) {
        var key :| Emitted(chain, n + 1, key) && TransferAt(chain, key).token == token;
        if key.block == n {
          assert RowAt(chain, key) in rows && RowAt(chain, key).token == token;
        } else {
          assert Emitted(chain, n, key);
        }
      }
      if EmittedBy(chain, n, token) {
        var key :| Emitted(chain, n, key) && TransferAt(chain, key).token == token;
        assert Emitted(chain, n + 1, key);
      }
      if token in Extract(chain[n]).tokenCandidates {
        var row :| row in rows && row.token == token;
        assert Emitted(chain, n + 1, KeyOfTransfer(row)) && TransferAt(chain, KeyOfTransfer(row)).token == token;
      }
    }
  }

  /** The candidates of block `n` are the contracts that emitted a transfer in it. */
  lemma CandidatesAreEmitters(chain: seq<Block>, n: nat, token: Address)
    requires n < |chain| && chain[n].header.number == n
    ensures token in Extract(chain[n]).tokenCandidates <==>
            exists key :: Emitted(chain, |chain|, key) && key.block == n && TransferAt(chain, key).token == token
  {
    var rows := Extract(chain[n]).transfers;
    DistinctTokensExact(rows);
    ExtractedTransfers(chain, n);
    if token in Extract(chain[n]).tokenCandidates {
      var row :| row in rows && row.token == token;
      var key := KeyOfTransfer(row);
      assert Emitted(chain, |chain|, key) && TransferAt(chain, key).token == token;
    }
    if key :| Emitted(chain, |chain|, key) && key.block == n && TransferAt(chain, key).token == token {
      assert Emitted(chain, n + 1, key);
      assert RowAt(chain, key) in rows && RowAt(chain, key).token == token;
    }
  }

  // ----- one block, the whole database -----

  /** Writing the next block carries the index of `n` blocks to the index of `n + 1`. */
  lemma IndexingOneBlock(db: Db, chain: seq<Block>, tokenRows: seq<TokenRow>)
    requires ValidChain(chain) && Agrees(db, chain) && NextBlock(db.cursor) < |chain|
    requires RowsForList(tokenRows, FetchList(db.rows.tokens, Extract(chain[NextBlock(db.cursor)]).tokenCandidates))
    ensures var n := NextBlock(db.cursor);
            var after := ApplyBlock(db, Extract(chain[n]), tokenRows);
            Agrees(after, chain) && after.cursor == Some(n)
  {
    var n := NextBlock(db.cursor);
    AppliedAbove(db, Extract(chain[n]), tokenRows);
    RowsStep(db.rows, chain, n, tokenRows);
    AgreesAt(WriteRows(db.rows, Extract(chain[n]), tokenRows), chain, n);
  }

  lemma RowsStep(rows: Rows, chain: seq<Block>, n: nat, tokenRows: seq<TokenRow>)
    requires n < |chain| && chain[n].header.number == n && RowsAgree(rows, chain, n)
    requires RowsForList(tokenRows, FetchList(rows.tokens, Extract(chain[n]).tokenCandidates))
    ensures RowsAgree(WriteRows(rows, Extract(chain[n]), tokenRows), chain, n + 1)
  {
    var extracted := Extract(chain[n]);
    var after := WriteRows(rows, extracted, tokenRows);
    assert AddressesAgree(after.addressTxs, chain, n + 1) by { AddressesStep(rows.addressTxs, chain, n); }
    assert TypesAgree(after.txTypes, chain, n + 1) by { TypesStep(rows.txTypes, chain, n); }
    assert CountsExact(after.typeCounts, after.txTypes) by {
      CountersStayExact(Db(None, rows), extracted, tokenRows);
    }
    assert ConsensusAgrees(after.consensus, chain, n + 1) by { ConsensusStep(rows.consensus, chain, n); }
    assert TransfersAgree(after.transfers, chain, n + 1) by { TransfersStep(rows.transfers, chain, n); }
    assert TokensCover(after.tokens, chain, n + 1) by { TokensStep(rows.tokens, tokenRows, chain, n); }
  }

  /**
    Insert-or-ignore loses nothing: after the next block every extracted row is stored with
    its own content, so a row that was ignored was identical to the one kept.
   */
  lemma InsertOrIgnoreLosesNothing(db: Db, chain: seq<Block>, tokenRows: seq<TokenRow>)
    requires ValidChain(chain) && Agrees(db, chain) && NextBlock(db.cursor) < |chain|
    ensures var extracted := Extract(chain[NextBlock(db.cursor)]);
            var after := ApplyBlock(db, extracted, tokenRows).rows;
            && (forall row :: row in extracted.addressRows ==>
                  KeyOfAddress(row) in after.addressTxs && after.addressTxs[KeyOfAddress(row)] == row.txType)
            && (forall row :: row in extracted.txTypes ==> KeyOfType(row) in after.txTypes)
            && (forall row :: row in extracted.transfers ==>
                  KeyOfTransfer(row) in after.transfers && after.transfers[KeyOfTransfer(row)] == BodyOfTransfer(row))
    ensures var extracted := Extract(chain[NextBlock(db.cursor)]);
            && (forall row :: row in extracted.addressRows ==> KeyOfAddress(row) !in db.rows.addressTxs)
            && (forall row :: row in extracted.transfers ==> KeyOfTransfer(row) !in db.rows.transfers)
  {
    var n := NextBlock(db.cursor);
    var extracted := Extract(chain[n]);
    AddressRowsAreParticipants(chain[n]);
    ExtractedKeysAreUnique(chain[n]);
    ExtractedTransfers(chain, n);
    InsertAddressesExact(db.rows.addressTxs, extracted.addressRows);
    InsertTypesExact(db.rows.txTypes, extracted.txTypes);
    InsertTransfersExact(db.rows.transfers, extracted.transfers);
  }

  // ----- writing an indexed block again -----

  lemma {:induction false} KnownAddresses(table: map<AddressKey, Byte>, rows: seq<AddressRow>)
    requires forall row :: row in rows ==> KeyOfAddress(row) in table
    ensures InsertAddresses(table, rows) == table
  {
    if rows != [] {
      var init := rows[..|rows| - 1];
      assert forall row :: row in init ==> row in rows;
      KnownAddresses(table, init);
      assert rows[|rows| - 1] in rows;
    }
  }

  /** Rows already stored add nothing, so every delta is zero. */
  lemma {:induction false} KnownTypes(table: set<TypeKey>, rows: seq<TxTypeRow>)
    requires forall row :: row in rows ==> KeyOfType(row) in table
    ensures InsertTypes(table, rows) == table
    ensures forall ty :: ty in TypeDeltas(table, rows) ==>
              TypeDeltas(table, rows)[ty] == 0 && exists row :: row in rows && row.txType == ty
  {
    if rows != [] {
      var init, last := rows[..|rows| - 1], rows[|rows| - 1];
      assert rows == init + [last];
      assert last in rows && forall row :: row in init ==> row in rows;
      KnownTypes(table, init);
      forall ty | ty in TypeDeltas(table, rows)
        ensures TypeDeltas(table, rows)[ty] == 0 && exists row :: row in rows && row.txType == ty
      {
        if ty == last.txType {
          assert last in rows;
        } else {
          assert ty in TypeDeltas(table, init);
          var row :| row in init && row.txType == ty;
          assert row in rows;
        }
      }
    }
  }

  lemma KnownTotals(counts: map<Byte, nat>, table: set<TypeKey>, rows: seq<TxTypeRow>)
    requires CountsExact(counts, table) && forall row :: row in rows ==> KeyOfType(row) in table
    ensures AddTotals(counts, TypeDeltas(table, rows)) == counts
  {
    KnownTypes(table, rows);
    forall ty | ty in TypeDeltas(table, rows) ensures ty in counts {
      var row :| row in rows && row.txType == ty;
      assert KeyOfType(row) in RowsOfType(table, ty);
      assert CountOf(counts, ty) == |RowsOfType(table, ty)|;
    }
  }

  lemma {:induction false} KnownTransfers(table: map<TransferKey, TransferBody>, rows: seq<TransferRow>)
    requires forall row :: row in rows ==> KeyOfTransfer(row) in table
    ensures InsertTransfers(table, rows) == table
  {
    if rows != [] {
      var init := rows[..|rows| - 1];
      assert forall row :: row in init ==> row in rows;
      KnownTransfers(table, init);
      assert rows[|rows| - 1] in rows;
    }
  }

  lemma KnownRange(table: map<Digest, ConsensusEntry>, chain: seq<Block>, n: nat, b: nat)
    requires b < n <= |chain| && chain[b].header.number == b && ConsensusAgrees(table, chain, n)
    ensures WidenRangeOpt(table, ConsensusRowOf(chain[b].header)) == table
  {
    var row := ConsensusRowOf(chain[b].header);
    if row.Some? {
      assert Names(chain[b], row.value.digest);
      assert IsExtent(table[row.value.digest], chain, n, row.value.digest);
    }
  }

  /** Every key an indexed block extracts is stored. */
  lemma IndexedKeysAreStored(rows: Rows, chain: seq<Block>, n: nat, b: nat)
    requires b < n <= |chain| && chain[b].header.number == b
    requires AddressesAgree(rows.addressTxs, chain, n) && TypesAgree(rows.txTypes, chain, n)
    ensures forall row :: row in Extract(chain[b]).addressRows ==> KeyOfAddress(row) in rows.addressTxs
    ensures forall row :: row in Extract(chain[b]).txTypes ==> KeyOfType(row) in rows.txTypes
  {
    AddressRowsAreParticipants(chain[b]);
    TypeRowsAt(chain[b], |chain[b].transactions|);
    forall row | row in Extract(chain[b]).addressRows ensures KeyOfAddress(row) in rows.addressTxs {
      assert IsParticipant(chain[b], row);
      assert Participates(chain, n, KeyOfAddress(row));
    }
    forall row | row in Extract(chain[b]).txTypes ensures KeyOfType(row) in rows.txTypes {
      assert HasType(chain, n, KeyOfType(row));
    }
  }

  lemma IndexedTransfersAreStored(table: map<TransferKey, TransferBody>, chain: seq<Block>, n: nat, b: nat)
    requires b < n <= |chain| && chain[b].header.number == b && TransfersAgree(table, chain, n)
    ensures forall row :: row in Extract(chain[b]).transfers ==> KeyOfTransfer(row) in table
  {
    ExtractedTransfers(chain, b);
    forall row | row in Extract(chain[b]).transfers ensures KeyOfTransfer(row) in table {
      assert Emitted(chain, b + 1, KeyOfTransfer(row));
      assert Emitted(chain, n, KeyOfTransfer(row));
    }
  }

  /**
    The statements are idempotent by themselves, guard aside: writing an indexed block again
    changes no row of any table that comes from the chain.
   */
  lemma ReindexingIsIdempotent(rows: Rows, chain: seq<Block>, n: nat, b: nat, tokenRows: seq<TokenRow>)
    requires b < n <= |chain| && chain[b].header.number == b && RowsAgree(rows, chain, n)
    ensures WriteRows(rows, Extract(chain[b]), tokenRows) == rows.(tokens := UpsertTokens(rows.tokens, tokenRows))
  {
    var extracted := Extract(chain[b]);
    var after := WriteRows(rows, extracted, tokenRows);
    assert after.addressTxs == rows.addressTxs && after.txTypes == rows.txTypes
        && after.typeCounts == rows.typeCounts by {
      IndexedKeysAreStored(rows, chain, n, b);
      KnownAddresses(rows.addressTxs, extracted.addressRows);
      KnownTypes(rows.txTypes, extracted.txTypes);
      KnownTotals(rows.typeCounts, rows.txTypes, extracted.txTypes);
    }
    assert after.consensus == rows.consensus by { KnownRange(rows.consensus, chain, n, b); }
    assert after.transfers == rows.transfers by {
      IndexedTransfersAreStored(rows.transfers, chain, n, b);
      KnownTransfers(rows.transfers, extracted.transfers);
    }
  }

  // ----- what the guard alone lets through -----

  /**
    A block that leaves no trace when it is jumped over by a write of block `n` on an index of
    `m` blocks: no transactions, and any output it names is named on both sides of the gap.
   */
  ghost predicate LeavesNoTrace(chain: seq<Block>, m: nat, b: nat, n: nat)
    requires m <= b < n < |chain|
  {
    && chain[b].transactions == []
    && forall digest :: Names(chain[b], digest) ==> Names(chain[n], digest) && NamedBelow(chain, m, digest)
  }

  ghost predicate NamedBelow(chain: seq<Block>, m: nat, digest: Digest)
    requires m <= |chain|
  {
    exists c :: 0 <= c < m && Names(chain[c], digest)
  }

  lemma EmptyBlocksAddNoRows(rows: Rows, chain: seq<Block>, m: nat, n: nat)
    requires m <= n <= |chain|
    requires AddressesAgree(rows.addressTxs, chain, m) && TypesAgree(rows.txTypes, chain, m)
    requires forall b :: m <= b < n ==> chain[b].transactions == []
    ensures AddressesAgree(rows.addressTxs, chain, n) && TypesAgree(rows.txTypes, chain, n)
  {
    assert forall key :: Participates(chain, m, key) == Participates(chain, n, key);
    assert forall key :: HasType(chain, m, key) == HasType(chain, n, key);
  }

  lemma EmptyBlocksEmitNothing(rows: Rows, chain: seq<Block>, m: nat, n: nat)
    requires m <= n <= |chain|
    requires TransfersAgree(rows.transfers, chain, m) && TokensCover(rows.tokens, chain, m)
    requires forall b :: m <= b < n ==> chain[b].transactions == []
    ensures TransfersAgree(rows.transfers, chain, n) && TokensCover(rows.tokens, chain, n)
  {
    assert forall key :: Emitted(chain, m, key) == Emitted(chain, n, key);
    forall token ensures EmittedBy(chain, m, token) == EmittedBy(chain, n, token) {
    }
  }

  lemma JumpKeepsConsensus(table: map<Digest, ConsensusEntry>, chain: seq<Block>, m: nat, n: nat)
    requires m <= n < |chain| && chain[n].header.number == n && ConsensusAgrees(table, chain, m)
    requires forall b :: m <= b < n ==> LeavesNoTrace(chain, m, b, n)
    ensures ConsensusAgrees(WidenRangeOpt(table, ConsensusRowOf(chain[n].header)), chain, n + 1)
  {
    var after := WidenRangeOpt(table, ConsensusRowOf(chain[n].header));
    forall b, digest | 0 <= b < n + 1 && Names(chain[b], digest) ensures digest in after {
      if m <= b < n {
        assert LeavesNoTrace(chain, m, b, n);
      }
    }
    forall digest | digest in after ensures IsExtent(after[digest], chain, n + 1, digest) {
      JumpKeepsExtent(table, chain, m, n, digest);
    }
  }

  /** Nothing jumped over names an output the index does not know. */
  lemma UnknownStaysUnnamed(table: map<Digest, ConsensusEntry>, chain: seq<Block>, m: nat, n: nat, digest: Digest)
    requires m <= n < |chain| && ConsensusAgrees(table, chain, m) && digest !in table
    requires forall b :: m <= b < n ==> LeavesNoTrace(chain, m, b, n)
    ensures forall b :: 0 <= b < n ==> !Names(chain[b], digest)
  {
    forall b | m <= b < n ensures !Names(chain[b], digest) {
      assert LeavesNoTrace(chain, m, b, n);
    }
  }

  /** A known output named in the gap is named by block `n` too. */
  lemma GapIsBracketed(chain: seq<Block>, m: nat, n: nat, digest: Digest)
    requires m <= n < |chain|
    requires forall b :: m <= b < n ==> LeavesNoTrace(chain, m, b, n)
    ensures forall b :: m <= b < n && Names(chain[b], digest) ==> Names(chain[n], digest)
  {
    forall b | m <= b < n && Names(chain[b], digest) ensures Names(chain[n], digest) {
      assert LeavesNoTrace(chain, m, b, n);
    }
  }

  lemma JumpKeepsExtent(table: map<Digest, ConsensusEntry>, chain: seq<Block>, m: nat, n: nat, digest: Digest)
    requires m <= n < |chain| && chain[n].header.number == n && ConsensusAgrees(table, chain, m)
    requires forall b :: m <= b < n ==> LeavesNoTrace(chain, m, b, n)
    requires digest in WidenRangeOpt(table, ConsensusRowOf(chain[n].header))
    ensures IsExtent(WidenRangeOpt(table, ConsensusRowOf(chain[n].header))[digest], chain, n + 1, digest)
  {
    if digest in table {
      GapIsBracketed(chain, m, n, digest);
      WidenKnown(table, chain, m, n, digest);
    } else {
      UnknownStaysUnnamed(table, chain, m, n, digest);
    }
  }

  lemma WidenKnown(table: map<Digest, ConsensusEntry>, chain: seq<Block>, m: nat, n: nat, digest: Digest)
    requires m <= n < |chain| && chain[n].header.number == n
    requires digest in table && IsExtent(table[digest], chain, m, digest)
    requires forall b :: m <= b < n && Names(chain[b], digest) ==> Names(chain[n], digest)
    ensures IsExtent(WidenRangeOpt(table, ConsensusRowOf(chain[n].header))[digest], chain, n + 1, digest)
  {
  }

  /** A jump over blocks that leave no trace keeps the index. */
  lemma JumpKeepsIndex(rows: Rows, chain: seq<Block>, m: nat, n: nat, tokenRows: seq<TokenRow>)
    requires m <= n < |chain| && chain[n].header.number == n && RowsAgree(rows, chain, m)
    requires RowsForList(tokenRows, FetchList(rows.tokens, Extract(chain[n]).tokenCandidates))
    requires forall b :: m <= b < n ==> LeavesNoTrace(chain, m, b, n)
    ensures RowsAgree(WriteRows(rows, Extract(chain[n]), tokenRows), chain, n + 1)
  {
    var extracted := Extract(chain[n]);
    var after := WriteRows(rows, extracted, tokenRows);
    forall b | m <= b < n ensures chain[b].transactions == [] {
      assert LeavesNoTrace(chain, m, b, n);
    }
    assert AddressesAgree(after.addressTxs, chain, n + 1) && TypesAgree(after.txTypes, chain, n + 1) by {
      EmptyBlocksAddNoRows(rows, chain, m, n);
      AddressesStep(rows.addressTxs, chain, n);
      TypesStep(rows.txTypes, chain, n);
    }
    assert CountsExact(after.typeCounts, after.txTypes) by {
      CountersStayExact(Db(None, rows), extracted, tokenRows);
    }
    assert ConsensusAgrees(after.consensus, chain, n + 1) by { JumpKeepsConsensus(rows.consensus, chain, m, n); }
    assert TransfersAgree(after.transfers, chain, n + 1) && TokensCover(after.tokens, chain, n + 1) by {
      EmptyBlocksEmitNothing(rows, chain, m, n);
      TransfersStep(rows.transfers, chain, n);
      TokensStep(rows.tokens, tokenRows, chain, n);
    }
  }

  lemma SkippedTransactionsAreMissing(table: set<TypeKey>, chain: seq<Block>, m: nat, b: nat, n: nat)
    requires m <= b < n < |chain| && chain[n].header.number == n && TypesAgree(table, chain, m)
    requires chain[b].transactions != []
    ensures !TypesAgree(InsertTypes(table, Extract(chain[n]).txTypes), chain, n + 1)
  {
    var rows := Extract(chain[n]).txTypes;
    var key := TypeKey(chain[b].transactions[0].ty, b, 0);
    TypeRowsAt(chain[n], |chain[n].transactions|);
    InsertTypesExact(table, rows);
    assert HasType(chain, n + 1, key) && key !in InsertTypes(table, rows);
  }

  /** Where the ends of a widened range come from. */
  lemma WidenedEnds(table: map<Digest, ConsensusEntry>, header: Header, digest: Digest)
    requires digest in WidenRangeOpt(table, ConsensusRowOf(header))
    ensures var entry := WidenRangeOpt(table, ConsensusRowOf(header))[digest];
            && ((digest in table && entry.first == table[digest].first) || entry.first == header.number)
            && ((digest in table && entry.last == table[digest].last)
                || (entry.last == header.number
                    && DecodeConsensusFields(header).Some? && DecodeConsensusFields(header).value.digest == digest))
  {
  }

  lemma SkippedNameIsBracketed(
      table: map<Digest, ConsensusEntry>, chain: seq<Block>, m: nat, b: nat, n: nat, digest: Digest)
    requires m <= b < n < |chain| && chain[n].header.number == n
    requires digest in table ==> IsExtent(table[digest], chain, m, digest)
    requires digest in WidenRangeOpt(table, ConsensusRowOf(chain[n].header))
    requires IsExtent(WidenRangeOpt(table, ConsensusRowOf(chain[n].header))[digest], chain, n + 1, digest)
    requires Names(chain[b], digest)
    ensures Names(chain[n], digest) && NamedBelow(chain, m, digest)
  {
    WidenedEnds(table, chain[n].header, digest);
    var entry := WidenRangeOpt(table, ConsensusRowOf(chain[n].header))[digest];
    assert entry.first <= b <= entry.last;
    assert digest in table && Names(chain[table[digest].first], digest);
  }

  /** What an index after the jump says about one block jumped over. */
  lemma JumpedOver(rows: Rows, chain: seq<Block>, m: nat, b: nat, n: nat, tokenRows: seq<TokenRow>)
    requires m <= b < n < |chain| && chain[n].header.number == n && RowsAgree(rows, chain, m)
    requires RowsAgree(WriteRows(rows, Extract(chain[n]), tokenRows), chain, n + 1)
    ensures LeavesNoTrace(chain, m, b, n)
  {
    var after := WriteRows(rows, Extract(chain[n]), tokenRows);
    if chain[b].transactions != [] {
      SkippedTransactionsAreMissing(rows.txTypes, chain, m, b, n);
      assert false;
    }
    forall digest | Names(chain[b], digest) ensures Names(chain[n], digest) && NamedBelow(chain, m, digest) {
      assert digest in after.consensus && IsExtent(after.consensus[digest], chain, n + 1, digest);
      SkippedNameIsBracketed(rows.consensus, chain, m, b, n, digest);
    }
  }

  /**
    The guard accepts any block above the cursor. What it accepts stays the index of the chain
    only if every block jumped over leaves no trace, and exactly then when the token rows are
    the ones the loop hands in; a jump over a block with transactions commits a database that
    is no index whatever they are. Only the protocol rules that out.
   */
  lemma GuardKeepsIndexIff(db: Db, chain: seq<Block>, n: nat, tokenRows: seq<TokenRow>)
    requires ValidChain(chain) && Agrees(db, chain) && NextBlock(db.cursor) <= n < |chain|
    ensures ApplyBlock(db, Extract(chain[n]), tokenRows).cursor == Some(n)
    ensures Agrees(ApplyBlock(db, Extract(chain[n]), tokenRows), chain)
            ==> forall b :: NextBlock(db.cursor) <= b < n ==> LeavesNoTrace(chain, NextBlock(db.cursor), b, n)
    ensures RowsForList(tokenRows, FetchList(db.rows.tokens, Extract(chain[n]).tokenCandidates)) ==>
              (Agrees(ApplyBlock(db, Extract(chain[n]), tokenRows), chain)
               <==> forall b :: NextBlock(db.cursor) <= b < n ==> LeavesNoTrace(chain, NextBlock(db.cursor), b, n))
  {
    AppliedAbove(db, Extract(chain[n]), tokenRows);
    AgreesAt(WriteRows(db.rows, Extract(chain[n]), tokenRows), chain, n);
    GuardIff(db.rows, chain, NextBlock(db.cursor), n, tokenRows);
  }

  lemma AppliedAbove(db: Db, extracted: ExtractedBlock, tokenRows: seq<TokenRow>)
    requires NextBlock(db.cursor) <= extracted.number
    ensures ApplyBlock(db, extracted, tokenRows) == Db(Some(extracted.number), WriteRows(db.rows, extracted, tokenRows))
  {
  }

  lemma AgreesAt(rows: Rows, chain: seq<Block>, n: nat)
    requires n < |chain|
    ensures Agrees(Db(Some(n), rows), chain) <==> RowsAgree(rows, chain, n + 1)
  {
  }

  lemma GuardIff(rows: Rows, chain: seq<Block>, m: nat, n: nat, tokenRows: seq<TokenRow>)
    requires m <= n < |chain| && chain[n].header.number == n && RowsAgree(rows, chain, m)
    ensures RowsAgree(WriteRows(rows, Extract(chain[n]), tokenRows), chain, n + 1)
            ==> forall b :: m <= b < n ==> LeavesNoTrace(chain, m, b, n)
    ensures RowsForList(tokenRows, FetchList(rows.tokens, Extract(chain[n]).tokenCandidates)) ==>
              (RowsAgree(WriteRows(rows, Extract(chain[n]), tokenRows), chain, n + 1)
               <==> forall b :: m <= b < n ==> LeavesNoTrace(chain, m, b, n))
  {
    if RowsAgree(WriteRows(rows, Extract(chain[n]), tokenRows), chain, n + 1) {
      forall b | m <= b < n ensures LeavesNoTrace(chain, m, b, n) {
        JumpedOver(rows, chain, m, b, n, tokenRows);
      }
    } else if
      && (forall b :: m <= b < n ==> LeavesNoTrace(chain, m, b, n))
      && RowsForList(tokenRows, FetchList(rows.tokens, Extract(chain[n]).tokenCandidates))
    {
      JumpKeepsIndex(rows, chain, m, n, tokenRows);
    }
  }

  // ----- totals -----

  datatype Write = Write(extracted: ExtractedBlock, tokenRows: seq<TokenRow>)

  /** Any writes one after the other; skipped and rolled-back ones change nothing. */
  function ApplyAll(db: Db, writes: seq<Write>): Db {
    if writes == [] then db
    else
      var last := writes[|writes| - 1];
      ApplyBlock(ApplyAll(db, writes[..|writes| - 1]), last.extracted, last.tokenRows)
  }

  /** Whatever blocks are written in whatever order, the stored totals stay the row counts. */
  lemma {:induction false} CountersExactAfterAnyWrites(writes: seq<Write>)
    ensures var db := ApplyAll(EMPTY_DB, writes); CountsExact(db.rows.typeCounts, db.rows.txTypes)
  {
    if writes == [] {
      assert forall ty :: RowsOfType({}, ty) == {};
    } else {
      var init, last := writes[..|writes| - 1], writes[|writes| - 1];
      CountersExactAfterAnyWrites(init);
      CountersStayExact(ApplyAll(EMPTY_DB, init), last.extracted, last.tokenRows);
    }
  }

  function SumCounts(counts: map<Byte, nat>, types: nat): nat {
    if types == 0 then 0
    else SumCounts(counts, types - 1) + if types - 1 < 256 then CountOf(counts, types - 1) else 0
  }

  function TransactionsBelow(chain: seq<Block>, n: nat): nat
    requires n <= |chain|
  {
    if n == 0 then 0 else TransactionsBelow(chain, n - 1) + |chain[n - 1].transactions|
  }

  function KeysBelow(table: set<TypeKey>, types: nat): set<TypeKey> {
    set key | key in table && key.ty < types
  }

  lemma {:induction false} SumIsRowCount(counts: map<Byte, nat>, table: set<TypeKey>, types: nat)
    requires CountsExact(counts, table) && types <= 256
    ensures SumCounts(counts, types) == |KeysBelow(table, types)|
  {
    if types == 0 {
      assert KeysBelow(table, 0) == {};
    } else {
      SumIsRowCount(counts, table, types - 1);
      var ty: Byte := types - 1;
      assert KeysBelow(table, types) == KeysBelow(table, types - 1) + RowsOfType(table, ty);
      assert KeysBelow(table, types - 1) !! RowsOfType(table, ty);
    }
  }

  /** The type keys one block contributes. */
  function BlockKeys(chain: seq<Block>, b: nat, t: nat): set<TypeKey>
    requires b < |chain| && t <= |chain[b].transactions|
  {
    set i | 0 <= i < t :: TypeKey(chain[b].transactions[i].ty, b, i)
  }

  lemma {:induction false} BlockKeysCount(chain: seq<Block>, b: nat, t: nat)
    requires b < |chain| && t <= |chain[b].transactions|
    ensures |BlockKeys(chain, b, t)| == t
  {
    if t != 0 {
      BlockKeysCount(chain, b, t - 1);
      var key := TypeKey(chain[b].transactions[t - 1].ty, b, t - 1);
      assert BlockKeys(chain, b, t) == BlockKeys(chain, b, t - 1) + {key};
    }
  }

  /** The last block's keys are the ones not already below it. */
  lemma LastBlockKeys(table: set<TypeKey>, before: set<TypeKey>, chain: seq<Block>, n: nat)
    requires 0 < n <= |chain| && TypesAgree(table, chain, n)
    requires before == set key | key in table && key.block < n - 1
    ensures TypesAgree(before, chain, n - 1)
    ensures table == before + BlockKeys(chain, n - 1, |chain[n - 1].transactions|)
    ensures before !! BlockKeys(chain, n - 1, |chain[n - 1].transactions|)
  {
    var added := BlockKeys(chain, n - 1, |chain[n - 1].transactions|);
    forall key ensures key in table <==> key in before + added {
      if key in table && key.block == n - 1 {
        assert key == TypeKey(chain[n - 1].transactions[key.tx].ty, n - 1, key.tx);
      }
    }
  }

  lemma {:induction false} TypeRowsCount(table: set<TypeKey>, chain: seq<Block>, n: nat)
    requires n <= |chain| && TypesAgree(table, chain, n)
    ensures |table| == TransactionsBelow(chain, n)
  {
    if n == 0 {
      assert table == {};
    } else {
      var before := set key | key in table && key.block < n - 1;
      LastBlockKeys(table, before, chain, n);
      TypeRowsCount(before, chain, n - 1);
      BlockKeysCount(chain, n - 1, |chain[n - 1].transactions|);
    }
  }

  /** The totals summed over every type are the number of transactions in the indexed prefix. */
  lemma TotalsCountEveryTransaction(db: Db, chain: seq<Block>)
    requires Agrees(db, chain)
    ensures SumCounts(db.rows.typeCounts, 256) == TransactionsBelow(chain, NextBlock(db.cursor))
  {
    SumIsRowCount(db.rows.typeCounts, db.rows.txTypes, 256);
    assert KeysBelow(db.rows.txTypes, 256) == db.rows.txTypes;
    TypeRowsCount(db.rows.txTypes, chain, NextBlock(db.cursor));
  }
}
