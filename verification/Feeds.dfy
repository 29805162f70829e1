/**
  The index pages the API serves: pointer lists per address and per type, and the
  transfer feeds. Each query is a set of rows under an order; the lemmas say which rows
  and how many, that the pages are slices of one list, and that every pointer served can
  be hydrated.
 */
module Feeds {
  import opened Wrappers
  import opened Chain
  import opened HeaderCodec
  import opened Extraction
  import opened Schema
  import opened Index
  import opened Sql

  datatype TxPointer = TxPointer(block: nat, tx: nat)

  datatype StoredTransfer = StoredTransfer(key: TransferKey, body: TransferBody)

  // ----- orders -----

  predicate NewerPointer(a: TxPointer, b: TxPointer) {
    a.block > b.block || (a.block == b.block && a.tx > b.tx)
  }

  predicate NewerKey(a: TransferKey, b: TransferKey) {
    || a.block > b.block
    || (a.block == b.block && (a.tx > b.tx || (a.tx == b.tx && a.log > b.log)))
  }

  predicate NewerTransfer(a: StoredTransfer, b: StoredTransfer) {
    NewerKey(a.key, b.key)
  }

  predicate EarlierLog(a: StoredTransfer, b: StoredTransfer) {
    a.key.log < b.key.log
  }

  // ----- transfers of an address: the UNION feed -----

  function FromArm(table: map<TransferKey, TransferBody>, address: Address): set<StoredTransfer> {
    set key | key in table && table[key].from == address :: StoredTransfer(key, table[key])
  }

  function ToArm(table: map<TransferKey, TransferBody>, address: Address): set<StoredTransfer> {
    set key | key in table && table[key].to == address :: StoredTransfer(key, table[key])
  }

  /** Rows of one table: a key never occurs with two bodies. */
  ghost predicate FromTable(rows: set<StoredTransfer>, table: map<TransferKey, TransferBody>) {
    forall row :: row in rows ==> row.key in table && row.body == table[row.key]
  }

  lemma TableRowsAreOrdered(rows: set<StoredTransfer>, table: map<TransferKey, TransferBody>)
    requires FromTable(rows, table)
    ensures TotalOn(rows, NewerTransfer)
  {
  }

  /** `address_transfers_page` before LIMIT/OFFSET. */
  ghost function AddressFeed(table: map<TransferKey, TransferBody>, address: Address): seq<StoredTransfer> {
    var rows := FromArm(table, address) + ToArm(table, address);
    TableRowsAreOrdered(rows, table);
    Ordered(rows, NewerTransfer)
  }

  /** `count_address_transfers`: the UNION of the two arms' keys. */
  function CountAddressTransfers(table: map<TransferKey, TransferBody>, address: Address): nat {
    var from := set key | key in table && table[key].from == address;
    var to := set key | key in table && table[key].to == address;
    |from + to|
  }

  lemma UnionMembers(table: map<TransferKey, TransferBody>, address: Address)
    ensures forall row :: row in FromArm(table, address) + ToArm(table, address) <==>
              row.key in table && row.body == table[row.key]
              && (row.body.from == address || row.body.to == address)
  {
  }

  lemma UnionCount(table: map<TransferKey, TransferBody>, address: Address)
    ensures |FromArm(table, address) + ToArm(table, address)| == CountAddressTransfers(table, address)
  {
    var rows := FromArm(table, address) + ToArm(table, address);
    var from := set key | key in table && table[key].from == address;
    var to := set key | key in table && table[key].to == address;
    forall key | key in from + to ensures exists row :: row in rows && row.key == key {
      assert StoredTransfer(key, table[key]) in rows;
    }
    SameSize(rows, from + to, (row: StoredTransfer) => row.key);
  }

  /**
    The feed is the strictly descending list of the transfers with the address as sender or
    recipient; a self-transfer comes once, and the count is the list's length.
   */
  lemma AddressFeedExact(table: map<TransferKey, TransferBody>, address: Address)
    ensures var feed := AddressFeed(table, address);
            && (forall i, j :: 0 <= i < j < |feed| ==>
                  var a, b := feed[i].key, feed[j].key;
                  a.block > b.block || (a.block == b.block && (a.tx > b.tx || (a.tx == b.tx && a.log > b.log))))
            && (forall row :: row in feed <==>
                  row.key in table && row.body == table[row.key]
                  && (row.body.from == address || row.body.to == address))
            && |feed| == CountAddressTransfers(table, address)
  {
    var rows := FromArm(table, address) + ToArm(table, address);
    TableRowsAreOrdered(rows, table);
    OrderedExact(rows, NewerTransfer);
    UnionMembers(table, address);
    UnionCount(table, address);
  }

  /** Every page is a slice of the feed and the pages concatenate to it. */
  lemma AddressFeedPages(table: map<TransferKey, TransferBody>, address: Address, perPage: nat, pages: nat)
    requires perPage >= 1 && pages * perPage >= CountAddressTransfers(table, address)
    ensures Pages(AddressFeed(table, address), perPage, pages) == AddressFeed(table, address)
  {
    AddressFeedExact(table, address);
    PagesConcatenate(AddressFeed(table, address), perPage, pages);
  }

  // ----- transfers of a token -----

  function RowsOfToken(table: map<TransferKey, TransferBody>, token: Address): set<StoredTransfer> {
    set key | key in table && table[key].token == token :: StoredTransfer(key, table[key])
  }

  /** `token_transfers_page` before LIMIT/OFFSET. */
  ghost function TokenFeed(table: map<TransferKey, TransferBody>, token: Address): seq<StoredTransfer> {
    TableRowsAreOrdered(RowsOfToken(table, token), table);
    Ordered(RowsOfToken(table, token), NewerTransfer)
  }

  /** `count_token_transfers`. */
  function CountTokenTransfers(table: map<TransferKey, TransferBody>, token: Address): nat {
    |set key | key in table && table[key].token == token|
  }

  /** The token feed is the strictly descending list of the token's transfers, and the count is its length. */
  lemma TokenFeedExact(table: map<TransferKey, TransferBody>, token: Address)
    ensures var feed := TokenFeed(table, token);
            && (forall i, j :: 0 <= i < j < |feed| ==>
                  var a, b := feed[i].key, feed[j].key;
                  a.block > b.block || (a.block == b.block && (a.tx > b.tx || (a.tx == b.tx && a.log > b.log))))
            && (forall row :: row in feed <==>
                  row.key in table && row.body == table[row.key] && row.body.token == token)
            && |feed| == CountTokenTransfers(table, token)
  {
    var rows := RowsOfToken(table, token);
    TableRowsAreOrdered(rows, table);
    OrderedExact(rows, NewerTransfer);
    var keys := set key | key in table && table[key].token == token;
    forall key | key in keys ensures exists row :: row in rows && row.key == key {
      assert StoredTransfer(key, table[key]) in rows;
    }
    SameSize(rows, keys, (row: StoredTransfer) => row.key);
  }

  // ----- transfers of one transaction, in emission order -----

  function RowsOfTx(table: map<TransferKey, TransferBody>, block: nat, tx: nat): set<StoredTransfer> {
    set key | key in table && key.block == block && key.tx == tx :: StoredTransfer(key, table[key])
  }

  lemma TxRowsAreOrdered(table: map<TransferKey, TransferBody>, block: nat, tx: nat)
    ensures TotalOn(RowsOfTx(table, block, tx), EarlierLog)
  {
  }

  /** `transfers_for_tx_page` before LIMIT/OFFSET. */
  ghost function TxTransfers(table: map<TransferKey, TransferBody>, block: nat, tx: nat): seq<StoredTransfer> {
    TxRowsAreOrdered(table, block, tx);
    Ordered(RowsOfTx(table, block, tx), EarlierLog)
  }

  /** `count_transfers_for_tx`. */
  function CountTxTransfers(table: map<TransferKey, TransferBody>, block: nat, tx: nat): nat {
    |set key | key in table && key.block == block && key.tx == tx|
  }

  /** How a transfer row of extraction is stored. */
  function AsStored(row: TransferRow): StoredTransfer {
    StoredTransfer(KeyOfTransfer(row), BodyOfTransfer(row))
  }

  /** The conforming logs of one receipt, in log order. */
  function ReceiptTransfers(block: Block, t: nat): seq<StoredTransfer> {
    var rows := LogRows(block, t, |LogsOf(block, t)|);
    seq(|rows|, i requires 0 <= i < |rows| => AsStored(rows[i]))
  }

  /** For an indexed transaction the stored list and count are its receipt's conforming logs. */
  lemma TxTransfersExact(table: map<TransferKey, TransferBody>, chain: seq<Block>, n: nat, b: nat, t: nat)
    requires ValidChain(chain) && n <= |chain| && TransfersAgree(table, chain, n)
    requires b < n && t < |chain[b].transactions|
    ensures TxTransfers(table, b, t) == ReceiptTransfers(chain[b], t)
    ensures CountTxTransfers(table, b, t) == |ReceiptTransfers(chain[b], t)|
  {
    var block, rows := chain[b], RowsOfTx(table, b, t);
    var list := ReceiptTransfers(block, t);
    ReceiptMembers(table, chain, n, b, t);
    TxRowsAreOrdered(table, b, t);
    OrderedUnique(list, rows, EarlierLog);
    OrderedExact(rows, EarlierLog);
    var keys := set key | key in table && key.block == b && key.tx == t;
    forall key | key in keys ensures exists row :: row in rows && row.key == key {
      assert StoredTransfer(key, table[key]) in rows;
    }
    SameSize(rows, keys, (row: StoredTransfer) => row.key);
  }

  lemma ReceiptMembers(table: map<TransferKey, TransferBody>, chain: seq<Block>, n: nat, b: nat, t: nat)
    requires ValidChain(chain) && n <= |chain| && TransfersAgree(table, chain, n)
    requires b < n && t < |chain[b].transactions|
    ensures Sorted(ReceiptTransfers(chain[b], t), EarlierLog)
    ensures forall row :: row in ReceiptTransfers(chain[b], t) <==> row in RowsOfTx(table, b, t)
  {
    var block, stored := chain[b], RowsOfTx(table, b, t);
    var logs := LogRows(block, t, |LogsOf(block, t)|);
    var list := ReceiptTransfers(block, t);
    LogRowsExact(block, t, |LogsOf(block, t)|);
    forall i | 0 <= i < |logs| ensures logs[i].txIndex == t && list[i] in stored {
      assert logs[i] in logs;
      assert Emitted(chain, n, KeyOfTransfer(logs[i]));
    }
    forall row | row in stored ensures row in list {
      var at := RowAt(chain, row.key);
      assert at in logs;
      var i :| 0 <= i < |logs| && logs[i] == at;
      assert list[i] == row;
    }
  }

  /**
    That list, spelled out: strictly by log position, one entry for every log of the
    transaction's receipt with three topics, the transfer signature and 32 bytes of data, and
    nothing else.
   */
  lemma ReceiptTransfersExact(block: Block, t: nat)
    ensures var list := ReceiptTransfers(block, t);
            && (forall i, j :: 0 <= i < j < |list| ==> list[i].key.log < list[j].key.log)
            && (forall row :: row in list <==>
                  && row.key.block == block.header.number && row.key.tx == t
                  && t < |block.receipts| && row.key.log < |block.receipts[t].logs|
                  && var log := block.receipts[t].logs[row.key.log];
                     && |log.topics| == 3 && log.topics[0] == TRANSFER_TOPIC && |log.data| == 32
                     && row.body == TransferBody(log.address, AddressFromWord(log.topics[1]),
                                                 AddressFromWord(log.topics[2]), FromBigEndian(log.data)))
  {
    var rows, list := LogRows(block, t, |LogsOf(block, t)|), ReceiptTransfers(block, t);
    LogRowsExact(block, t, |LogsOf(block, t)|);
    forall i | 0 <= i < |rows| ensures rows[i] in rows && list[i] == AsStored(rows[i]) {
    }
    forall row ensures row in list <==> IsConforming(block, t, row) {
      if IsConforming(block, t, row) {
        var made := TransferRow(row.key.block, t, row.key.log,
                                row.body.token, row.body.from, row.body.to, row.body.value);
        assert made in rows;
        var i :| 0 <= i < |rows| && rows[i] == made;
        assert list[i] == row;
      }
    }
  }

  predicate IsConforming(block: Block, t: nat, row: StoredTransfer) {
    && row.key.block == block.header.number && row.key.tx == t
    && t < |block.receipts| && row.key.log < |block.receipts[t].logs|
    && var log := block.receipts[t].logs[row.key.log];
       && |log.topics| == 3 && log.topics[0] == TRANSFER_TOPIC && |log.data| == 32
       && row.body == TransferBody(log.address, AddressFromWord(log.topics[1]),
                                   AddressFromWord(log.topics[2]), FromBigEndian(log.data))
  }

  // ----- pointer lists -----

  function PointersOfAddress(table: map<AddressKey, Byte>, address: Address, ty: Option<Byte>): set<TxPointer> {
    set key | key in table && key.address == address && (ty.Some? ==> table[key] == ty.value)
      :: TxPointer(key.block, key.tx)
  }

  function PointersOfType(table: set<TypeKey>, ty: Byte): set<TxPointer> {
    set key | key in RowsOfType(table, ty) :: TxPointer(key.block, key.tx)
  }

  lemma PointersAreOrdered(pointers: set<TxPointer>)
    ensures TotalOn(pointers, NewerPointer)
  {
  }

  /** `address_txs_page` and `address_txs_page_by_type` before LIMIT/OFFSET. */
  ghost function AddressTxFeed(table: map<AddressKey, Byte>, address: Address, ty: Option<Byte>): seq<TxPointer> {
    PointersAreOrdered(PointersOfAddress(table, address, ty));
    Ordered(PointersOfAddress(table, address, ty), NewerPointer)
  }

  /** `tx_type_page` before LIMIT/OFFSET. */
  ghost function TypeFeed(table: set<TypeKey>, ty: Byte): seq<TxPointer> {
    PointersAreOrdered(PointersOfType(table, ty));
    Ordered(PointersOfType(table, ty), NewerPointer)
  }

  /** The transaction a pointer names, its receipt included, is in the node's data. */
  predicate Hydratable(chain: seq<Block>, pointer: TxPointer) {
    && pointer.block < |chain|
    && pointer.tx < |chain[pointer.block].transactions|
    && pointer.tx < |chain[pointer.block].receipts|
  }

  /** Execution leaves one receipt per transaction. */
  ghost predicate Executed(chain: seq<Block>) {
    forall b :: 0 <= b < |chain| ==> |chain[b].receipts| == |chain[b].transactions|
  }

  /** `count_address_txs` and `count_address_txs_by_type`. */
  function CountAddressTxs(table: map<AddressKey, Byte>, address: Address, ty: Option<Byte>): nat {
    |KeysOfAddress(table, address, ty)|
  }

  function KeysOfAddress(table: map<AddressKey, Byte>, address: Address, ty: Option<Byte>): set<AddressKey> {
    set key | key in table && key.address == address && (ty.Some? ==> table[key] == ty.value)
  }

  lemma PointersCountAsKeys(table: map<AddressKey, Byte>, address: Address, ty: Option<Byte>)
    ensures |PointersOfAddress(table, address, ty)| == CountAddressTxs(table, address, ty)
  {
    var keys, pointers := KeysOfAddress(table, address, ty), PointersOfAddress(table, address, ty);
    var pointer := (key: AddressKey) => TxPointer(key.block, key.tx);
    forall p | p in pointers ensures exists key :: key in keys && pointer(key) == p {
      var key := AddressKey(address, p.block, p.tx);
      assert key in keys && pointer(key) == p;
    }
    SameSize(keys, pointers, pointer);
  }

  /**
    An address page lists exactly the address's indexed transactions (of the type), newest
    first, and the count is the list's length.
   */
  lemma AddressTxFeedExact(db: Db, chain: seq<Block>, address: Address, ty: Option<Byte>)
    requires Agrees(db, chain) && Executed(chain)
    ensures var feed := AddressTxFeed(db.rows.addressTxs, address, ty);
            && (forall i, j :: 0 <= i < j < |feed| ==>
                  var a, b := feed[i], feed[j];
                  a.block > b.block || (a.block == b.block && a.tx > b.tx))
            && (forall p :: p in feed <==>
                  && p.block < NextBlock(db.cursor) && p.tx < |chain[p.block].transactions|
                  && var tx := chain[p.block].transactions[p.tx];
                     && (address == tx.sender || tx.to == Some(address) || (tx.to == None && address == tx.created))
                     && (ty.Some? ==> tx.ty == ty.value))
            && (forall p :: p in feed ==> Hydratable(chain, p))
            && |feed| == CountAddressTxs(db.rows.addressTxs, address, ty)
  {
    var table, pointers := db.rows.addressTxs, PointersOfAddress(db.rows.addressTxs, address, ty);
    PointersAreOrdered(pointers);
    OrderedExact(pointers, NewerPointer);
    forall p ensures p in pointers <==>
        && Participates(chain, NextBlock(db.cursor), AddressKey(address, p.block, p.tx))
        && (ty.Some? ==> chain[p.block].transactions[p.tx].ty == ty.value) {
      var key := AddressKey(address, p.block, p.tx);
      if key in table && (ty.Some? ==> table[key] == ty.value) {
        assert TxPointer(key.block, key.tx) in pointers;
      }
    }
    PointersCountAsKeys(table, address, ty);
  }

  /** A type page lists exactly the indexed transactions of that type, and the counter is its length. */
  lemma TypeFeedExact(db: Db, chain: seq<Block>, ty: Byte)
    requires Agrees(db, chain) && Executed(chain)
    ensures var feed := TypeFeed(db.rows.txTypes, ty);
            && (forall i, j :: 0 <= i < j < |feed| ==>
                  var a, b := feed[i], feed[j];
                  a.block > b.block || (a.block == b.block && a.tx > b.tx))
            && (forall p :: p in feed <==>
                  && p.block < NextBlock(db.cursor) && p.tx < |chain[p.block].transactions|
                  && chain[p.block].transactions[p.tx].ty == ty)
            && (forall p :: p in feed ==> Hydratable(chain, p))
            && |feed| == CountOf(db.rows.typeCounts, ty)
  {
    var table, pointers := db.rows.txTypes, PointersOfType(db.rows.txTypes, ty);
    PointersAreOrdered(pointers);
    OrderedExact(pointers, NewerPointer);
    forall p ensures p in pointers <==> HasType(chain, NextBlock(db.cursor), TypeKey(ty, p.block, p.tx)) {
      if TypeKey(ty, p.block, p.tx) in table {
        assert TypeKey(ty, p.block, p.tx) in RowsOfType(table, ty);
      }
    }
    SameSize(RowsOfType(table, ty), pointers, (key: TypeKey) => TxPointer(key.block, key.tx));
  }

  /** The pointers of every stored row, whichever feed returns it, are hydratable. */
  lemma StoredRowsAreHydratable(db: Db, chain: seq<Block>)
    requires Agrees(db, chain) && Executed(chain)
    ensures forall key :: key in db.rows.transfers ==> Hydratable(chain, TxPointer(key.block, key.tx))
    ensures forall key :: key in db.rows.addressTxs ==> Hydratable(chain, TxPointer(key.block, key.tx))
    ensures forall key :: key in db.rows.txTypes ==> Hydratable(chain, TxPointer(key.block, key.tx))
  {
    var n := NextBlock(db.cursor);
    forall key | key in db.rows.transfers ensures Hydratable(chain, TxPointer(key.block, key.tx)) {
      assert Emitted(chain, n, key);
    }
    forall key | key in db.rows.addressTxs ensures Hydratable(chain, TxPointer(key.block, key.tx)) {
      assert Participates(chain, n, key);
    }
    forall key | key in db.rows.txTypes ensures Hydratable(chain, TxPointer(key.block, key.tx)) {
      assert HasType(chain, n, key);
    }
  }
}
