/**
  The SQLite tables as values, and what each statement of the per-block write does to
  them. A map is a table with a primary key; `WITHOUT ROWID` tables hold nothing else.
 */
module Schema {
  import opened Wrappers
  import opened Chain
  import opened Extraction

  datatype AddressKey = AddressKey(address: Address, block: nat, tx: nat)

  datatype TypeKey = TypeKey(ty: Byte, block: nat, tx: nat)

  datatype TransferKey = TransferKey(block: nat, tx: nat, log: nat)

  datatype TransferBody = TransferBody(token: Address, from: Address, to: Address, value: nat)

  datatype ConsensusEntry = ConsensusEntry(epoch: nat, round: nat, first: nat, last: nat)

  datatype Metadata = Metadata(name: Option<string>, symbol: Option<string>, decimals: Option<Byte>)

  const NOTHING_DECODED: Metadata := Metadata(None, None, None)

  /** Status 0 is a fetch that decoded something, 1 a failed one; storage alone writes 2. */
  datatype TokenRow = TokenRow(address: Address, metadata: Metadata, status: nat, fetchedAt: nat)

  datatype TokenEntry = TokenEntry(metadata: Metadata, status: nat, fetchedAt: nat)

  datatype Rows = Rows(
    addressTxs: map<AddressKey, Byte>,
    txTypes: set<TypeKey>,
    typeCounts: map<Byte, nat>,
    consensus: map<Digest, ConsensusEntry>,
    transfers: map<TransferKey, TransferBody>,
    tokens: map<Address, TokenEntry>)

  /** Everything the API can observe: the derived rows and the cursor they stand for. */
  datatype Db = Db(cursor: Option<nat>, rows: Rows)

  const NO_ROWS: Rows := Rows(map[], {}, map[], map[], map[], map[])

  const EMPTY_DB: Db := Db(None, NO_ROWS)

  /** The first block not yet indexed. */
  function NextBlock(cursor: Option<nat>): nat {
    match cursor
    case None => 0
    case Some(c) => c + 1
  }

  function CountOf(counts: map<Byte, nat>, ty: Byte): nat {
    if ty in counts then counts[ty] else 0
  }

  function KeyOfAddress(row: AddressRow): AddressKey {
    AddressKey(row.address, row.blockNumber, row.txIndex)
  }

  function KeyOfType(row: TxTypeRow): TypeKey {
    TypeKey(row.txType, row.blockNumber, row.txIndex)
  }

  function KeyOfTransfer(row: TransferRow): TransferKey {
    TransferKey(row.blockNumber, row.txIndex, row.logIndex)
  }

  function BodyOfTransfer(row: TransferRow): TransferBody {
    TransferBody(row.token, row.from, row.to, row.value)
  }

  // ----- statements of the per-block write, row by row -----

  /** `INSERT OR IGNORE INTO address_txs`. */
  function InsertAddress(table: map<AddressKey, Byte>, row: AddressRow): map<AddressKey, Byte> {
    if KeyOfAddress(row) in table then table else table[KeyOfAddress(row) := row.txType]
  }

  function InsertAddresses(table: map<AddressKey, Byte>, rows: seq<AddressRow>): map<AddressKey, Byte> {
    if rows == [] then table
    else InsertAddress(InsertAddresses(table, rows[..|rows| - 1]), rows[|rows| - 1])
  }

  /** `INSERT OR IGNORE INTO tx_types`. */
  function InsertTypes(table: set<TypeKey>, rows: seq<TxTypeRow>): set<TypeKey> {
    if rows == [] then table
    else InsertTypes(table, rows[..|rows| - 1]) + {KeyOfType(rows[|rows| - 1])}
  }

  /** Per-type number of rows the inserts really stored; an ignored row still opens its entry. */
  function TypeDeltas(table: set<TypeKey>, rows: seq<TxTypeRow>): map<Byte, nat> {
    if rows == [] then map[]
    else
      var init, last := rows[..|rows| - 1], rows[|rows| - 1];
      var deltas := TypeDeltas(table, init);
      var changed := if KeyOfType(last) in InsertTypes(table, init) then 0 else 1;
      deltas[last.txType := CountOf(deltas, last.txType) + changed]
  }

  /** The upsert `count = count + excluded.count` for every entry of `deltas`. */
  function AddTotals(totals: map<Byte, nat>, deltas: map<Byte, nat>): map<Byte, nat> {
    map ty | ty in totals.Keys + deltas.Keys :: CountOf(totals, ty) + CountOf(deltas, ty)
  }

  /** The min/max upsert; epoch and round keep the values of the first writer. */
  function WidenRange(table: map<Digest, ConsensusEntry>, row: ConsensusRow): map<Digest, ConsensusEntry> {
    if row.digest in table then
      var entry := table[row.digest];
      table[row.digest := entry.(first := Min(entry.first, row.blockNumber), last := Max(entry.last, row.blockNumber))]
    else
      table[row.digest := ConsensusEntry(row.epoch, row.round, row.blockNumber, row.blockNumber)]
  }

  function WidenRangeOpt(table: map<Digest, ConsensusEntry>, row: Option<ConsensusRow>): map<Digest, ConsensusEntry> {
    match row
    case Some(r) => WidenRange(table, r)
    case None => table
  }

  /** `INSERT OR IGNORE INTO token_transfers`. */
  function InsertTransfer(table: map<TransferKey, TransferBody>, row: TransferRow): map<TransferKey, TransferBody> {
    if KeyOfTransfer(row) in table then table else table[KeyOfTransfer(row) := BodyOfTransfer(row)]
  }

  function InsertTransfers(table: map<TransferKey, TransferBody>, rows: seq<TransferRow>)
    : map<TransferKey, TransferBody>
  {
    if rows == [] then table
    else InsertTransfer(InsertTransfers(table, rows[..|rows| - 1]), rows[|rows| - 1])
  }

  /** The token upsert: a failure over a row that is not ok escalates to the terminal 2. */
  function UpsertToken(table: map<Address, TokenEntry>, row: TokenRow): map<Address, TokenEntry> {
    var status :=
      if row.address in table && row.status != 0 && table[row.address].status != 0 then 2 else row.status;
    table[row.address := TokenEntry(row.metadata, status, row.fetchedAt)]
  }

  function UpsertTokens(table: map<Address, TokenEntry>, rows: seq<TokenRow>): map<Address, TokenEntry> {
    if rows == [] then table
    else UpsertToken(UpsertTokens(table, rows[..|rows| - 1]), rows[|rows| - 1])
  }

  // ----- the whole write -----

  /** The in-transaction guard: at or below the cursor means skip. */
  predicate AtOrBelowCursor(cursor: Option<nat>, number: nat) {
    cursor.Some? && number <= cursor.value
  }

  function WriteRows(rows: Rows, extracted: ExtractedBlock, tokenRows: seq<TokenRow>): Rows {
    Rows(
      InsertAddresses(rows.addressTxs, extracted.addressRows),
      InsertTypes(rows.txTypes, extracted.txTypes),
      AddTotals(rows.typeCounts, TypeDeltas(rows.txTypes, extracted.txTypes)),
      WidenRangeOpt(rows.consensus, extracted.consensus),
      InsertTransfers(rows.transfers, extracted.transfers),
      UpsertTokens(rows.tokens, tokenRows))
  }

  /** `apply_block`: what the transaction holds when it is ready to commit. */
  function ApplyBlock(db: Db, extracted: ExtractedBlock, tokenRows: seq<TokenRow>): Db {
    if AtOrBelowCursor(db.cursor, extracted.number) then db
    else Db(Some(extracted.number), WriteRows(db.rows, extracted, tokenRows))
  }

  // ----- token-metadata selection -----

  /** Unseen or retry-pending: the only tokens a block may fetch. */
  predicate NeedsFetch(table: map<Address, TokenEntry>, token: Address) {
    token !in table || table[token].status == 1
  }

  /** `token_fetch_states`. */
  function FetchList(table: map<Address, TokenEntry>, candidates: seq<Address>): seq<Address> {
    if candidates == [] then []
    else
      var init, last := candidates[..|candidates| - 1], candidates[|candidates| - 1];
      if NeedsFetch(table, last) then FetchList(table, init) + [last] else FetchList(table, init)
  }

  /** `TokenMetadata::any_decoded`. */
  predicate AnyDecoded(metadata: Metadata) {
    metadata.name.Some? || metadata.symbol.Some? || metadata.decimals.Some?
  }

  /** The row the loop builds after one fetch: `status = u8::from(!ok)`. */
  function AttemptRow(token: Address, metadata: Metadata, fetchedAt: nat): TokenRow {
    TokenRow(token, metadata, if AnyDecoded(metadata) then 0 else 1, fetchedAt)
  }
}
