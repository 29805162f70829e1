/**
  Pure per-block extraction: an executed block and its receipts become the rows the
  index stores. `Extract` is the specification, `ExtractBlock` the loop that builds the
  rows by pushing, and the lemmas say which rows come out and in what order.
 */
module Extraction {
  import opened Wrappers
  import opened Chain
  import opened HeaderCodec

  /** keccak256("Transfer(address,address,uint256)"). */
  const TRANSFER_TOPIC: nat := 0xddf252ad1be2c89b69c2b068fc378daa952ba7f163c4a11628f55a4df523b3ef

  datatype AddressRow = AddressRow(address: Address, blockNumber: nat, txIndex: nat, txType: Byte)

  datatype TxTypeRow = TxTypeRow(txType: Byte, blockNumber: nat, txIndex: nat)

  datatype TransferRow = TransferRow(
    blockNumber: nat, txIndex: nat, logIndex: nat,
    token: Address, from: Address, to: Address, value: nat)

  datatype ConsensusRow = ConsensusRow(digest: Digest, epoch: nat, round: nat, blockNumber: nat)

  datatype ExtractedBlock = ExtractedBlock(
    number: nat,
    addressRows: seq<AddressRow>,
    txTypes: seq<TxTypeRow>,
    transfers: seq<TransferRow>,
    tokenCandidates: seq<Address>,
    consensus: Option<ConsensusRow>)

  /** `Address::from_word`: the last 20 bytes of a 32-byte word. */
  function AddressFromWord(word: nat): Address {
    Address(word % TWO_POW_160)
  }

  /** The strict ERC-20 rule; the four-topic ERC-721 form fails the topic count. */
  predicate IsTransferLog(log: Log) {
    |log.topics| == 3 && log.topics[0] == TRANSFER_TOPIC && |log.data| == 32
  }

  /** `decode_transfer_log`. */
  function DecodeTransferLog(log: Log, blockNumber: nat, txIndex: nat, logIndex: nat): (row: Option<TransferRow>)
    ensures row.Some? <==> IsTransferLog(log)
  {
    if |log.topics| != 3 || log.topics[0] != TRANSFER_TOPIC then None
    else if |log.data| != 32 then None
    else
      Some(TransferRow(blockNumber, txIndex, logIndex, log.address,
                       AddressFromWord(log.topics[1]), AddressFromWord(log.topics[2]),
                       FromBigEndian(log.data)))
  }

  /** What a conforming contract emits; the upper bytes of the two address words may hold anything. */
  function TransferLog(token: Address, from: Address, to: Address, value: nat, dirt: nat, moreDirt: nat): Log {
    Log(token, [TRANSFER_TOPIC, dirt * TWO_POW_160 + from.id, moreDirt * TWO_POW_160 + to.id], ToBigEndian(value, 32))
  }

  lemma LowBytes(address: Address, dirt: nat)
    requires address.id < TWO_POW_160
    ensures AddressFromWord(dirt * TWO_POW_160 + address.id) == address
  {
    DivisionUnique(dirt * TWO_POW_160 + address.id, TWO_POW_160, dirt, address.id);
  }

  /** Decoding inverts emission: token, both addresses and the whole 256-bit value come back. */
  lemma DecodeInvertsEmission(
      token: Address, from: Address, to: Address, value: nat, dirt: nat, moreDirt: nat, b: nat, t: nat, l: nat)
    requires from.id < TWO_POW_160 && to.id < TWO_POW_160 && value < Pow256(32)
    ensures DecodeTransferLog(TransferLog(token, from, to, value, dirt, moreDirt), b, t, l)
            == Some(TransferRow(b, t, l, token, from, to, value))
  {
    BigEndianDecodes(value, 32);
    LowBytes(from, dirt);
    LowBytes(to, moreDirt);
  }

  /** And every log that decodes was such an emission. */
  lemma DecodedLogWasEmitted(log: Log, b: nat, t: nat, l: nat)
    requires IsTransferLog(log)
    ensures var row := DecodeTransferLog(log, b, t, l).value;
            && row.from.id < TWO_POW_160 && row.to.id < TWO_POW_160 && row.value < Pow256(32)
            && log == TransferLog(log.address, row.from, row.to, row.value,
                                  log.topics[1] / TWO_POW_160, log.topics[2] / TWO_POW_160)
  {
    BigEndianEncodes(log.data);
    assert log.topics == [TRANSFER_TOPIC, log.topics[1], log.topics[2]];
  }

  // ----- specification: the rows of the first t transactions -----

  function AddressRows(block: Block, t: nat): seq<AddressRow>
    requires t <= |block.transactions|
  {
    if t == 0 then []
    else
      var tx := block.transactions[t - 1];
      AddressRows(block, t - 1)
      + [AddressRow(tx.sender, block.header.number, t - 1, tx.ty)]
      + [AddressRow(Recipient(tx), block.header.number, t - 1, tx.ty)]
  }

  function TypeRows(block: Block, t: nat): seq<TxTypeRow>
    requires t <= |block.transactions|
  {
    if t == 0 then []
    else TypeRows(block, t - 1) + [TxTypeRow(block.transactions[t - 1].ty, block.header.number, t - 1)]
  }

  /** Transfer rows among the first `l` logs of transaction `t`. */
  function LogRows(block: Block, t: nat, l: nat): seq<TransferRow>
    requires l <= |LogsOf(block, t)|
  {
    if l == 0 then []
    else
      match DecodeTransferLog(LogsOf(block, t)[l - 1], block.header.number, t, l - 1)
      case Some(row) => LogRows(block, t, l - 1) + [row]
      case None => LogRows(block, t, l - 1)
  }

  function TransferRows(block: Block, t: nat): seq<TransferRow> {
    if t == 0 then []
    else TransferRows(block, t - 1) + LogRows(block, t - 1, |LogsOf(block, t - 1)|)
  }

  /** The distinct emitting contracts, in first-seen order. */
  function DistinctTokens(rows: seq<TransferRow>): seq<Address> {
    if rows == [] then []
    else
      var seen := DistinctTokens(rows[..|rows| - 1]);
      var token := rows[|rows| - 1].token;
      if token in seen then seen else seen + [token]
  }

  function ConsensusRowOf(header: Header): Option<ConsensusRow> {
    match DecodeConsensusFields(header)
    case Some(f) => Some(ConsensusRow(f.digest, f.epoch, f.round, header.number))
    case None => None
  }

  function Extract(block: Block): ExtractedBlock {
    var transfers := TransferRows(block, |block.transactions|);
    ExtractedBlock(
      block.header.number,
      AddressRows(block, |block.transactions|),
      TypeRows(block, |block.transactions|),
      transfers,
      DistinctTokens(transfers),
      ConsensusRowOf(block.header))
  }

  // ----- the loop -----

  /** The inner loop: push the transfers of transaction `t` and any contract not seen before. */
  method PushTransfers(block: Block, t: nat, before: seq<TransferRow>, seen: seq<Address>)
    returns (transfers: seq<TransferRow>, tokenCandidates: seq<Address>)
    requires t < |block.receipts|
    requires seen == DistinctTokens(before)
    ensures transfers == before + LogRows(block, t, |LogsOf(block, t)|)
    ensures tokenCandidates == DistinctTokens(transfers)
  {
    transfers, tokenCandidates := before, seen;
    var logs := block.receipts[t].logs;
    for l := 0 to |logs|
      invariant transfers == before + LogRows(block, t, l)
      invariant tokenCandidates == DistinctTokens(transfers)
    {
      var decoded := DecodeTransferLog(logs[l], block.header.number, t, l);
      LogStep(block, t, l);
      if decoded.Some? {
        var row := decoded.value;
        DistinctTokensPush(transfers, row);
        if row.token !in tokenCandidates {
          tokenCandidates := tokenCandidates + [row.token];
        }
        transfers := transfers + [row];
      }
    }
  }

  lemma LogStep(block: Block, t: nat, l: nat)
    requires l < |LogsOf(block, t)|
    ensures var decoded := DecodeTransferLog(LogsOf(block, t)[l], block.header.number, t, l);
            LogRows(block, t, l + 1) == LogRows(block, t, l) + if decoded.Some? then [decoded.value] else []
  {
  }

  lemma DistinctTokensPush(rows: seq<TransferRow>, row: TransferRow)
    ensures DistinctTokens(rows + [row])
            == DistinctTokens(rows) + if row.token in DistinctTokens(rows) then [] else [row.token]
  {
    assert (rows + [row])[..|rows|] == rows;
  }

  method ExtractBlock(block: Block) returns (extracted: ExtractedBlock)
    ensures extracted == Extract(block)
  {
    var number := block.header.number;
    var addressRows: seq<AddressRow> := [];
    var txTypes: seq<TxTypeRow> := [];
    var transfers: seq<TransferRow> := [];
    var tokenCandidates: seq<Address> := [];

    for t := 0 to |block.transactions|
      invariant addressRows == AddressRows(block, t)
      invariant txTypes == TypeRows(block, t)
      invariant transfers == TransferRows(block, t)
      invariant tokenCandidates == DistinctTokens(transfers)
    {
      var tx := block.transactions[t];
      txTypes := txTypes + [TxTypeRow(tx.ty, number, t)];
      addressRows := addressRows + [AddressRow(tx.sender, number, t, tx.ty)];
      match tx.to {
        case Some(to) => addressRows := addressRows + [AddressRow(to, number, t, tx.ty)];
        case None => addressRows := addressRows + [AddressRow(tx.created, number, t, tx.ty)];
      }

      if t < |block.receipts| {
        transfers, tokenCandidates := PushTransfers(block, t, transfers, tokenCandidates);
      }
    }

    var consensus := ConsensusRowOf(block.header);
    extracted := ExtractedBlock(number, addressRows, txTypes, transfers, tokenCandidates, consensus);
  }

  // ----- which rows come out -----

  /** Two address rows per transaction, sender first, both carrying its type. */
  lemma {:induction false} AddressRowsAt(block: Block, t: nat)
    requires t <= |block.transactions|
    ensures |AddressRows(block, t)| == 2 * t
    ensures forall i :: 0 <= i < t ==>
              var tx, other := block.transactions[i], AddressRows(block, t)[2 * i + 1];
              && AddressRows(block, t)[2 * i] == AddressRow(tx.sender, block.header.number, i, tx.ty)
              && (tx.to.Some? ==> other.address == tx.to.value)
              && (tx.to.None? ==> other.address == tx.created)
              && other == AddressRow(other.address, block.header.number, i, tx.ty)
  {
    if t != 0 {
      AddressRowsAt(block, t - 1);
    }
  }

  lemma {:induction false} TypeRowsAt(block: Block, t: nat)
    requires t <= |block.transactions|
    ensures |TypeRows(block, t)| == t
    ensures forall i :: 0 <= i < t ==>
              TypeRows(block, t)[i] == TxTypeRow(block.transactions[i].ty, block.header.number, i)
  {
    if t != 0 {
      TypeRowsAt(block, t - 1);
    }
  }

  /** `row` is what the conforming log at its own position decodes to. */
  predicate IsTransferOf(block: Block, row: TransferRow) {
    && row.blockNumber == block.header.number
    && row.logIndex < |LogsOf(block, row.txIndex)|
    && DecodeTransferLog(LogsOf(block, row.txIndex)[row.logIndex], row.blockNumber, row.txIndex, row.logIndex)
       == Some(row)
  }

  predicate KeyBelow(a: TransferRow, b: TransferRow) {
    a.txIndex < b.txIndex || (a.txIndex == b.txIndex && a.logIndex < b.logIndex)
  }

  ghost predicate StrictlyIncreasing(rows: seq<TransferRow>) {
    forall i, j :: 0 <= i < j < |rows| ==> KeyBelow(rows[i], rows[j])
  }

  lemma {:induction false} LogRowsExact(block: Block, t: nat, l: nat)
    requires l <= |LogsOf(block, t)|
    ensures forall row :: row in LogRows(block, t, l) <==>
              IsTransferOf(block, row) && row.txIndex == t && row.logIndex < l
    ensures StrictlyIncreasing(LogRows(block, t, l))
  {
    if l != 0 {
      LogRowsExact(block, t, l - 1);
      var before := LogRows(block, t, l - 1);
      forall i | 0 <= i < |before| ensures before[i].txIndex == t && before[i].logIndex < l - 1 {
        assert before[i] in before;
      }
    }
  }

  /** The transfer rows are exactly the conforming logs, with strictly increasing keys. */
  lemma {:induction false} TransferRowsExact(block: Block, t: nat)
    ensures forall row :: row in TransferRows(block, t) <==> IsTransferOf(block, row) && row.txIndex < t
    ensures StrictlyIncreasing(TransferRows(block, t))
  {
    if t != 0 {
      TransferRowsExact(block, t - 1);
      var before, added := TransferRows(block, t - 1), LogRows(block, t - 1, |LogsOf(block, t - 1)|);
      LogRowsExact(block, t - 1, |LogsOf(block, t - 1)|);
      forall i | 0 <= i < |before| ensures before[i].txIndex < t - 1 {
        assert before[i] in before;
      }
      forall i | 0 <= i < |added| ensures added[i].txIndex == t - 1 {
        assert added[i] in added;
      }
    }
  }

  ghost predicate Distinct<T>(s: seq<T>) {
    forall i, j :: 0 <= i < j < |s| ==> s[i] != s[j]
  }

  /** The candidates are the emitting contracts, each once. */
  lemma {:induction false} DistinctTokensExact(rows: seq<TransferRow>)
    ensures Distinct(DistinctTokens(rows))
    ensures forall token :: token in DistinctTokens(rows) <==> exists row :: row in rows && row.token == token
  {
    if rows != [] {
      var init, last := rows[..|rows| - 1], rows[|rows| - 1];
      DistinctTokensExact(init);
      assert rows == init + [last];
      forall token ensures token in DistinctTokens(rows) <==> exists row :: row in rows && row.token == token {
        if token == last.token {
          assert last in rows;
        } else if token in DistinctTokens(rows) {
          var row :| row in init && row.token == token;
          assert row in rows;
        } else if exists row :: row in rows && row.token == token {
          var row :| row in rows && row.token == token;
          assert row in init;
        }
      }
    }
  }

  /** The candidate list only ever grows at its end: first-seen order. */
  lemma {:induction false} DistinctTokensFirstSeen(rows: seq<TransferRow>, k: nat)
    requires k <= |rows|
    ensures DistinctTokens(rows[..k]) <= DistinctTokens(rows)
  {
    if k == |rows| {
      assert rows[..k] == rows;
    } else {
      var init := rows[..|rows| - 1];
      DistinctTokensFirstSeen(init, k);
      assert init[..k] == rows[..k];
    }
  }

  ghost predicate IsParticipant(block: Block, row: AddressRow) {
    && row.blockNumber == block.header.number
    && row.txIndex < |block.transactions|
    && (|| row.address == block.transactions[row.txIndex].sender
        || block.transactions[row.txIndex].to == Some(row.address)
        || (block.transactions[row.txIndex].to == None && row.address == block.transactions[row.txIndex].created))
    && row.txType == block.transactions[row.txIndex].ty
  }

  /** Every address row files a transaction under its sender or recipient, with its type. */
  lemma AddressRowsParticipate(block: Block)
    ensures forall row :: row in AddressRows(block, |block.transactions|) ==> IsParticipant(block, row)
  {
    var n, rows := |block.transactions|, AddressRows(block, |block.transactions|);
    AddressRowsAt(block, n);
    forall row | row in rows ensures IsParticipant(block, row) {
      var i :| 0 <= i < |rows| && rows[i] == row;
      var t := i / 2;
      assert 0 <= t < n && (i == 2 * t || i == 2 * t + 1);
      var tx := block.transactions[t];
    }
  }

  /** Extraction never hands storage two rows with one key and different content. */
  lemma ExtractedKeysAreUnique(block: Block)
    ensures var e := Extract(block);
            && StrictlyIncreasing(e.transfers)
            && (forall i, j :: 0 <= i < j < |e.txTypes| ==> e.txTypes[i].txIndex < e.txTypes[j].txIndex)
            && (forall a, b | a in e.addressRows && b in e.addressRows ::
                  a.txIndex == b.txIndex && a.address == b.address ==> a == b)
            && Distinct(e.tokenCandidates)
  {
    var n := |block.transactions|;
    TransferRowsExact(block, n);
    TypeRowsAt(block, n);
    DistinctTokensExact(TransferRows(block, n));
    AddressRowsParticipate(block);
  }
}
