/**
  `GET /txs/{hash}` reads the node, then the status, then the database, while the loop keeps
  stepping in between. Whenever it includes transfers, they are exactly the receipt's.
 */
module TxDetail {
  import opened Wrappers
  import opened Chain
  import opened Schema
  import opened Index
  import opened Status
  import opened Protocol
  import opened Health
  import opened Sql
  import opened Feeds
  import opened Paging

  /** The gate: `block_number <= last_indexed().unwrap_or(0)`. */
  predicate GateOpen(indexedPlusOne: nat, block: nat) {
    block <= LastIndexed(indexedPlusOne).UnwrapOr(0)
  }

  /** The gate is open for the blocks below the view, and for genesis whatever the view. */
  lemma GateIsOpenIff(indexedPlusOne: nat, block: nat)
    ensures GateOpen(indexedPlusOne, block) <==> block < indexedPlusOne || block == 0
  {
  }

  /** The two fields of the response. */
  datatype Embedded = Embedded(transfers: seq<StoredTransfer>, count: nat)

  /**
    `tx_transfer_page` with the limits the detail route uses. The page and the count are two
    statements outside any transaction, so each may see its own database state.
   */
  ghost function ReadTransfers(atPage: Rows, atCount: Rows, block: nat, tx: nat): Embedded {
    Embedded(Slice(TxTransfers(atPage.transfers, block, tx), MAX_PER_PAGE, 0),
             CountTxTransfers(atCount.transfers, block, tx))
  }

  /** The part of `tx_by_hash` that adds the two fields, or leaves them out. */
  ghost function TransferFields(indexedPlusOne: nat, atPage: Rows, atCount: Rows, block: nat, tx: nat)
    : Option<Embedded>
  {
    if GateOpen(indexedPlusOne, block) then Some(ReadTransfers(atPage, atCount, block, tx)) else None
  }

  /** The list is the first hundred of the receipt's conforming logs, the count is how many there are. */
  predicate IsReceipt(read: Embedded, block: Block, tx: nat) {
    var all := ReceiptTransfers(block, tx);
    read.count == |all| && read.transfers == if |all| <= 100 then all else all[..100]
  }

  lemma UnindexedReadsEmpty(db: Db, chain: seq<Block>, b: nat, t: nat)
    requires Agrees(db, chain) && NextBlock(db.cursor) <= b
    ensures TxTransfers(db.rows.transfers, b, t) == [] && CountTxTransfers(db.rows.transfers, b, t) == 0
  {
    var table := db.rows.transfers;
    assert RowsOfTx(table, b, t) == {};
    TxRowsAreOrdered(table, b, t);
    OrderedExact(RowsOfTx(table, b, t), EarlierLog);
    assert (set key | key in table && key.block == b && key.tx == t) == {};
  }

  /**
    The two statements give the receipt's answer exactly when the block was indexed at the
    first of them or emitted nothing.
   */
  lemma ReadIsReceiptIff(atPage: Db, atCount: Db, chain: seq<Block>, b: nat, t: nat)
    requires ValidChain(chain) && b < |chain| && t < |chain[b].transactions|
    requires Agrees(atPage, chain) && Agrees(atCount, chain)
    requires NextBlock(atPage.cursor) <= NextBlock(atCount.cursor)
    ensures IsReceipt(ReadTransfers(atPage.rows, atCount.rows, b, t), chain[b], t)
            <==> b < NextBlock(atPage.cursor) || ReceiptTransfers(chain[b], t) == []
  {
    if b < NextBlock(atPage.cursor) {
      TxTransfersExact(atPage.rows.transfers, chain, NextBlock(atPage.cursor), b, t);
    } else {
      UnindexedReadsEmpty(atPage, chain, b, t);
    }
    if b < NextBlock(atCount.cursor) {
      TxTransfersExact(atCount.rows.transfers, chain, NextBlock(atCount.cursor), b, t);
    } else {
      UnindexedReadsEmpty(atCount, chain, b, t);
    }
  }

  /** The node read happens in `s`, the status read after `gate` steps, page and count after more. */
  ghost predicate Interleaving(s: State, gate: seq<Action>, page: seq<Action>, count: seq<Action>) {
    && Inv(s) && s.phase != Down
    && Runs(s, gate) && SameProcess(gate)
    && Runs(After(s, gate), page) && SameProcess(page)
    && Runs(After(After(s, gate), page), count) && SameProcess(count)
  }

  /** The answer's transfer fields under that interleaving. */
  ghost function Answer(
      s: State, gate: seq<Action>, page: seq<Action>, count: seq<Action>, b: nat, t: nat): Option<Embedded>
    requires Interleaving(s, gate, page, count)
  {
    var seen := After(s, gate);
    var atPage := After(seen, page);
    TransferFields(seen.indexedPlusOne, atPage.db.rows, After(atPage, count).db.rows, b, t)
  }

  lemma InterleavedReads(
      s: State, gate: seq<Action>, page: seq<Action>, count: seq<Action>, b: nat, t: nat)
    requires Interleaving(s, gate, page, count) && b < |s.chain| && t < |s.chain[b].transactions|
    ensures var atPage := After(After(s, gate), page);
            && (IsReceipt(ReadTransfers(atPage.db.rows, After(atPage, count).db.rows, b, t), s.chain[b], t)
                <==> b < NextBlock(atPage.db.cursor) || ReceiptTransfers(s.chain[b], t) == [])
            && (b < After(s, gate).indexedPlusOne ==> b < NextBlock(atPage.db.cursor))
  {
    ProcessMovesForward(s, gate);
    var seen := After(s, gate);
    ProcessMovesForward(seen, page);
    var atPage := After(seen, page);
    ProcessMovesForward(atPage, count);
    var atCount := After(atPage, count);
    AgreesWithLonger(atPage.db, atPage.chain, atCount.chain);
    assert atCount.chain[b] == s.chain[b];
    ReadIsReceiptIff(atPage.db, atCount.db, atCount.chain, b, t);
  }

  /**
    For every interleaving: the fields are present exactly when the block is below the view at
    the status read or is genesis. Below the view they are always the receipt's own; over an
    empty view, for genesis, exactly if the block was indexed by the list read or emitted nothing.
   */
  lemma EmbeddedTransfersAreExact(
      s: State, gate: seq<Action>, page: seq<Action>, count: seq<Action>, b: nat, t: nat)
    requires Interleaving(s, gate, page, count) && b < |s.chain| && t < |s.chain[b].transactions|
    ensures var answer, view := Answer(s, gate, page, count, b, t), After(s, gate).indexedPlusOne;
            && (answer.Some? <==> b < view || b == 0)
            && (b < view ==> IsReceipt(answer.value, s.chain[b], t))
            && (answer.Some? ==>
                  (IsReceipt(answer.value, s.chain[b], t)
                   <==> 0 < NextBlock(After(After(s, gate), page).db.cursor) || ReceiptTransfers(s.chain[b], t) == []))
  {
    GateIsOpenIff(After(s, gate).indexedPlusOne, b);
    InterleavedReads(s, gate, page, count, b, t);
  }

  /** With a genesis that holds no transaction, fields that are present are the receipt's. */
  lemma ExactWithEmptyGenesis(
      s: State, gate: seq<Action>, page: seq<Action>, count: seq<Action>, b: nat, t: nat)
    requires Interleaving(s, gate, page, count) && s.chain[0].transactions == []
    requires b < |s.chain| && t < |s.chain[b].transactions|
    ensures var answer := Answer(s, gate, page, count, b, t);
            && (answer.Some? <==> b < After(s, gate).indexedPlusOne)
            && (answer.Some? ==> IsReceipt(answer.value, s.chain[b], t))
  {
    EmbeddedTransfersAreExact(s, gate, page, count, b, t);
  }

  /** In every run, a waiting loop shows the fields of every transaction up to its cursor, and they are exact. */
  lemma WaitingShowsTransfers(s: State, actions: seq<Action>, b: nat, t: nat)
    requires Init(s) && Runs(s, actions) && After(s, actions).phase == Waiting
    requires b < |After(s, actions).chain| && t < |After(s, actions).chain[b].transactions|
    ensures var now := After(s, actions);
            var answer := TransferFields(now.indexedPlusOne, now.db.rows, now.db.rows, b, t);
            && (answer.Some? <==> b < NextBlock(now.db.cursor))
            && (answer.Some? ==> IsReceipt(answer.value, now.chain[b], t))
  {
    RunsKeepInvariant(s, actions);
    WaitingIsCompleteIff(s, actions);
    var now := After(s, actions);
    GateIsOpenIff(now.indexedPlusOne, b);
    ReadIsReceiptIff(now.db, now.db, now.chain, b, t);
  }

  /**
    A genesis that emitted transfers does show the failure: a process just booted over an
    empty index opens the gate for it and answers with an empty list.
   */
  lemma OpenGateOverGenesis(s: State, t: nat)
    requires Init(s) && t < |s.chain[0].transactions| && ReceiptTransfers(s.chain[0], t) != []
    ensures var boot := [Boot(true, |s.chain|)];
            && Runs(s, boot)
            && var now := After(s, boot);
               var answer := TransferFields(now.indexedPlusOne, now.db.rows, now.db.rows, 0, t);
               answer == Some(Embedded([], 0)) && !IsReceipt(answer.value, s.chain[0], t)
  {
    var boot := [Boot(true, |s.chain|)];
    var now := Next(s, boot[0]);
    assert boot[1..] == [] && Runs(now, []) && After(now, []) == now;
    EmptyAgrees(s.chain);
    GateIsOpenIff(now.indexedPlusOne, 0);
    UnindexedReadsEmpty(now.db, s.chain, 0, t);
    assert Slice<StoredTransfer>([], MAX_PER_PAGE, 0) == [];
  }

  // ----- token metadata of a page -----

  /** `page_tokens`: the cached row of every token in the page that has one. */
  method PageTokens(table: map<Address, TokenEntry>, rows: seq<StoredTransfer>)
    returns (tokens: map<Address, TokenEntry>)
    ensures forall token :: token in tokens <==>
              token in table && exists i :: 0 <= i < |rows| && rows[i].body.token == token
    ensures forall token :: token in tokens ==> tokens[token] == table[token]
  {
    tokens := map[];
    for i := 0 to |rows|
      invariant forall token :: token in tokens <==>
                  token in table && exists j :: 0 <= j < i && rows[j].body.token == token
      invariant forall token :: token in tokens ==> tokens[token] == table[token]
    {
      var token := rows[i].body.token;
      if token !in tokens && token in table {
        tokens := tokens[token := table[token]];
      }
    }
  }

  /** Every indexed transfer's token has its metadata row in the same database state. */
  lemma EveryTransferHasTokenRow(db: Db, chain: seq<Block>, key: TransferKey)
    requires Agrees(db, chain) && key in db.rows.transfers
    ensures db.rows.transfers[key].token in db.rows.tokens
  {
    assert Emitted(chain, NextBlock(db.cursor), key);
    assert TransferAt(chain, key).token == db.rows.transfers[key].token;
  }

  /**
    A committed transfer never changes, and whenever its page is decorated, at that moment
    or at any later one of the process, its token has a metadata row.
   */
  lemma CommittedTransfersStay(s: State, actions: seq<Action>, key: TransferKey)
    requires Inv(s) && s.phase != Down && Runs(s, actions) && SameProcess(actions)
    requires key in s.db.rows.transfers
    ensures var now := After(s, actions);
            && key in now.db.rows.transfers
            && now.db.rows.transfers[key] == s.db.rows.transfers[key]
            && now.db.rows.transfers[key].token in now.db.rows.tokens
  {
    ProcessMovesForward(s, actions);
    var now := After(s, actions);
    AgreesWithLonger(s.db, s.chain, now.chain);
    assert Emitted(now.chain, NextBlock(s.db.cursor), key);
    assert Emitted(now.chain, NextBlock(now.db.cursor), key);
    EveryTransferHasTokenRow(now.db, now.chain, key);
  }

  /**
    A row read from the database can be hydrated by a node read at that moment or at any
    later one, from every feed; and the transaction it names is still the same.
   */
  lemma RowsStayHydratable(s: State, actions: seq<Action>)
    requires Inv(s) && s.phase != Down && Runs(s, actions) && SameProcess(actions)
    requires Executed(After(s, actions).chain)
    ensures var now := After(s, actions);
            && s.chain <= now.chain
            && (forall key :: key in s.db.rows.transfers ==> Hydratable(now.chain, TxPointer(key.block, key.tx)))
            && (forall key :: key in s.db.rows.addressTxs ==> Hydratable(now.chain, TxPointer(key.block, key.tx)))
            && (forall key :: key in s.db.rows.txTypes ==> Hydratable(now.chain, TxPointer(key.block, key.tx)))
  {
    ProcessMovesForward(s, actions);
    var now := After(s, actions);
    AgreesWithLonger(s.db, s.chain, now.chain);
    StoredRowsAreHydratable(s.db, now.chain);
  }
}
