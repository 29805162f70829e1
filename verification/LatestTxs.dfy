/**
  The chain-wide transaction feed (`/txs`), paged by arithmetic over the node's dense
  transaction numbers, against the newest-first list of all transactions and the
  per-type feeds the index serves.
 */
module LatestTxs {
  import opened Wrappers
  import opened Chain
  import opened Schema
  import opened Index
  import opened Sql
  import Paging
  import opened Feeds
  import opened Hydration

  // ----- the node's transaction numbers -----

  function InBlock(b: nat, count: nat): seq<TxPointer> {
    seq(count, t requires 0 <= t < count => TxPointer(b, t))
  }

  /** Transactions of the first `n` blocks in chain order; the position is the `TxNumber`. */
  function Numbered(chain: seq<Block>, n: nat): seq<TxPointer>
    requires n <= |chain|
  {
    if n == 0 then [] else Numbered(chain, n - 1) + InBlock(n - 1, |chain[n - 1].transactions|)
  }

  /** Every transaction of the first `n` blocks, newest first. */
  function NewestFirst(chain: seq<Block>, n: nat): seq<TxPointer>
    requires n <= |chain|
  {
    var all := Numbered(chain, n);
    seq(|all|, i requires 0 <= i < |all| => all[|all| - 1 - i])
  }

  predicate Transacts(chain: seq<Block>, n: nat, p: TxPointer)
    requires n <= |chain|
  {
    p.block < n && p.tx < |chain[p.block].transactions|
  }

  /** The numbering lists every transaction once, in strictly ascending chain order. */
  lemma {:induction false} NumberedExact(chain: seq<Block>, n: nat)
    requires n <= |chain|
    ensures forall i, j :: 0 <= i < j < |Numbered(chain, n)| ==>
              NewerPointer(Numbered(chain, n)[j], Numbered(chain, n)[i])
    ensures forall p :: p in Numbered(chain, n) <==> Transacts(chain, n, p)
    ensures |Numbered(chain, n)| == TransactionsBelow(chain, n)
  {
    if n != 0 {
      NumberedExact(chain, n - 1);
      var before, added := Numbered(chain, n - 1), InBlock(n - 1, |chain[n - 1].transactions|);
      forall p ensures p in before + added <==> Transacts(chain, n, p) {
        if Transacts(chain, n, p) && p.block == n - 1 {
          assert added[p.tx] == p;
        }
      }
      forall i, j | 0 <= i < j < |before + added| ensures NewerPointer((before + added)[j], (before + added)[i]) {
        if i < |before| {
          assert before[i] in before;
        }
      }
    }
  }

  lemma NewestFirstExact(chain: seq<Block>, n: nat)
    requires n <= |chain|
    ensures Sorted(NewestFirst(chain, n), NewerPointer)
    ensures forall p :: p in NewestFirst(chain, n) <==> Transacts(chain, n, p)
    ensures |NewestFirst(chain, n)| == TransactionsBelow(chain, n)
  {
    NumberedExact(chain, n);
    var all, list := Numbered(chain, n), NewestFirst(chain, n);
    forall p | p in all ensures p in list {
      var i :| 0 <= i < |all| && all[i] == p;
      assert list[|all| - 1 - i] == p;
    }
  }

  // ----- one page -----

  /** Positions `low..=high` of `all`, highest first. */
  function Backwards(all: seq<TxPointer>, low: nat, high: nat): seq<TxPointer>
    requires low <= high < |all|
  {
    seq(high + 1 - low, i requires 0 <= i < high + 1 - low => all[high - i])
  }

  /** The transactions a page names, newest first. */
  function LatestPage(chain: seq<Block>, page: nat, perPage: nat): seq<TxPointer> {
    var all := Numbered(chain, |chain|);
    match Paging.DescPageBounds(|all|, page, perPage)
    case None => []
    case Some(b) => Backwards(all, b.low, b.high)
  }

  /** The arithmetic page is the LIMIT/OFFSET slice of the feed exactly when the page size is positive. */
  lemma LatestPageIsSlice(chain: seq<Block>, page: nat, perPage: nat)
    requires |Numbered(chain, |chain|)| <= U64_MAX
    ensures LatestPage(chain, page, perPage) == Slice(NewestFirst(chain, |chain|), perPage, page * perPage)
            <==> perPage >= 1 || NewestFirst(chain, |chain|) == []
  {
    var all := Numbered(chain, |chain|);
    var got, slice := LatestPage(chain, page, perPage), Slice(NewestFirst(chain, |chain|), perPage, page * perPage);
    if perPage >= 1 && page * perPage < |all| {
      assert |got| == |slice|;
      assert forall i :: 0 <= i < |got| ==> got[i] == slice[i];
    } else if perPage == 0 && all != [] {
      assert page * perPage == 0;
      assert |got| == 1 && |slice| == 0;
    }
  }

  lemma OnePage(chain: seq<Block>, page: nat, perPage: nat)
    requires |Numbered(chain, |chain|)| <= U64_MAX && perPage >= 1
    ensures LatestPage(chain, page, perPage) == Slice(NewestFirst(chain, |chain|), perPage, page * perPage)
  {
    LatestPageIsSlice(chain, page, perPage);
  }

  function LatestPages(chain: seq<Block>, perPage: nat, pages: nat): seq<TxPointer> {
    if pages == 0 then [] else LatestPages(chain, perPage, pages - 1) + LatestPage(chain, pages - 1, perPage)
  }

  lemma {:induction false} LatestPagesAreSlices(chain: seq<Block>, perPage: nat, pages: nat)
    requires |Numbered(chain, |chain|)| <= U64_MAX && perPage >= 1
    ensures LatestPages(chain, perPage, pages) == Pages(NewestFirst(chain, |chain|), perPage, pages)
  {
    if pages != 0 {
      var page, all := pages - 1, NewestFirst(chain, |chain|);
      LatestPagesAreSlices(chain, perPage, page);
      OnePage(chain, page, perPage);
      assert LatestPages(chain, perPage, pages) == LatestPages(chain, perPage, page) + LatestPage(chain, page, perPage);
      assert Pages(all, perPage, pages) == Pages(all, perPage, page) + Slice(all, perPage, page * perPage);
    }
  }

  /** Enough pages concatenate to every transaction of the chain, once each, newest first. */
  lemma LatestPagesPartition(chain: seq<Block>, perPage: nat, pages: nat)
    requires |Numbered(chain, |chain|)| <= U64_MAX
    requires perPage >= 1 && pages * perPage >= TransactionsBelow(chain, |chain|)
    ensures var served := LatestPages(chain, perPage, pages);
            && (forall i, j :: 0 <= i < j < |served| ==>
                  var a, b := served[i], served[j];
                  a.block > b.block || (a.block == b.block && a.tx > b.tx))
            && (forall p :: p in served <==> p.block < |chain| && p.tx < |chain[p.block].transactions|)
  {
    LatestPagesAreSlices(chain, perPage, pages);
    NewestFirstExact(chain, |chain|);
    PagesConcatenate(NewestFirst(chain, |chain|), perPage, pages);
  }

  datatype BlockContext = BlockContext(receipts: seq<Receipt>, baseFee: Option<nat>)

  function ContextOf(block: Block): BlockContext {
    BlockContext(block.receipts, block.header.baseFeePerGas)
  }

  /** Receipts and base fee of every distinct block of `entries`. */
  method BlockContexts(chain: seq<Block>, entries: seq<TxPointer>)
    returns (blocks: map<nat, BlockContext>)
    requires forall i :: 0 <= i < |entries| ==> entries[i].block < |chain|
    ensures forall n :: n in blocks <==> Mentions(entries, n)
    ensures forall n :: n in blocks ==>
              n < |chain| && blocks[n] == ContextOf(chain[n])
  {
    blocks := map[];
    for e := 0 to |entries|
      invariant forall n :: n in blocks <==> Mentions(entries[..e], n)
      invariant forall n :: n in blocks ==>
                  n < |chain| && blocks[n] == ContextOf(chain[n])
    {
      var number := entries[e].block;
      if number !in blocks {
        blocks := blocks[number := ContextOf(chain[number])];
      }
      MentionsOneMore(entries, e);
    }
    assert entries[..|entries|] == entries;
  }

  lemma MentionsOneMore(entries: seq<TxPointer>, e: nat)
    requires e < |entries|
    ensures forall n :: Mentions(entries[..e + 1], n) <==> Mentions(entries[..e], n) || n == entries[e].block
  {
    var shorter, longer := entries[..e], entries[..e + 1];
    forall n ensures Mentions(longer, n) <==> Mentions(shorter, n) || n == entries[e].block {
      if n == entries[e].block {
        assert longer[e].block == n;
      }
      if Mentions(shorter, n) {
        var i :| 0 <= i < |shorter| && shorter[i].block == n;
        assert longer[i].block == n;
      }
      if Mentions(longer, n) && n != entries[e].block {
        var i :| 0 <= i < |longer| && longer[i].block == n;
        assert shorter[i].block == n;
      }
    }
  }

  /** The ascending `entries` as transaction data, last one first. */
  method DataNewestFirst(chain: seq<Block>, entries: seq<TxPointer>, blocks: map<nat, BlockContext>)
    returns (result: Result<seq<TxData>, HydrateError>)
    requires forall i :: 0 <= i < |entries| ==> Transacts(chain, |chain|, entries[i])
    requires forall i :: 0 <= i < |entries| ==>
               && entries[i].block < |chain| && entries[i].block in blocks
               && blocks[entries[i].block] == ContextOf(chain[entries[i].block])
    ensures result.Success? <==> AllHydratable(chain, entries)
    ensures result.Success? ==>
              && |result.value| == |entries|
              && forall i :: 0 <= i < |entries| ==> result.value[i] == DataAt(chain, entries[|entries| - 1 - i])
  {
    var out: seq<TxData> := [];
    for left := |entries| downto 0
      invariant |out| == |entries| - left
      invariant forall i :: left <= i < |entries| ==> Hydratable(chain, entries[i])
      invariant forall i :: 0 <= i < |out| ==> out[i] == DataAt(chain, entries[|entries| - 1 - i])
    {
      var entry := entries[left];
      var receipts := blocks[entry.block].receipts;
      if entry.tx >= |receipts| {
        assert !Hydratable(chain, entries[left]);
        return Failure(DanglingPointer);
      }
      var tx := chain[entry.block].transactions[entry.tx];
      out := out + [TxData(tx.sender, tx, receipts[entry.tx].success, OwnGasUsed(receipts, entry.tx),
                           entry.block, entry.tx, blocks[entry.block].baseFee, chain[entry.block].header.timestamp)];
    }
    return Success(out);
  }

  /** The range read, in either direction. */
  lemma RangeReversed(chain: seq<Block>, low: nat, high: nat)
    requires low <= high < |Numbered(chain, |chain|)|
    ensures var entries := Numbered(chain, |chain|)[low..high + 1];
            var served := Backwards(Numbered(chain, |chain|), low, high);
            && (forall i :: 0 <= i < |entries| ==> Transacts(chain, |chain|, entries[i]))
            && (AllHydratable(chain, entries) <==> AllHydratable(chain, served))
            && (AllHydratable(chain, served) ==> forall i :: 0 <= i < |served| ==>
                  DataOf(chain, served)[i] == DataAt(chain, entries[|entries| - 1 - i]))
  {
    var all := Numbered(chain, |chain|);
    NumberedExact(chain, |chain|);
    var entries := all[low..high + 1];
    forall i | 0 <= i < |entries| ensures Transacts(chain, |chain|, entries[i]) {
      assert entries[i] in all;
    }
    SameTransactions(chain, entries, Backwards(all, low, high));
  }

  /** Read one range of transaction numbers and answer it newest first. */
  method ReadRange(chain: seq<Block>, low: nat, high: nat) returns (result: Result<seq<TxData>, HydrateError>)
    requires low <= high < |Numbered(chain, |chain|)|
    ensures var served := Backwards(Numbered(chain, |chain|), low, high);
            && (result.Success? <==> AllHydratable(chain, served))
            && (result.Success? ==> result.value == DataOf(chain, served))
  {
    var entries := Numbered(chain, |chain|)[low..high + 1];
    RangeReversed(chain, low, high);
    var blocks := BlockContexts(chain, entries);
    assert forall i :: 0 <= i < |entries| ==> Mentions(entries, entries[i].block);
    result := DataNewestFirst(chain, entries, blocks);
  }

  /**
    `latest_txs_page`: fails exactly when some transaction of the page has no receipt;
    otherwise it answers what hydrating the page's pointers one by one answers.
   */
  method LatestTxsPage(chain: seq<Block>, page: nat, perPage: nat)
    returns (result: Result<seq<TxData>, HydrateError>, total: nat)
    ensures total == TransactionsBelow(chain, |chain|)
    ensures result.Success? <==> AllHydratable(chain, LatestPage(chain, page, perPage))
    ensures result.Success? ==> result.value == DataOf(chain, LatestPage(chain, page, perPage))
  {
    var numbered := Numbered(chain, |chain|);
    NumberedExact(chain, |chain|);
    total := |numbered|;
    var bounds := Paging.DescPageBounds(total, page, perPage);
    if bounds.None? {
      return Success([]), total;
    }
    result := ReadRange(chain, bounds.value.low, bounds.value.high);
  }

  lemma SameTransactions(chain: seq<Block>, entries: seq<TxPointer>, served: seq<TxPointer>)
    requires |served| == |entries|
    requires forall i :: 0 <= i < |entries| ==> served[i] == entries[|entries| - 1 - i]
    requires forall i :: 0 <= i < |entries| ==> entries[i] == served[|entries| - 1 - i]
    ensures AllHydratable(chain, entries) <==> AllHydratable(chain, served)
    ensures AllHydratable(chain, served) ==> forall i :: 0 <= i < |served| ==>
              DataOf(chain, served)[i] == DataAt(chain, entries[|entries| - 1 - i])
  {
  }

  // ----- the feed and the index -----

  /** The entries of a pointer list whose transaction has type `ty`, in the same order. */
  function OfType(chain: seq<Block>, pointers: seq<TxPointer>, ty: Byte): seq<TxPointer>
    requires forall p :: p in pointers ==> Transacts(chain, |chain|, p)
  {
    if pointers == [] then []
    else
      assert pointers[0] in pointers && Transacts(chain, |chain|, pointers[0]);
      var rest := OfType(chain, pointers[1..], ty);
      if chain[pointers[0].block].transactions[pointers[0].tx].ty == ty then [pointers[0]] + rest else rest
  }

  lemma {:induction false} OfTypeExact(chain: seq<Block>, pointers: seq<TxPointer>, ty: Byte)
    requires forall p :: p in pointers ==> Transacts(chain, |chain|, p)
    requires Sorted(pointers, NewerPointer)
    ensures Sorted(OfType(chain, pointers, ty), NewerPointer)
    ensures forall p :: p in OfType(chain, pointers, ty) <==>
              p in pointers && chain[p.block].transactions[p.tx].ty == ty
    decreases |pointers|
  {
    if pointers != [] {
      assert pointers == [pointers[0]] + pointers[1..];
      OfTypeExact(chain, pointers[1..], ty);
      var rest := OfType(chain, pointers[1..], ty);
      forall i | 0 <= i < |rest| ensures NewerPointer(pointers[0], rest[i]) {
        assert rest[i] in rest;
        var k :| 0 <= k < |pointers[1..]| && pointers[1..][k] == rest[i];
        assert pointers[k + 1] == rest[i];
      }
    }
  }

  /**
    The feed of a type served from the index is the chain-wide feed of the indexed blocks
    with the other types left out, and its stored total is that list's length.
   */
  lemma TypeFeedFiltersLatest(db: Db, chain: seq<Block>, ty: Byte)
    requires Agrees(db, chain) && Executed(chain)
    ensures (forall p :: p in NewestFirst(chain, NextBlock(db.cursor)) ==> Transacts(chain, |chain|, p))
    ensures TypeFeed(db.rows.txTypes, ty) == OfType(chain, NewestFirst(chain, NextBlock(db.cursor)), ty)
    ensures CountOf(db.rows.typeCounts, ty) == |OfType(chain, NewestFirst(chain, NextBlock(db.cursor)), ty)|
  {
    var n := NextBlock(db.cursor);
    var list, pointers := NewestFirst(chain, n), PointersOfType(db.rows.txTypes, ty);
    NewestFirstExact(chain, n);
    OfTypeExact(chain, list, ty);
    TypeFeedExact(db, chain, ty);
    PointersAreOrdered(pointers);
    OrderedExact(pointers, NewerPointer);
    forall p ensures p in OfType(chain, list, ty) <==> p in pointers {
      assert p in TypeFeed(db.rows.txTypes, ty) <==> p in pointers;
    }
    OrderedUnique(OfType(chain, list, ty), pointers, NewerPointer);
  }

  /** The stored totals and the node's total agree exactly when no transaction lies above the cursor. */
  lemma TotalsMeetIff(db: Db, chain: seq<Block>)
    requires Agrees(db, chain)
    ensures SumCounts(db.rows.typeCounts, 256) == |NewestFirst(chain, |chain|)|
            <==> forall b :: NextBlock(db.cursor) <= b < |chain| ==> chain[b].transactions == []
  {
    TotalsCountEveryTransaction(db, chain);
    NewestFirstExact(chain, |chain|);
    NothingAboveIff(chain, NextBlock(db.cursor), |chain|);
  }

  lemma {:induction false} NothingAboveIff(chain: seq<Block>, low: nat, high: nat)
    requires low <= high <= |chain|
    ensures TransactionsBelow(chain, low) <= TransactionsBelow(chain, high)
    ensures TransactionsBelow(chain, low) == TransactionsBelow(chain, high)
            <==> forall b :: low <= b < high ==> chain[b].transactions == []
  {
    if low < high {
      NothingAboveIff(chain, low, high - 1);
    }
  }
}
