/**
  Turning index pointers back into transactions by replaying blocks, once per distinct
  block, and the per-transaction gas recovered from cumulative receipts.
 */
module Hydration {
  import opened Wrappers
  import opened Chain
  import opened Extraction
  import opened Feeds

  // ----- gas -----

  function CumulativeAt(receipts: seq<Receipt>, index: nat): nat {
    if index < |receipts| then receipts[index].cumulativeGasUsed else 0
  }

  /** `own_gas_used`: the delta to the previous receipt, saturating. */
  function OwnGasUsed(receipts: seq<Receipt>, index: nat): nat {
    var cumulative := CumulativeAt(receipts, index);
    if 1 <= index <= |receipts| then SaturatingSub(cumulative, receipts[index - 1].cumulativeGasUsed) else cumulative
  }

  function TotalGas(receipts: seq<Receipt>, n: nat): nat {
    if n == 0 then 0 else TotalGas(receipts, n - 1) + OwnGasUsed(receipts, n - 1)
  }

  predicate Cumulative(receipts: seq<Receipt>, n: nat)
    requires n <= |receipts|
  {
    forall i, j :: 0 <= i < j < n ==> receipts[i].cumulativeGasUsed <= receipts[j].cumulativeGasUsed
  }

  /**
    Conservation: the recovered parts add up to the block's last cumulative value exactly
    when the receipts really are cumulative; otherwise they add up to more.
   */
  lemma {:induction false} GasAddsUpIffCumulative(receipts: seq<Receipt>, n: nat)
    requires 0 < n <= |receipts|
    ensures TotalGas(receipts, n) >= receipts[n - 1].cumulativeGasUsed
    ensures TotalGas(receipts, n) == receipts[n - 1].cumulativeGasUsed <==> Cumulative(receipts, n)
  {
    if n == 1 {
      assert TotalGas(receipts, 1) == TotalGas(receipts, 0) + OwnGasUsed(receipts, 0);
    } else {
      GasAddsUpIffCumulative(receipts, n - 1);
      var previous, last := receipts[n - 2].cumulativeGasUsed, receipts[n - 1].cumulativeGasUsed;
      assert OwnGasUsed(receipts, n - 1) == SaturatingSub(last, previous);
      if Cumulative(receipts, n) {
        assert previous <= last;
      }
    }
  }

  // ----- hydration -----

  datatype TxData = TxData(
    sender: Address, transaction: Transaction, success: bool, gasUsed: nat,
    blockNumber: nat, txIndex: nat, baseFee: Option<nat>, timestamp: nat)

  datatype HydrateError = DanglingPointer

  /** The naive answer for one pointer: look its block up and take the transaction. */
  function DataAt(chain: seq<Block>, pointer: TxPointer): TxData
    requires Hydratable(chain, pointer)
  {
    var block := chain[pointer.block];
    var tx := block.transactions[pointer.tx];
    TxData(tx.sender, tx, block.receipts[pointer.tx].success, OwnGasUsed(block.receipts, pointer.tx),
           pointer.block, pointer.tx, block.header.baseFeePerGas, block.header.timestamp)
  }

  predicate AllHydratable(chain: seq<Block>, pointers: seq<TxPointer>) {
    forall i :: 0 <= i < |pointers| ==> Hydratable(chain, pointers[i])
  }

  /** The naive answer, one pointer at a time. */
  function DataOf(chain: seq<Block>, pointers: seq<TxPointer>): seq<TxData>
    requires AllHydratable(chain, pointers)
  {
    seq(|pointers|, i requires 0 <= i < |pointers| => DataAt(chain, pointers[i]))
  }

  /**
    Every field of an answered row, against the block it points at. The gas is the difference to
    the previous receipt, the first receipt's own figure, and zero if the figures ever fall.
   */
  lemma RowIsTheTransaction(chain: seq<Block>, pointers: seq<TxPointer>, i: nat)
    requires AllHydratable(chain, pointers) && i < |pointers|
    ensures |DataOf(chain, pointers)| == |pointers|
    ensures var row, p := DataOf(chain, pointers)[i], pointers[i];
            var block := chain[p.block];
            var own := block.receipts[p.tx].cumulativeGasUsed;
            && row.blockNumber == p.block && row.txIndex == p.tx
            && row.transaction == block.transactions[p.tx]
            && row.sender == block.transactions[p.tx].sender
            && row.success == block.receipts[p.tx].success
            && row.baseFee == block.header.baseFeePerGas && row.timestamp == block.header.timestamp
            && (p.tx == 0 ==> row.gasUsed == own)
            && (p.tx > 0 ==>
                  var before := block.receipts[p.tx - 1].cumulativeGasUsed;
                  row.gasUsed == if before <= own then own - before else 0)
  {
  }

  function SumGas(rows: seq<TxData>): nat {
    if rows == [] then 0 else SumGas(rows[..|rows| - 1]) + rows[|rows| - 1].gasUsed
  }

  /** Pointers to the first `k` transactions of block `b`. */
  function FirstOf(b: nat, k: nat): seq<TxPointer> {
    seq(k, t requires 0 <= t < k => TxPointer(b, t))
  }

  lemma {:induction false} SumIsTotalGas(chain: seq<Block>, b: nat, k: nat)
    requires b < |chain| && k <= |chain[b].transactions| && k <= |chain[b].receipts|
    ensures AllHydratable(chain, FirstOf(b, k))
    ensures SumGas(DataOf(chain, FirstOf(b, k))) == TotalGas(chain[b].receipts, k)
  {
    if k != 0 {
      SumIsTotalGas(chain, b, k - 1);
      var rows := DataOf(chain, FirstOf(b, k));
      assert rows[..k - 1] == DataOf(chain, FirstOf(b, k - 1));
    }
  }

  /**
    Conservation over the rows served: the gas of a block's first `k` rows adds up to receipt
    `k - 1`'s cumulative figure exactly when the receipts up to there are cumulative.
   */
  lemma ServedGasAddsUpIff(chain: seq<Block>, b: nat, k: nat)
    requires b < |chain| && 0 < k <= |chain[b].transactions| && k <= |chain[b].receipts|
    ensures AllHydratable(chain, FirstOf(b, k))
    ensures SumGas(DataOf(chain, FirstOf(b, k))) == chain[b].receipts[k - 1].cumulativeGasUsed
            <==> (forall i, j :: 0 <= i < j < k ==>
                    chain[b].receipts[i].cumulativeGasUsed <= chain[b].receipts[j].cumulativeGasUsed)
  {
    SumIsTotalGas(chain, b, k);
    GasAddsUpIffCumulative(chain[b].receipts, k);
  }

  /** Each block number once, in first-seen order. */
  function FirstSeen(pointers: seq<TxPointer>): seq<nat> {
    if pointers == [] then []
    else
      var seen, number := FirstSeen(pointers[..|pointers| - 1]), pointers[|pointers| - 1].block;
      if number in seen then seen else seen + [number]
  }

  ghost predicate Mentions(pointers: seq<TxPointer>, number: nat) {
    exists i :: 0 <= i < |pointers| && pointers[i].block == number
  }

  lemma {:induction false} FirstSeenExact(pointers: seq<TxPointer>)
    ensures Distinct(FirstSeen(pointers))
    ensures forall number :: number in FirstSeen(pointers) <==> Mentions(pointers, number)
  {
    if pointers != [] {
      var init, last := pointers[..|pointers| - 1], pointers[|pointers| - 1];
      FirstSeenExact(init);
      forall number ensures number in FirstSeen(pointers) <==> Mentions(pointers, number) {
        if number == last.block {
          assert pointers[|pointers| - 1].block == number;
        } else if Mentions(pointers, number) {
          var i :| 0 <= i < |pointers| && pointers[i].block == number;
          assert init[i].block == number;
        }
      }
    }
  }

  /** First seen, first listed: what more pointers bring only comes behind. */
  lemma {:induction false} FirstSeenFirst(pointers: seq<TxPointer>, k: nat)
    requires k <= |pointers|
    ensures FirstSeen(pointers[..k]) <= FirstSeen(pointers)
  {
    if k < |pointers| {
      var init := pointers[..|pointers| - 1];
      assert init[..k] == pointers[..k];
      FirstSeenFirst(init, k);
    } else {
      assert pointers[..k] == pointers;
    }
  }

  /** `distinct_blocks`. */
  method DistinctBlocks(pointers: seq<TxPointer>) returns (numbers: seq<nat>)
    ensures numbers == FirstSeen(pointers)
  {
    numbers := [];
    for p := 0 to |pointers|
      invariant numbers == FirstSeen(pointers[..p])
    {
      assert pointers[..p + 1][..p] == pointers[..p];
      if pointers[p].block !in numbers {
        numbers := numbers + [pointers[p].block];
      }
    }
    assert pointers[..|pointers|] == pointers;
  }

  /** Replay each block once; stops at the first one the node does not have. */
  method ReplayBlocks(chain: seq<Block>, numbers: seq<nat>)
    returns (blocks: Option<map<nat, Block>>, replayed: seq<nat>)
    ensures blocks.Some? <==> forall n :: n in numbers ==> n < |chain|
    ensures blocks.Some? ==>
              && replayed == numbers
              && (forall n :: n in blocks.value <==> n in numbers)
              && (forall n :: n in blocks.value ==> n < |chain| && blocks.value[n] == chain[n])
    ensures replayed <= numbers
  {
    replayed := [];
    var found: map<nat, Block> := map[];
    for k := 0 to |numbers|
      invariant replayed == numbers[..k]
      invariant forall n :: n in found <==> n in numbers[..k]
      invariant forall n :: n in found ==> n < |chain| && found[n] == chain[n]
    {
      replayed := replayed + [numbers[k]];
      if numbers[k] >= |chain| {
        assert numbers[k] in numbers;
        return None, replayed;
      }
      found := found[numbers[k] := chain[numbers[k]]];
    }
    assert forall n :: n in numbers ==> n in found;
    return Some(found), replayed;
  }

  /** The answering loop, from blocks already replayed. */
  method DataFromBlocks(chain: seq<Block>, pointers: seq<TxPointer>, blocks: map<nat, Block>)
    returns (result: Result<seq<TxData>, HydrateError>)
    requires forall i :: 0 <= i < |pointers| ==>
               && pointers[i].block < |chain| && pointers[i].block in blocks
               && blocks[pointers[i].block] == chain[pointers[i].block]
    ensures result.Success? <==> AllHydratable(chain, pointers)
    ensures result.Success? ==> result.value == DataOf(chain, pointers)
  {
    var out: seq<TxData> := [];
    for i := 0 to |pointers|
      invariant |out| == i
      invariant forall j :: 0 <= j < i ==> Hydratable(chain, pointers[j]) && out[j] == DataAt(chain, pointers[j])
    {
      var pointer := pointers[i];
      var block := blocks[pointer.block];
      if pointer.tx >= |block.transactions| || pointer.tx >= |block.receipts| {
        assert !Hydratable(chain, pointers[i]);
        return Failure(DanglingPointer);
      }
      var tx := block.transactions[pointer.tx];
      out := out + [TxData(tx.sender, tx, block.receipts[pointer.tx].success,
                           OwnGasUsed(block.receipts, pointer.tx), pointer.block, pointer.tx,
                           block.header.baseFeePerGas, block.header.timestamp)];
    }
    return Success(out);
  }

  /**
    `hydrate_pointers`: succeeds exactly when every pointer can be hydrated, answers in
    pointer order with duplicates kept, and replays no block twice (`replayed` lists the
    replays made).
   */
  method HydratePointers(chain: seq<Block>, pointers: seq<TxPointer>)
    returns (result: Result<seq<TxData>, HydrateError>, replayed: seq<nat>)
    ensures result.Success? <==> AllHydratable(chain, pointers)
    ensures result.Success? ==> replayed == FirstSeen(pointers) && result.value == DataOf(chain, pointers)
    ensures replayed <= FirstSeen(pointers)
  {
    if pointers == [] {
      return Success([]), [];
    }
    var numbers := DistinctBlocks(pointers);
    FirstSeenExact(pointers);
    var blocks;
    blocks, replayed := ReplayBlocks(chain, numbers);
    if blocks.None? {
      return Failure(DanglingPointer), replayed;
    }
    forall i | 0 <= i < |pointers| ensures pointers[i].block in numbers {
      assert Mentions(pointers, pointers[i].block);
    }
    result := DataFromBlocks(chain, pointers, blocks.value);
  }
}
