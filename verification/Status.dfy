/**
  Indexer health shared between the loop and the API: monotone atomics and a liveness bit.
 */
module Status {
  import opened Wrappers

  /** `fetch_max` with `block.saturating_add(1)`: the stored cursor view, 0 for nothing indexed. */
  function RecordIndexed(plusOne: nat, block: nat): nat {
    Max(plusOne, SaturatingAdd(block, 1))
  }

  function LastIndexed(plusOne: nat): Option<nat> {
    if plusOne == 0 then None else Some(plusOne - 1)
  }

  function Lag(nodeTip: nat, plusOne: nat): nat {
    SaturatingSub(nodeTip, LastIndexed(plusOne).UnwrapOr(0))
  }

  class IndexerStatus {
    var lastIndexedPlusOne: nat
    var nodeTip: nat
    var live: bool

    constructor ()
      ensures lastIndexedPlusOne == 0 && nodeTip == 0 && !live
    {
      lastIndexedPlusOne, nodeTip, live := 0, 0, false;
    }

    method SetLastIndexed(block: nat)
      modifies this`lastIndexedPlusOne
      ensures lastIndexedPlusOne == RecordIndexed(old(lastIndexedPlusOne), block)
    {
      var reported := SaturatingAdd(block, 1);
      if lastIndexedPlusOne < reported {
        lastIndexedPlusOne := reported;
      }
    }

    method SetNodeTip(tip: nat)
      modifies this`nodeTip
      ensures nodeTip == Max(old(nodeTip), tip)
    {
      if nodeTip < tip {
        nodeTip := tip;
      }
    }

    /** Creating and dropping the `LiveGuard`. */
    method SetLive(running: bool)
      modifies this`live
      ensures live == running
    {
      live := running;
    }
  }

  function RecordAll(plusOne: nat, blocks: seq<nat>): nat {
    if blocks == [] then plusOne
    else RecordIndexed(RecordAll(plusOne, blocks[..|blocks| - 1]), blocks[|blocks| - 1])
  }

  /**
    However reports are ordered or repeated, the view is the highest block reported, and
    it reads back exactly as long as that block is below the u64 maximum.
   */
  lemma {:induction false} ViewIsHighestReport(blocks: seq<nat>, highest: nat)
    requires highest in blocks && forall b :: b in blocks ==> b <= highest <= U64_MAX
    ensures RecordAll(0, blocks) == SaturatingAdd(highest, 1)
    ensures LastIndexed(RecordAll(0, blocks)) == Some(highest) <==> highest < U64_MAX
  {
    var init, last := blocks[..|blocks| - 1], blocks[|blocks| - 1];
    assert blocks == init + [last];
    assert forall b :: b in init ==> b in blocks;
    assert last in blocks;
    if highest in init {
      ViewIsHighestReport(init, highest);
    } else {
      ReportsBelow(init, highest);
    }
  }

  lemma {:induction false} ReportsBelow(blocks: seq<nat>, bound: nat)
    requires forall b :: b in blocks ==> b <= bound
    ensures RecordAll(0, blocks) <= SaturatingAdd(bound, 1)
  {
    if blocks != [] {
      var init := blocks[..|blocks| - 1];
      assert blocks == init + [blocks[|blocks| - 1]];
      assert forall b :: b in init ==> b in blocks;
      assert blocks[|blocks| - 1] in blocks;
      ReportsBelow(init, bound);
    }
  }

  /** A block up to the observed tip that the view does not cover, genesis counting as covered. */
  predicate IsBehind(nodeTip: nat, plusOne: nat, b: nat) {
    1 <= b <= nodeTip && plusOne <= b
  }

  function Behind(nodeTip: nat, plusOne: nat): set<nat> {
    set b: nat | b <= nodeTip && IsBehind(nodeTip, plusOne, b)
  }

  /** The lag is their number. */
  lemma {:induction false} LagCountsBlocksBehind(nodeTip: nat, plusOne: nat)
    ensures Lag(nodeTip, plusOne) == |Behind(nodeTip, plusOne)|
  {
    if nodeTip == 0 || nodeTip < plusOne {
      assert Behind(nodeTip, plusOne) == {};
    } else {
      LagCountsBlocksBehind(nodeTip - 1, plusOne);
      assert Behind(nodeTip, plusOne) == Behind(nodeTip - 1, plusOne) + {nodeTip};
    }
  }

  /**
    `lag == 0` says the cursor view has reached the OBSERVED tip, counting an empty index as
    block 0. It does not say that anything is indexed: before the first tip observation, and
    over a chain holding only genesis, an empty index reports no lag.
   */
  lemma ZeroLagMeaning(nodeTip: nat, plusOne: nat)
    ensures Lag(nodeTip, plusOne) == 0 <==> nodeTip < plusOne || nodeTip == 0
    ensures Lag(0, 0) == 0 && LastIndexed(0) == None
  {
  }
}
