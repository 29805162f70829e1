/**
  Epoch rows from the epoch-record store: `/epochs` and `/consensus/epochs` both derive an
  epoch's first numbers from its predecessor's record and its last from its own.
 */
module Epochs {
  import opened Wrappers

  /** Final execution block and final consensus output of a closed epoch. */
  datatype EpochRecord = EpochRecord(finalState: nat, finalConsensus: nat)

  type Records = map<nat, EpochRecord>

  function Lookup(records: Records, epoch: nat): Option<EpochRecord> {
    if epoch in records then Some(records[epoch]) else None
  }

  /** The record shown for `epoch`: hidden while the epoch is current, even if already written. */
  function Shown(records: Records, epoch: nat, current: nat): Option<EpochRecord> {
    if epoch == current then None else Lookup(records, epoch)
  }

  function Previous(records: Records, epoch: nat): Option<EpochRecord> {
    if epoch == 0 then None else Lookup(records, epoch - 1)
  }

  datatype EpochRow = EpochRow(startBlock: nat, endBlock: Option<nat>, isCurrent: bool)

  /** `epoch_row`: a missing predecessor degrades the start to 0. */
  function RowOf(records: Records, epoch: nat, current: nat): EpochRow {
    var previous := Previous(records, epoch);
    var shown := Shown(records, epoch, current);
    EpochRow(
      if previous.Some? then SaturatingAdd(previous.value.finalState, 1) else 0,
      if shown.Some? then Some(shown.value.finalState) else None,
      epoch == current)
  }

  datatype Range = Range(first: Option<nat>, last: Option<nat>)

  datatype ConsensusEpochRow = ConsensusEpochRow(consensusRange: Range, execRange: Range, isCurrent: bool)

  /** `consensus_epoch_row`: a missing predecessor renders the start null. */
  function ConsensusRowOf(records: Records, epoch: nat, current: nat): ConsensusEpochRow {
    var previous := Previous(records, epoch);
    var shown := Shown(records, epoch, current);
    ConsensusEpochRow(
      Range(
        if epoch == 0 then Some(1)
        else if previous.Some? then Some(SaturatingAdd(previous.value.finalConsensus, 1)) else None,
        if shown.Some? then Some(shown.value.finalConsensus) else None),
      Range(
        if epoch == 0 then Some(0)
        else if previous.Some? then Some(SaturatingAdd(previous.value.finalState, 1)) else None,
        if shown.Some? then Some(shown.value.finalState) else None),
      epoch == current)
  }

  /** A dense store with a record for every closed epoch and increasing final numbers. */
  ghost predicate Healthy(records: Records, current: nat) {
    && (forall e :: 0 <= e < current ==> e in records)
    && (forall e :: 0 <= e < current ==> records[e].finalState < U64_MAX && records[e].finalConsensus < U64_MAX)
    && (forall e, f :: 0 <= e < f < current ==>
          records[e].finalState < records[f].finalState && records[e].finalConsensus < records[f].finalConsensus)
  }

  /** `x` lies in a row's range; an open range has no upper end. */
  predicate Contains(range: Range, x: nat) {
    range.first.Some? && range.first.value <= x && (range.last.Some? ==> x <= range.last.value)
  }

  function ExecRangeOf(records: Records, epoch: nat, current: nat): Range {
    ConsensusRowOf(records, epoch, current).execRange
  }

  function ConsensusRangeOf(records: Records, epoch: nat, current: nat): Range {
    ConsensusRowOf(records, epoch, current).consensusRange
  }

  predicate OwnsBlock(records: Records, current: nat, epoch: nat, x: nat) {
    epoch <= current && Contains(ExecRangeOf(records, epoch, current), x)
  }

  predicate OwnsOutput(records: Records, current: nat, epoch: nat, x: nat) {
    epoch <= current && Contains(ConsensusRangeOf(records, epoch, current), x)
  }

  /** Search down from epoch `e` for the owner of block `x`. */
  lemma {:induction false} BlockOwner(records: Records, current: nat, e: nat, x: nat) returns (owner: nat)
    requires Healthy(records, current) && e <= current
    requires e < current ==> x <= records[e].finalState
    ensures OwnsBlock(records, current, owner, x)
  {
    if e == 0 || records[e - 1].finalState < x {
      owner := e;
    } else {
      owner := BlockOwner(records, current, e - 1, x);
    }
  }

  lemma {:induction false} OutputOwner(records: Records, current: nat, e: nat, x: nat) returns (owner: nat)
    requires Healthy(records, current) && e <= current && x >= 1
    requires e < current ==> x <= records[e].finalConsensus
    ensures OwnsOutput(records, current, owner, x)
  {
    if e == 0 || records[e - 1].finalConsensus < x {
      owner := e;
    } else {
      owner := OutputOwner(records, current, e - 1, x);
    }
  }

  /** A later epoch starts above an earlier one's end. */
  lemma OneOwner(records: Records, current: nat, e: nat, f: nat, x: nat)
    requires Healthy(records, current) && e < f
    ensures !(OwnsBlock(records, current, e, x) && OwnsBlock(records, current, f, x))
    ensures !(OwnsOutput(records, current, e, x) && OwnsOutput(records, current, f, x))
  {
    if f <= current {
      assert e == f - 1 || records[e].finalState < records[f - 1].finalState;
      assert e == f - 1 || records[e].finalConsensus < records[f - 1].finalConsensus;
    }
  }

  /**
    Tiling of execution: every block number lies in the range of exactly one epoch up to the
    current one, whose range is open, whether or not its record exists already.
   */
  lemma BlocksTile(records: Records, current: nat, x: nat)
    requires Healthy(records, current)
    ensures exists e :: OwnsBlock(records, current, e, x)
    ensures forall e, f :: OwnsBlock(records, current, e, x) && OwnsBlock(records, current, f, x) ==> e == f
  {
    var owner := BlockOwner(records, current, current, x);
    forall e, f | OwnsBlock(records, current, e, x) && OwnsBlock(records, current, f, x) ensures e == f {
      if e < f { OneOwner(records, current, e, f, x); }
      if f < e { OneOwner(records, current, f, e, x); }
    }
  }

  /** Tiling of consensus: the same over output numbers, of which 0 is nobody's. */
  lemma OutputsTile(records: Records, current: nat, x: nat)
    requires Healthy(records, current)
    ensures (exists e :: OwnsOutput(records, current, e, x)) <==> x >= 1
    ensures forall e, f :: OwnsOutput(records, current, e, x) && OwnsOutput(records, current, f, x) ==> e == f
  {
    if x >= 1 {
      var owner := OutputOwner(records, current, current, x);
    }
    forall e, f | OwnsOutput(records, current, e, x) && OwnsOutput(records, current, f, x) ensures e == f {
      if e < f { OneOwner(records, current, e, f, x); }
      if f < e { OneOwner(records, current, f, e, x); }
    }
  }

  /**
    Where the bounds come from: a closed epoch ends with its own record's final block and final
    output, a later epoch starts one past its predecessor's, and the first with block 0 and output 1.
   */
  lemma BoundsComeFromRecords(records: Records, current: nat, epoch: nat)
    requires Healthy(records, current) && epoch <= current
    ensures var row, exec := RowOf(records, epoch, current), ExecRangeOf(records, epoch, current);
            var outputs := ConsensusRangeOf(records, epoch, current);
            && (epoch < current ==>
                  && row.endBlock == exec.last == Some(records[epoch].finalState)
                  && outputs.last == Some(records[epoch].finalConsensus))
            && (epoch == current ==> row.endBlock == exec.last == outputs.last == None)
            && (epoch > 0 ==>
                  && exec.first == Some(row.startBlock) && row.startBlock == records[epoch - 1].finalState + 1
                  && outputs.first == Some(records[epoch - 1].finalConsensus + 1))
            && (epoch == 0 ==> row.startBlock == 0 && exec.first == Some(0) && outputs.first == Some(1))
            && (row.isCurrent <==> epoch == current)
            && (ConsensusRowOf(records, epoch, current).isCurrent <==> epoch == current)
  {
  }

  /** A block belongs to the epoch whose final block is the first at or above it, an output likewise. */
  lemma OwnerByRecords(records: Records, current: nat, epoch: nat, x: nat)
    requires Healthy(records, current) && epoch <= current
    ensures OwnsBlock(records, current, epoch, x) <==>
              && (epoch < current ==> x <= records[epoch].finalState)
              && (epoch > 0 ==> records[epoch - 1].finalState < x)
    ensures OwnsOutput(records, current, epoch, x) <==>
              && 1 <= x
              && (epoch < current ==> x <= records[epoch].finalConsensus)
              && (epoch > 0 ==> records[epoch - 1].finalConsensus < x)
  {
    BoundsComeFromRecords(records, current, epoch);
  }

  /**
    On both routes an epoch is open exactly when it is current, even if its record is already
    written, and the epoch after a closed one starts right behind its end.
   */
  lemma EpochsAbut(records: Records, current: nat, epoch: nat)
    requires Healthy(records, current) && epoch <= current
    ensures ExecRangeOf(records, epoch, current).last.None? <==> epoch == current
    ensures ConsensusRangeOf(records, epoch, current).last.None? <==> epoch == current
    ensures RowOf(records, epoch, current).endBlock.None? <==> RowOf(records, epoch, current).isCurrent
    ensures epoch < current ==>
              var row, next := RowOf(records, epoch, current), RowOf(records, epoch + 1, current);
              next.startBlock == row.endBlock.value + 1
    ensures epoch < current ==>
              var exec, next := ExecRangeOf(records, epoch, current), ExecRangeOf(records, epoch + 1, current);
              next.first == Some(exec.last.value + 1)
    ensures epoch < current ==>
              var outputs := ConsensusRangeOf(records, epoch, current);
              var next := ConsensusRangeOf(records, epoch + 1, current);
              next.first == Some(outputs.last.value + 1)
  {
  }

  /**
    The two routes give the same execution bounds exactly when the predecessor record can be
    read (or there is none to read): without it one starts the epoch at 0, the other at null.
   */
  lemma RoutesAgreeIff(records: Records, epoch: nat, current: nat)
    ensures RowOf(records, epoch, current).endBlock == ExecRangeOf(records, epoch, current).last
    ensures Some(RowOf(records, epoch, current).startBlock) == ExecRangeOf(records, epoch, current).first
            <==> epoch == 0 || epoch - 1 in records
  {
  }
}
