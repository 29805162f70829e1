/**
  Consensus outputs and the execution blocks they became: the stored ranges are order
  independent, tile the indexed blocks, and number every batch's block exactly.
 */
module Outputs {
  import opened Wrappers
  import opened Chain
  import opened HeaderCodec
  import opened Extraction
  import opened Schema
  import opened Index

  // ----- min/max upserts in any order -----

  function WidenAll(table: map<Digest, ConsensusEntry>, rows: seq<ConsensusRow>): map<Digest, ConsensusEntry> {
    if rows == [] then table
    else WidenRange(WidenAll(table, rows[..|rows| - 1]), rows[|rows| - 1])
  }

  /** `range` spans exactly the rows of `digest`: both ends occur, and all lie between. */
  ghost predicate Spans(entry: ConsensusEntry, rows: seq<ConsensusRow>, digest: Digest) {
    && (exists r :: r in rows && r.digest == digest && r.blockNumber == entry.first)
    && (exists r :: r in rows && r.digest == digest && r.blockNumber == entry.last)
    && (forall r :: r in rows && r.digest == digest ==> entry.first <= r.blockNumber <= entry.last)
  }

  lemma SpansOne(row: ConsensusRow, entry: ConsensusEntry, rows: seq<ConsensusRow>)
    requires row in rows && entry.first == entry.last == row.blockNumber
    requires forall r :: r in rows && r.digest == row.digest ==> r == row
    ensures Spans(entry, rows, row.digest)
  {
  }

  lemma SpansMore(entry: ConsensusEntry, init: seq<ConsensusRow>, last: ConsensusRow, digest: Digest)
    requires Spans(entry, init, digest)
    ensures digest == last.digest ==>
              Spans(entry.(first := Min(entry.first, last.blockNumber), last := Max(entry.last, last.blockNumber)),
                    init + [last], digest)
    ensures digest != last.digest ==> Spans(entry, init + [last], digest)
  {
    var low :| low in init && low.digest == digest && low.blockNumber == entry.first;
    var high :| high in init && high.digest == digest && high.blockNumber == entry.last;
    assert low in init + [last] && high in init + [last] && last in init + [last];
  }

  lemma {:induction false} WidenAllSpans(rows: seq<ConsensusRow>)
    ensures forall digest :: digest in WidenAll(map[], rows) <==> exists r :: r in rows && r.digest == digest
    ensures forall digest :: digest in WidenAll(map[], rows) ==> Spans(WidenAll(map[], rows)[digest], rows, digest)
  {
    if rows != [] {
      var init, last := rows[..|rows| - 1], rows[|rows| - 1];
      assert rows == init + [last];
      WidenAllSpans(init);
      var before, after := WidenAll(map[], init), WidenAll(map[], rows);
      forall digest ensures digest in after <==> exists r :: r in rows && r.digest == digest {
        if digest == last.digest {
          assert last in rows;
        } else if digest in before {
          var r :| r in init && r.digest == digest;
          assert r in rows;
        }
      }
      forall digest | digest in after ensures Spans(after[digest], rows, digest) {
        if digest in before {
          SpansMore(before[digest], init, last, digest);
        } else {
          assert forall r :: r in init ==> r.digest != digest;
          SpansOne(last, after[digest], rows);
        }
      }
    }
  }

  /** Whatever order, and however often, the same rows are applied, every range comes out the same. */
  lemma ArrivalOrderIsIrrelevant(a: seq<ConsensusRow>, b: seq<ConsensusRow>)
    requires forall r :: r in a <==> r in b
    ensures WidenAll(map[], a).Keys == WidenAll(map[], b).Keys
    ensures forall digest :: digest in WidenAll(map[], a) ==>
              && WidenAll(map[], a)[digest].first == WidenAll(map[], b)[digest].first
              && WidenAll(map[], a)[digest].last == WidenAll(map[], b)[digest].last
  {
    WidenAllSpans(a);
    WidenAllSpans(b);
    var ra, rb := WidenAll(map[], a), WidenAll(map[], b);
    forall digest ensures digest in ra <==> digest in rb {
      if digest in ra {
        var r :| r in a && r.digest == digest;
        assert r in b;
      }
      if digest in rb {
        var r :| r in b && r.digest == digest;
        assert r in a;
      }
    }
    forall digest | digest in ra ensures ra[digest].first == rb[digest].first && ra[digest].last == rb[digest].last {
      SameSpan(ra[digest], rb[digest], a, b, digest);
    }
  }

  lemma SameSpan(x: ConsensusEntry, y: ConsensusEntry, a: seq<ConsensusRow>, b: seq<ConsensusRow>, digest: Digest)
    requires forall r :: r in a <==> r in b
    requires Spans(x, a, digest) && Spans(y, b, digest)
    ensures x.first == y.first && x.last == y.last
  {
  }

  // ----- outputs executed batch by batch -----

  function FieldsAt(chain: seq<Block>, b: nat): ConsensusFields
    requires b < |chain| && DecodeConsensusFields(chain[b].header).Some?
  {
    DecodeConsensusFields(chain[b].header).value
  }

  /** No block before `b` names its output. */
  ghost predicate OpensOutput(chain: seq<Block>, b: nat)
    requires b < |chain| && DecodeConsensusFields(chain[b].header).Some?
  {
    forall c :: 0 <= c < b ==> !Names(chain[c], FieldsAt(chain, b).digest)
  }

  /** Block `b` carries the batch right after the one block `b - 1` carries. */
  ghost predicate ContinuesOutput(chain: seq<Block>, b: nat)
    requires 0 < b < |chain| && DecodeConsensusFields(chain[b].header).Some?
  {
    && Names(chain[b - 1], FieldsAt(chain, b).digest)
    && FieldsAt(chain, b - 1).batchIndex + 1 == FieldsAt(chain, b).batchIndex
  }

  /** Where the engine puts block `b`: batch 0 opens an output, batch `i + 1` follows batch `i`. */
  ghost predicate Placed(chain: seq<Block>, b: nat)
    requires 0 < b < |chain|
  {
    && DecodeConsensusFields(chain[b].header).Some?
    && if FieldsAt(chain, b).batchIndex == 0 then OpensOutput(chain, b) else ContinuesOutput(chain, b)
  }

  /** Every block after genesis carries one batch, and an output's batches are executed in order. */
  ghost predicate ExecutedInOrder(chain: seq<Block>) {
    forall b :: 0 < b < |chain| ==> Placed(chain, b)
  }

  /** Walking back from batch `i` meets batches `i - 1`, ..., `0` of the same output. */
  lemma {:induction false} EarlierBatches(chain: seq<Block>, b: nat, k: nat)
    requires ValidChain(chain) && ExecutedInOrder(chain) && 0 < b < |chain|
    requires Placed(chain, b) && k <= FieldsAt(chain, b).batchIndex
    ensures k < b && Names(chain[b - k], FieldsAt(chain, b).digest)
    ensures FieldsAt(chain, b - k).batchIndex == FieldsAt(chain, b).batchIndex - k
  {
    if k != 0 {
      EarlierBatches(chain, b, k - 1);
      var c := b - (k - 1);
      assert Placed(chain, c);
      assert chain[0].header.number == 0;
    }
  }

  /** A block's distance from the start of its stored range is its batch index. */
  lemma DistanceIsBatchIndex(chain: seq<Block>, n: nat, table: map<Digest, ConsensusEntry>, b: nat, digest: Digest)
    requires ValidChain(chain) && ExecutedInOrder(chain) && n <= |chain| && ConsensusAgrees(table, chain, n)
    requires b < n && Names(chain[b], digest)
    ensures digest in table && b == table[digest].first + FieldsAt(chain, b).batchIndex
  {
    assert chain[0].header.number == 0 && Placed(chain, b);
    assert IsExtent(table[digest], chain, n, digest);
    var opening := b - FieldsAt(chain, b).batchIndex;
    EarlierBatches(chain, b, FieldsAt(chain, b).batchIndex);
    assert Placed(chain, opening) && table[digest].first <= opening;
  }

  /** Every block inside a stored range names that range's output. */
  lemma RangeBelongsToOutput(chain: seq<Block>, n: nat, table: map<Digest, ConsensusEntry>, b: nat, digest: Digest)
    requires ValidChain(chain) && ExecutedInOrder(chain) && n <= |chain| && ConsensusAgrees(table, chain, n)
    requires digest in table && table[digest].first <= b <= table[digest].last
    ensures 0 < b < n && Names(chain[b], digest)
  {
    assert IsExtent(table[digest], chain, n, digest);
    var last := table[digest].last;
    assert chain[0].header.number == 0 && Placed(chain, last);
    DistanceIsBatchIndex(chain, n, table, last, digest);
    EarlierBatches(chain, last, last - b);
  }

  predicate InRange(table: map<Digest, ConsensusEntry>, digest: Digest, b: nat) {
    digest in table && table[digest].first <= b <= table[digest].last
  }

  ghost predicate InSomeRange(table: map<Digest, ConsensusEntry>, b: nat) {
    exists digest :: InRange(table, digest, b)
  }

  /**
    The stored ranges tile the indexed blocks: ranges of distinct digests share no block,
    and every indexed block except genesis lies in the range of the output it names.
   */
  lemma RangesTileIndexedBlocks(chain: seq<Block>, n: nat, table: map<Digest, ConsensusEntry>)
    requires ValidChain(chain) && ExecutedInOrder(chain) && n <= |chain| && ConsensusAgrees(table, chain, n)
    ensures forall b, d, e :: InRange(table, d, b) && InRange(table, e, b) ==> d == e
    ensures forall b: nat :: InSomeRange(table, b) <==> 0 < b < n
  {
    forall b, d, e | InRange(table, d, b) && InRange(table, e, b) ensures d == e {
      RangeBelongsToOutput(chain, n, table, b, d);
      RangeBelongsToOutput(chain, n, table, b, e);
    }
    forall b: nat ensures InSomeRange(table, b) <==> 0 < b < n {
      if 0 < b < n {
        assert Placed(chain, b);
        var d := FieldsAt(chain, b).digest;
        assert Names(chain[b], d);
        assert IsExtent(table[d], chain, n, d);
        assert InRange(table, d, b);
      }
      if InSomeRange(table, b) {
        var d :| InRange(table, d, b);
        RangeBelongsToOutput(chain, n, table, b, d);
      }
    }
  }

  datatype ExecRange = ExecRange(first: nat, last: nat)

  function RangeOf(table: map<Digest, ConsensusEntry>, digest: Digest): Option<ExecRange> {
    if digest in table then Some(ExecRange(table[digest].first, table[digest].last)) else None
  }

  /** `exec_block_number` of the batch at `index`. */
  function ExecBlockNumber(range: Option<ExecRange>, index: nat): Option<nat> {
    match range
    case None => None
    case Some(r) => if r.first + index <= r.last then Some(r.first + index) else None
  }

  /**
    The batch at `index` is given block `b` exactly when `b` is indexed and its header
    decodes to this output and this index, even while the output is only partly indexed.
   */
  lemma ExecBlockNumberExact(
      chain: seq<Block>, n: nat, table: map<Digest, ConsensusEntry>, digest: Digest, index: nat, b: nat)
    requires ValidChain(chain) && ExecutedInOrder(chain) && n <= |chain| && ConsensusAgrees(table, chain, n)
    ensures ExecBlockNumber(RangeOf(table, digest), index) == Some(b)
            <==> b < n && Names(chain[b], digest) && FieldsAt(chain, b).batchIndex == index
  {
    if b < n && Names(chain[b], digest) {
      DistanceIsBatchIndex(chain, n, table, b, digest);
      assert IsExtent(table[digest], chain, n, digest);
    }
    if ExecBlockNumber(RangeOf(table, digest), index) == Some(b) {
      RangeBelongsToOutput(chain, n, table, b, digest);
    }
  }

  /** `consensus_ranges_by_digests`: one lookup per digest, absent ones left out. */
  method RangesByDigests(table: map<Digest, ConsensusEntry>, digests: seq<Digest>)
    returns (ranges: map<Digest, ExecRange>)
    ensures forall d :: d in ranges <==> d in digests && d in table
    ensures forall d :: d in ranges ==> Some(ranges[d]) == RangeOf(table, d)
  {
    ranges := map[];
    for i := 0 to |digests|
      invariant forall d :: d in ranges <==> d in digests[..i] && d in table
      invariant forall d :: d in ranges ==> Some(ranges[d]) == RangeOf(table, d)
    {
      var range := RangeOf(table, digests[i]);
      if range.Some? {
        ranges := ranges[digests[i] := range.value];
      }
    }
  }
}
