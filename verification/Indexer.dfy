/**
  The loop itself: `index_chain`, `catch_up` and start-up as they run when nothing else
  interferes. `chain` is what the replay covers, and `outside` says what the node answers to
  a token-metadata read (none for a node fault) and where the disk fails. The protocol module
  covers every interleaving; here the loops are shown to do their part, to succeed whenever
  nothing outside fails, and to terminate.
 */
module Indexer {
  import opened Wrappers
  import opened Chain
  import opened Extraction
  import opened Schema
  import opened Index
  import opened Migration
  import opened Status
  import opened Storage

  datatype Fetched = Fetched(metadata: Metadata, fetchedAt: nat)

  type Fetch = (nat, Address) -> Option<Fetched>

  /**
    What the loop does not control: the node's answers, the failing steps of the disk block by
    block, the two cursor reads (at start-up and in the catch-up), the tip read, the opening of
    the replay and the delivery of each replayed block.
   */
  datatype Outside = Outside(
    fetch: Fetch,
    lookup: nat -> Fault,
    disk: nat -> Fault,
    loads: bool,
    cursorReads: bool,
    tip: Option<nat>,
    replayOpens: bool,
    delivers: nat -> bool)

  datatype IndexError = NodeFault | DiskFault | Refused(reason: MigrateError)

  /** The node answers every read and no statement fails. */
  ghost predicate Undisturbed(outside: Outside) {
    && (forall number, token :: outside.fetch(number, token).Some?)
    && (forall number :: outside.lookup(number).None?)
    && (forall number :: outside.disk(number).None?)
    && outside.loads && outside.cursorReads && outside.tip.Some? && outside.replayOpens
    && (forall number :: outside.delivers(number))
  }

  predicate AllAnswered(number: nat, need: seq<Address>, fetch: Fetch) {
    forall i :: 0 <= i < |need| ==> fetch(number, need[i]).Some?
  }

  /** One attempt per token, carrying exactly what the node answered. */
  function FetchedRows(number: nat, need: seq<Address>, fetch: Fetch): seq<TokenRow>
    requires AllAnswered(number, need, fetch)
  {
    seq(|need|, i requires 0 <= i < |need| =>
      AttemptRow(need[i], fetch(number, need[i]).value.metadata, fetch(number, need[i]).value.fetchedAt))
  }

  lemma FetchedForList(number: nat, need: seq<Address>, fetch: Fetch)
    requires AllAnswered(number, need, fetch)
    ensures RowsForList(FetchedRows(number, need, fetch), need)
  {
  }

  /** Applying a block no later than the first unindexed one, skipped or not. */
  lemma ApplyingKeepsIndex(db: Db, chain: seq<Block>, number: nat, rows: seq<TokenRow>)
    requires ValidChain(chain) && Agrees(db, chain) && number < |chain| && number <= NextBlock(db.cursor)
    requires RowsForList(rows, FetchList(db.rows.tokens, Extract(chain[number]).tokenCandidates))
    ensures var after := ApplyBlock(db, Extract(chain[number]), rows);
            && Agrees(after, chain)
            && NextBlock(after.cursor) == Max(NextBlock(db.cursor), number + 1)
            && (AtOrBelowCursor(db.cursor, number) ==> after == db)
  {
    if !AtOrBelowCursor(db.cursor, number) {
      IndexingOneBlock(db, chain, rows);
    }
  }

  class Indexer {
    const writer: Writer
    const status: IndexerStatus

    /** The database is the reference index and the status view equals the cursor. */
    ghost predicate InStep(chain: seq<Block>)
      reads this, writer, status
    {
      && ValidChain(chain)
      && writer.CursorReadable()
      && Agrees(writer.Contents(), chain)
      && status.lastIndexedPlusOne == NextBlock(writer.Contents().cursor)
    }

    /** What even a failed call leaves: a whole index, and a view no further than its cursor. */
    ghost predicate Consistent(chain: seq<Block>)
      reads this, writer, status
    {
      && ValidChain(chain)
      && writer.CursorReadable()
      && Agrees(writer.Contents(), chain)
      && status.lastIndexedPlusOne <= NextBlock(writer.Contents().cursor)
    }

    constructor (writer: Writer, status: IndexerStatus)
      ensures this.writer == writer && this.status == status
    {
      this.writer, this.status := writer, status;
    }

    /** The metadata step of one block: fetch every token that needs it, or stop at a node fault. */
    method FetchTokens(number: nat, need: seq<Address>, fetch: Fetch) returns (rows: Option<seq<TokenRow>>)
      ensures rows.Some? <==> AllAnswered(number, need, fetch)
      ensures rows.Some? ==> rows.value == FetchedRows(number, need, fetch)
      ensures rows.Some? ==>
                && |rows.value| == |need|
                && forall i :: 0 <= i < |need| ==>
                     var row, answer := rows.value[i], fetch(number, need[i]);
                     && answer.Some? && row.address == need[i]
                     && row.metadata == answer.value.metadata && row.fetchedAt == answer.value.fetchedAt
                     && row.status == if answer.value.metadata == NOTHING_DECODED then 1 else 0
    {
      var built: seq<TokenRow> := [];
      for i := 0 to |need|
        invariant AllAnswered(number, need[..i], fetch)
        invariant built == FetchedRows(number, need[..i], fetch)
      {
        var answer := fetch(number, need[i]);
        if answer.None? {
          return None;
        }
        built := built + [AttemptRow(need[i], answer.value.metadata, answer.value.fetchedAt)];
      }
      assert need[..|need|] == need;
      return Some(built);
    }

    /** One block of `index_chain`. */
    method IndexOne(chain: seq<Block>, number: nat, outside: Outside) returns (result: Result<(), IndexError>)
      requires InStep(chain) && number < |chain| && number <= NextBlock(writer.Contents().cursor)
      modifies writer, status
      ensures Consistent(chain) && status.live == old(status.live)
      ensures writer.columns == old(writer.columns) && writer.legacy == old(writer.legacy)
      ensures writer.meta.value.version == old(writer.meta.value.version)
      ensures result.Success? <==>
                var need := FetchList(old(writer.tokens), Extract(chain[number]).tokenCandidates);
                && !LookupFails(outside.lookup(number), |Extract(chain[number]).tokenCandidates|)
                && AllAnswered(number, need, outside.fetch)
                && !WriteFails(outside.disk(number), AtOrBelowCursor(old(writer.Contents().cursor), number))
      ensures result.Success? ==>
                && InStep(chain)
                && NextBlock(writer.Contents().cursor) == Max(old(NextBlock(writer.Contents().cursor)), number + 1)
                && status.nodeTip == Max(old(status.nodeTip), number)
      ensures result.Success? ==>
                var need := FetchList(old(writer.tokens), Extract(chain[number]).tokenCandidates);
                AllAnswered(number, need, outside.fetch) &&
                writer.Contents() == ApplyBlock(old(writer.Contents()), Extract(chain[number]),
                                                FetchedRows(number, need, outside.fetch))
      ensures result.Failure? ==> writer.CurrentFile() == old(writer.CurrentFile())
    {
      var extracted := ExtractBlock(chain[number]);
      var selected := writer.TokenFetchStates(extracted.tokenCandidates, outside.lookup(number));
      if selected.Failure? {
        return Failure(DiskFault);
      }
      var need := selected.value;
      var rows := FetchTokens(number, need, outside.fetch);
      if rows.None? {
        return Failure(NodeFault);
      }
      FetchedForList(number, need, outside.fetch);
      ApplyingKeepsIndex(writer.Contents(), chain, number, rows.value);
      result := WriteBlock(extracted, rows.value, outside.disk(number));
    }

    /** Its last step: one transaction, then the status. */
    method WriteBlock(extracted: ExtractedBlock, rows: seq<TokenRow>, fault: Fault)
      returns (result: Result<(), IndexError>)
      requires writer.CursorReadable() && extracted.number <= NextBlock(writer.Contents().cursor) < U64_MAX
      requires status.lastIndexedPlusOne == NextBlock(writer.Contents().cursor)
      modifies writer, status
      ensures writer.CursorReadable() && status.live == old(status.live)
      ensures writer.columns == old(writer.columns) && writer.legacy == old(writer.legacy)
      ensures writer.meta.value.version == old(writer.meta.value.version)
      ensures result.Success? <==> !WriteFails(fault, AtOrBelowCursor(old(writer.Contents().cursor), extracted.number))
      ensures result.Success? ==>
                && writer.Contents() == ApplyBlock(old(writer.Contents()), extracted, rows)
                && status.lastIndexedPlusOne == NextBlock(writer.Contents().cursor)
                && status.nodeTip == Max(old(status.nodeTip), extracted.number)
      ensures result.Failure? ==>
                && writer.CurrentFile() == old(writer.CurrentFile())
                && status.lastIndexedPlusOne == old(status.lastIndexedPlusOne)
    {
      var indexed := writer.IndexBlock(extracted, rows, fault);
      if indexed.Failure? {
        return Failure(DiskFault);
      }
      if indexed.value {
        status.SetLastIndexed(extracted.number);
      }
      status.SetNodeTip(extracted.number);
      return Success(());
    }

    /** `index_chain`: every block of a segment that starts no later than the first unindexed block. */
    method IndexChain(chain: seq<Block>, from: nat, upTo: nat, outside: Outside)
      returns (result: Result<(), IndexError>)
      requires InStep(chain) && from <= upTo <= |chain| && from <= NextBlock(writer.Contents().cursor)
      modifies writer, status
      ensures Consistent(chain) && status.live == old(status.live)
      ensures writer.columns == old(writer.columns) && writer.legacy == old(writer.legacy)
      ensures writer.meta.value.version == old(writer.meta.value.version)
      ensures NextBlock(writer.Contents().cursor) >= old(NextBlock(writer.Contents().cursor))
      ensures Undisturbed(outside) ==> result.Success?
      ensures result.Success? ==>
                && InStep(chain)
                && NextBlock(writer.Contents().cursor) == Max(old(NextBlock(writer.Contents().cursor)), upTo)
                && status.nodeTip >= old(status.nodeTip) && (from < upTo ==> status.nodeTip >= upTo - 1)
    {
      ghost var start := NextBlock(writer.Contents().cursor);
      for number := from to upTo
        invariant InStep(chain) && status.live == old(status.live)
        invariant writer.columns == old(writer.columns) && writer.legacy == old(writer.legacy)
        invariant writer.meta.value.version == old(writer.meta.value.version)
        invariant NextBlock(writer.Contents().cursor) == Max(start, number)
        invariant status.nodeTip >= old(status.nodeTip) && (from < number ==> status.nodeTip >= number - 1)
      {
        result := IndexOne(chain, number, outside);
        if result.Failure? {
          return;
        }
      }
      return Success(());
    }

    /**
      `catch_up`: replay from the cursor to the end of the chain, one block per replayed
      segment. The tip is read before the replay was opened, so the chain may be longer by then.
     */
    method CatchUp(chain: seq<Block>, outside: Outside)
      returns (result: Result<(), IndexError>, reported: Option<nat>)
      requires InStep(chain) && (outside.tip.Some? ==> outside.tip.value < |chain|)
      modifies writer, status
      ensures Consistent(chain) && status.live == old(status.live)
      ensures writer.columns == old(writer.columns) && writer.legacy == old(writer.legacy)
      ensures writer.meta.value.version == old(writer.meta.value.version)
      ensures NextBlock(writer.Contents().cursor) >= old(NextBlock(writer.Contents().cursor))
      ensures Undisturbed(outside) ==> result.Success?
      ensures result.Success? ==>
                && outside.tip.Some? && InStep(chain) && writer.Contents().cursor == Some(|chain| - 1)
                && reported == Some(|chain| - 1) && outside.tip.value <= status.nodeTip
    {
      reported := None;
      if !outside.cursorReads {
        return Failure(DiskFault), None;
      }
      var cursor := writer.ReadCursor();
      var start := NextBlock(cursor.value);
      if outside.tip.None? {
        return Failure(NodeFault), None;
      }
      status.SetNodeTip(outside.tip.value);
      if !outside.replayOpens {
        return Failure(NodeFault), None;
      }
      ghost var first := NextBlock(writer.Contents().cursor);
      for number := start to |chain|
        invariant InStep(chain) && status.live == old(status.live) && outside.tip.value <= status.nodeTip
        invariant writer.columns == old(writer.columns) && writer.legacy == old(writer.legacy)
        invariant writer.meta.value.version == old(writer.meta.value.version)
        invariant NextBlock(writer.Contents().cursor) == number >= first
      {
        if !outside.delivers(number) {
          return Failure(NodeFault), None;
        }
        result := IndexChain(chain, number, number + 1, outside);
        if result.Failure? {
          return;
        }
      }
      result := Success(());
      reported := LastIndexed(status.lastIndexedPlusOne);
    }
  }

  /** Whatever a current file claims to have indexed is the reference index of this chain. */
  ghost predicate HonestFile(file: File, chain: seq<Block>) {
    Ready(file) ==>
      match file.meta.value.lastIndexed
      case None => file.rows == NO_ROWS
      case Some(Unparsable) => false
      case Some(Number(n)) => Agrees(Db(Some(n), file.rows), chain)
  }

  /** A file a start-up can trust. */
  ghost predicate Startable(file: File, chain: seq<Block>) {
    WellFormed(file) && Recoverable(file) && HonestFile(file, chain)
  }

  /** What was claimed of a chain stays true as it grows. */
  lemma StartableLater(file: File, chain: seq<Block>, longer: seq<Block>)
    requires Startable(file, chain) && chain <= longer && ValidChain(longer)
    ensures Startable(file, longer)
  {
    if Ready(file) && file.meta.value.lastIndexed.Some? {
      AgreesWithLonger(Db(Some(file.meta.value.lastIndexed.value.n), file.rows), chain, longer);
    }
  }

  /** A complete v3 file is well formed and recoverable whatever it holds. */
  lemma ReadyIsTrusted(file: File)
    requires Ready(file)
    ensures WellFormed(file) && Recoverable(file)
  {
    forall table: DataTable ensures table in ALL_TABLES && table in file.columns {
      EveryTable(table);
    }
  }

  lemma SoundIsStartable(before: File, after: File, chain: seq<Block>)
    requires Sound(before, after) && HonestFile(before, chain)
    ensures Startable(after, chain)
  {
    ReadyIsTrusted(after);
  }

  /** What a process leaves: the schema it opened and an index of the chain. */
  lemma IndexedIsStartable(file: File, db: Db, chain: seq<Block>)
    requires Ready(file) && Agrees(db, chain) && db.rows == file.rows
    requires file.meta.value.lastIndexed == if db.cursor.Some? then Some(Number(db.cursor.value)) else None
    ensures Startable(file, chain)
  {
    ReadyIsTrusted(file);
    if db.cursor.None? {
      EmptyAgrees(chain);
      AgreementIsUnique(db, EMPTY_DB, chain);
      assert db.rows.tokens == map[];
    }
  }

  /**
    Storage and status of a start-up, over any file it can trust, however many earlier reopens
    were cut short: migrate and load the cursor.
   */
  method Open(file: File, chainId: nat, ghost cuts: seq<nat>, ghost original: File,
              ghost chain: seq<Block>, loads: bool)
    returns (indexer: Indexer, result: Result<(), IndexError>)
    requires ValidChain(chain) && Startable(original, chain)
    requires file == InterruptedAll(original, chainId, cuts)
    ensures fresh(indexer) && fresh(indexer.writer) && fresh(indexer.status) && !indexer.status.live
    ensures Verdict(original, chainId).Failure? ==> result == Failure(Refused(Verdict(original, chainId).error))
    ensures Verdict(original, chainId).Success? ==>
              && (result.Success? <==> loads)
              && Ready(indexer.writer.CurrentFile()) && Startable(indexer.writer.CurrentFile(), chain)
    ensures result.Success? ==> indexer.InStep(chain)
  {
    var writer := new Writer(file);
    var status := new IndexerStatus();
    indexer := new Indexer(writer, status);
    var verdict := writer.Migrate(chainId);
    CrashesConverge(original, chainId, cuts);
    CrashesStaySound(original, chainId, cuts);
    if verdict.Failure? {
      return indexer, Failure(Refused(verdict.error));
    }
    SoundIsStartable(original, writer.CurrentFile(), chain);
    OpenedIndexAgrees(original, writer.CurrentFile(), chain);
    if !loads {
      return indexer, Failure(DiskFault);
    }
    var cursor := writer.ReadCursor();
    if cursor.value.Some? {
      status.SetLastIndexed(cursor.value.value);
    }
    result := Success(());
  }

  /**
    Start-up: open, then catch up under the liveness guard. It succeeds whenever the chain id
    is right and nothing outside fails, and then leaves the index of the whole chain; a failed
    catch-up drops the guard. Whatever happened, the file it leaves is one the next start-up
    can trust.
   */
  method Start(file: File, chainId: nat, ghost cuts: seq<nat>, ghost original: File,
               chain: seq<Block>, outside: Outside)
    returns (indexer: Indexer, result: Result<(), IndexError>)
    requires ValidChain(chain) && (outside.tip.Some? ==> outside.tip.value < |chain|)
    requires Startable(original, chain)
    requires file == InterruptedAll(original, chainId, cuts)
    ensures fresh(indexer) && (indexer.status.live <==> result.Success?)
    ensures result.Success? ==>
              && indexer.InStep(chain)
              && indexer.writer.Contents().cursor == Some(|chain| - 1)
    ensures Verdict(original, chainId).Failure? ==> result == Failure(Refused(Verdict(original, chainId).error))
    ensures Verdict(original, chainId).Success? && Undisturbed(outside) ==> result.Success?
    ensures Verdict(original, chainId).Success? ==> Startable(indexer.writer.CurrentFile(), chain)
  {
    indexer, result := Open(file, chainId, cuts, original, chain, outside.loads);
    if result.Failure? {
      return;
    }
    indexer.status.SetLive(true);
    var reported;
    result, reported := indexer.CatchUp(chain, outside);
    IndexedIsStartable(indexer.writer.CurrentFile(), indexer.writer.Contents(), chain);
    if result.Failure? {
      indexer.status.SetLive(false);
    }
  }

  /** A sound reopen of an honest file opens on a reference index. */
  lemma OpenedIndexAgrees(before: File, after: File, chain: seq<Block>)
    requires Sound(before, after) && HonestFile(before, chain)
    ensures after.meta.Some?
    ensures match after.meta.value.lastIndexed
            case None => Agrees(Db(None, after.rows), chain)
            case Some(Unparsable) => false
            case Some(Number(n)) => Agrees(Db(Some(n), after.rows), chain)
  {
    EmptyAgrees(chain);
  }
}
