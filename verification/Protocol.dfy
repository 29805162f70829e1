/**
  The indexing protocol as a state machine. The environment grows the chain, publishes
  executed segments and drops buffered ones; the loop boots, catches up by replay, follows
  notifications and indexes block by block; the process may fail or crash between any two
  steps.

  Assumed of the environment:
  - the chain only grows (no reorgs), heights are dense and fit SQLite's integers;
  - a segment is published after its blocks are committed, segments are contiguous, and
    the only loss is a stretch of the buffer replaced by a `Lagged` marker;
  - the subscription exists before catch-up starts; at boot it begins at or below the tip;
  - a replay covers its start through the tip at the call, inclusive;
  - SQLite commits a transaction whole or not at all.
 */
module Protocol {
  import opened Wrappers
  import opened Chain
  import opened Extraction
  import opened Schema
  import opened Index
  import opened TokenHistory
  import opened Status

  /** A notification: blocks `from..upTo` (exclusive), or the marker for dropped ones. */
  datatype Note = ChainExecuted(from: nat, upTo: nat) | Lagged(missed: nat)

  datatype Source = Replay(tip: nat) | Live

  /** Where the loop stands within one block. */
  datatype Stage =
    | Ready
    | Fetching(need: seq<Address>, fetched: seq<TokenRow>)
    | InTransaction(tokenRows: seq<TokenRow>, pending: Db)
    | Closed(indexed: bool)
    | Recorded

  datatype Phase =
    | Down
    | ReadingCursor
    | ReadingTip(start: nat)
    | OpeningReplay(start: nat, tip: nat)
    | Working(source: Source, next: nat, end: nat, stage: Stage)
    | Waiting
    | Halted

  /** `history` is the auxiliary record of committed fetch attempts; no step reads it. */
  datatype State = State(
    chain: seq<Block>,
    published: nat,
    queue: seq<Note>,
    db: Db,
    history: History,
    phase: Phase,
    indexedPlusOne: nat,
    nodeTip: nat,
    reported: Option<nat>,
    live: bool)

  datatype Action =
    | Grow(block: Block)
    | Publish(upTo: nat)
    | DropBuffered(low: nat, high: nat, missed: nat)
    | Boot(kept: bool, subscribed: nat)
    | ReadCursor
    | ReadTip
    | OpenReplay
    | Deliver
    | SelectTokens
    | FetchToken(metadata: Metadata, fetchedAt: nat)
    | BeginTransaction
    | CloseTransaction
    | ReportBlock
    | ObserveBlock
    | FinishChain
    | Fail
    | Crash

  // ----- steps -----

  /** The block the loop is working on. */
  function Current(s: State): ExtractedBlock
    requires s.phase.Working? && s.phase.next < |s.chain|
  {
    Extract(s.chain[s.phase.next])
  }

  ghost predicate AtStage(s: State) {
    s.phase.Working? && s.phase.next < s.phase.end <= |s.chain|
  }

  ghost predicate Enabled(s: State, a: Action) {
    match a
    case Grow(block) => block.header.number == |s.chain| && |s.chain| < HEIGHT_LIMIT
    case Publish(upTo) => s.phase != Down && s.published < upTo <= |s.chain|
    case DropBuffered(low, high, _) => s.phase != Down && low < high <= |s.queue|
    case Boot(_, subscribed) => s.phase == Down && subscribed <= |s.chain|
    case ReadCursor => s.phase == ReadingCursor
    case ReadTip => s.phase.ReadingTip?
    case OpenReplay => s.phase.OpeningReplay?
    case Deliver => s.phase == Waiting && s.queue != []
    case SelectTokens => AtStage(s) && s.phase.stage == Ready
    case FetchToken(_, _) =>
      AtStage(s) && s.phase.stage.Fetching? && |s.phase.stage.fetched| < |s.phase.stage.need|
    case BeginTransaction =>
      AtStage(s) && s.phase.stage.Fetching? && |s.phase.stage.fetched| == |s.phase.stage.need|
    case CloseTransaction => AtStage(s) && s.phase.stage.InTransaction?
    case ReportBlock => AtStage(s) && s.phase.stage.Closed?
    case ObserveBlock => AtStage(s) && s.phase.stage == Recorded
    case FinishChain => s.phase.Working? && s.phase.stage == Ready && s.phase.next == s.phase.end
    case Fail => s.phase != Down && s.phase != Halted
    case Crash => s.phase != Down
  }

  function InStage(s: State, stage: Stage): State
    requires s.phase.Working?
  {
    s.(phase := s.phase.(stage := stage))
  }

  /** `report_finished_height`: only once something is indexed. */
  function ReportProgress(s: State): State {
    s.(reported := if LastIndexed(s.indexedPlusOne).Some? then LastIndexed(s.indexedPlusOne) else s.reported)
  }

  ghost function Next(s: State, a: Action): State
    requires Enabled(s, a)
  {
    match a
    case Grow(block) => s.(chain := s.chain + [block])
    case Publish(upTo) => s.(queue := s.queue + [ChainExecuted(s.published, upTo)], published := upTo)
    case DropBuffered(low, high, missed) => s.(queue := s.queue[..low] + [Lagged(missed)] + s.queue[high..])
    // open and migrate (keeping the index or dropping it whole), load the status from the
    // cursor, create the liveness guard
    case Boot(kept, subscribed) =>
      var db := if kept then s.db else EMPTY_DB;
      s.(db := db,
         history := if kept then s.history else map[],
         queue := [], published := subscribed,
         phase := ReadingCursor,
         indexedPlusOne := if db.cursor.Some? then RecordIndexed(0, db.cursor.value) else 0,
         nodeTip := 0, reported := None, live := true)
    // catch_up
    case ReadCursor => s.(phase := ReadingTip(NextBlock(s.db.cursor)))
    case ReadTip =>
      var tip := Max(|s.chain| - 1, 0);
      s.(phase := OpeningReplay(s.phase.start, tip), nodeTip := Max(s.nodeTip, tip))
    case OpenReplay => s.(phase := Working(Replay(s.phase.tip), s.phase.start, |s.chain|, Ready))
    // the notification loop
    case Deliver =>
      var rest := s.(queue := s.queue[1..]);
      (match s.queue[0]
       case ChainExecuted(from, upTo) => rest.(phase := Working(Live, from, upTo, Ready))
       case Lagged(_) => rest.(phase := ReadingCursor))
    // index_chain, one block
    case SelectTokens =>
      InStage(s, Fetching(FetchList(s.db.rows.tokens, Current(s).tokenCandidates), []))
    case FetchToken(metadata, fetchedAt) =>
      var stage := s.phase.stage;
      var row := AttemptRow(stage.need[|stage.fetched|], metadata, fetchedAt);
      InStage(s, Fetching(stage.need, stage.fetched + [row]))
    case BeginTransaction =>
      var rows := s.phase.stage.fetched;
      InStage(s, InTransaction(rows, ApplyBlock(s.db, Current(s), rows)))
    case CloseTransaction =>
      // commit, or roll back a block at or below the cursor
      if AtOrBelowCursor(s.db.cursor, Current(s).number) then InStage(s, Closed(false))
      else
        InStage(s, Closed(true)).(
          db := s.phase.stage.pending, history := Record(s.history, s.phase.stage.tokenRows))
    case ReportBlock =>
      InStage(s, Recorded).(
        indexedPlusOne := if s.phase.stage.indexed then RecordIndexed(s.indexedPlusOne, s.phase.next)
                          else s.indexedPlusOne)
    case ObserveBlock =>
      s.(phase := s.phase.(next := s.phase.next + 1, stage := Ready), nodeTip := Max(s.nodeTip, s.phase.next))
    case FinishChain => ReportProgress(s).(phase := Waiting)
    // an error ends the loop, rolls back and drops the liveness guard; a crash ends the process
    case Fail => s.(phase := Halted, live := false)
    case Crash => s.(phase := Down, live := false)
  }

  /** Every action is enabled when its turn comes. */
  ghost predicate Runs(s: State, actions: seq<Action>)
    decreases |actions|
  {
    actions == [] || (Enabled(s, actions[0]) && Runs(Next(s, actions[0]), actions[1..]))
  }

  ghost function After(s: State, actions: seq<Action>): State
    requires Runs(s, actions)
    decreases |actions|
  {
    if actions == [] then s else After(Next(s, actions[0]), actions[1..])
  }

  /** A process not yet started over an empty index. */
  ghost predicate Init(s: State) {
    ValidChain(s.chain) && s.db == EMPTY_DB && s.history == map[] && s.phase == Down && !s.live
  }

  // ----- the inductive invariant -----

  /** Buffered segments lie below what is published. */
  ghost predicate InRange(queue: seq<Note>, published: nat) {
    forall i :: 0 <= i < |queue| && queue[i].ChainExecuted? ==> queue[i].from < queue[i].upTo <= published
  }

  /**
    Walking the buffer from a point where everything below `reach` is taken care of never
    meets a segment that starts above it: each starts at or below, or a `Lagged` marker
    comes first. The same holds for the segment published next.
   */
  ghost predicate Covered(queue: seq<Note>, reach: nat, published: nat)
    decreases |queue|
  {
    if queue == [] then published <= reach
    else
      match queue[0]
      case Lagged(_) => InRange(queue[1..], published)
      case ChainExecuted(from, upTo) =>
        from <= reach && from < upTo <= published && Covered(queue[1..], Max(reach, upTo), published)
  }

  /** How far the loop will have got when it next looks at the buffer. */
  function Reach(s: State): nat {
    if s.phase.Working? then Max(NextBlock(s.db.cursor), s.phase.end) else NextBlock(s.db.cursor)
  }

  /** No gap: everything below `reach` is indexed or about to be, when the buffer is next looked at. */
  ghost predicate QueueCovered(s: State) {
    && InRange(s.queue, s.published)
    && (s.phase == Waiting ==> Covered(s.queue, NextBlock(s.db.cursor), s.published))
    && (s.phase.Working? ==> Covered(s.queue, Max(NextBlock(s.db.cursor), s.phase.end), s.published))
  }

  ghost predicate StageOk(s: State)
    requires s.phase.Working? && s.phase.next < |s.chain|
  {
    var candidates, need := Current(s).tokenCandidates, FetchList(s.db.rows.tokens, Current(s).tokenCandidates);
    match s.phase.stage
    case Ready => s.phase.next <= NextBlock(s.db.cursor)
    case Fetching(n, rows) =>
      s.phase.next <= NextBlock(s.db.cursor) && n == need && |rows| <= |n| && RowsForList(rows, n[..|rows|])
    case InTransaction(rows, pending) =>
      s.phase.next <= NextBlock(s.db.cursor) && RowsForList(rows, need)
      && pending == ApplyBlock(s.db, Current(s), rows)
    case Closed(indexed) =>
      s.phase.next < NextBlock(s.db.cursor) && (indexed ==> s.phase.next + 1 == NextBlock(s.db.cursor))
    case Recorded => s.phase.next < NextBlock(s.db.cursor)
  }

  ghost predicate PhaseOk(s: State) {
    match s.phase
    case ReadingTip(start) => start == NextBlock(s.db.cursor)
    case OpeningReplay(start, tip) => start == NextBlock(s.db.cursor) && tip < |s.chain|
    case Working(source, next, end, stage) =>
      && next <= end <= |s.chain|
      && next <= NextBlock(s.db.cursor)
      && (source.Replay? ==> source.tip < end)
      && (next < end ==> StageOk(s))
      && (next == end ==> stage == Ready)
    case _ => true
  }

  /** Between a commit and its report, or after an error, the view may trail the cursor. */
  predicate ViewMayTrail(phase: Phase) {
    phase == Halted || (phase.Working? && phase.stage == Closed(true))
  }

  /** The views never run ahead of the durable cursor, and catch up with it after every block. */
  ghost predicate ViewsOk(s: State) {
    && s.indexedPlusOne <= NextBlock(s.db.cursor)
    && (!ViewMayTrail(s.phase) ==> s.indexedPlusOne == NextBlock(s.db.cursor))
    && (s.reported.Some? ==> s.reported.value < s.indexedPlusOne)
    && s.nodeTip < |s.chain|
  }

  /** The volatile part: where the loop stands relative to the cursor, the buffer and the chain. */
  ghost predicate LoopOk(s: State) {
    && ValidChain(s.chain)
    && NextBlock(s.db.cursor) <= |s.chain|
    && (s.phase != Down ==> s.published <= |s.chain| && QueueCovered(s) && PhaseOk(s) && ViewsOk(s))
  }

  ghost predicate Inv(s: State) {
    LoopOk(s) && Agrees(s.db, s.chain) && Explains(s.history, s.db.rows.tokens)
  }

  // ----- the buffer -----

  lemma {:induction false} CoveredHigher(queue: seq<Note>, low: nat, high: nat, published: nat)
    requires Covered(queue, low, published) && low <= high
    ensures Covered(queue, high, published)
    decreases |queue|
  {
    if queue != [] && queue[0].ChainExecuted? {
      CoveredHigher(queue[1..], Max(low, queue[0].upTo), Max(high, queue[0].upTo), published);
    }
  }

  lemma {:induction false} PublishKeepsCovered(queue: seq<Note>, reach: nat, published: nat, upTo: nat)
    requires Covered(queue, reach, published) && published < upTo
    ensures Covered(queue + [ChainExecuted(published, upTo)], reach, upTo)
    decreases |queue|
  {
    var longer := queue + [ChainExecuted(published, upTo)];
    if queue == [] {
      assert longer[1..] == [];
    } else {
      assert longer[1..] == queue[1..] + [ChainExecuted(published, upTo)];
      if queue[0].ChainExecuted? {
        PublishKeepsCovered(queue[1..], Max(reach, queue[0].upTo), published, upTo);
      }
    }
  }

  lemma {:induction false} DropKeepsCovered(
      queue: seq<Note>, reach: nat, published: nat, low: nat, high: nat, missed: nat)
    requires Covered(queue, reach, published) && InRange(queue, published) && low < high <= |queue|
    ensures Covered(queue[..low] + [Lagged(missed)] + queue[high..], reach, published)
    decreases |queue|
  {
    var shorter := queue[..low] + [Lagged(missed)] + queue[high..];
    if low == 0 {
      assert shorter[1..] == queue[high..];
    } else {
      var rest := queue[1..];
      assert shorter[1..] == rest[..low - 1] + [Lagged(missed)] + rest[high - 1..];
      if queue[0].ChainExecuted? {
        DropKeepsCovered(rest, Max(reach, queue[0].upTo), published, low - 1, high - 1, missed);
      }
    }
  }

  /** Once everything published is taken care of, nothing in the buffer can leave a gap. */
  lemma {:induction false} ReachCoversAll(queue: seq<Note>, reach: nat, published: nat)
    requires InRange(queue, published) && published <= reach
    ensures Covered(queue, reach, published)
    decreases |queue|
  {
    if queue != [] && queue[0].ChainExecuted? {
      ReachCoversAll(queue[1..], Max(reach, queue[0].upTo), published);
    }
  }

  // ----- every step keeps the invariant -----

  lemma GrowKeeps(s: State, block: Block)
    requires LoopOk(s) && Enabled(s, Grow(block))
    ensures LoopOk(Next(s, Grow(block)))
  {
  }

  lemma PublishKeeps(s: State, upTo: nat)
    requires LoopOk(s) && Enabled(s, Publish(upTo))
    ensures LoopOk(Next(s, Publish(upTo)))
  {
    if s.phase == Waiting || s.phase.Working? {
      PublishKeepsCovered(s.queue, Reach(s), s.published, upTo);
    }
  }

  lemma DropKeeps(s: State, low: nat, high: nat, missed: nat)
    requires LoopOk(s) && Enabled(s, DropBuffered(low, high, missed))
    ensures LoopOk(Next(s, DropBuffered(low, high, missed)))
  {
    if s.phase == Waiting || s.phase.Working? {
      DropKeepsCovered(s.queue, Reach(s), s.published, low, high, missed);
    }
  }

  lemma CatchUpKeeps(s: State, a: Action)
    requires LoopOk(s) && Enabled(s, a) && (a.Boot? || a.ReadCursor? || a.ReadTip? || a.OpenReplay?)
    ensures LoopOk(Next(s, a))
  {
    if a.OpenReplay? {
      ReachCoversAll(s.queue, |s.chain|, s.published);
    }
  }

  lemma DeliverKeeps(s: State)
    requires LoopOk(s) && Enabled(s, Deliver)
    ensures LoopOk(Next(s, Deliver))
  {
  }

  lemma FinishKeeps(s: State)
    requires LoopOk(s) && Enabled(s, FinishChain)
    ensures LoopOk(Next(s, FinishChain))
  {
  }

  lemma StopKeeps(s: State, a: Action)
    requires LoopOk(s) && Enabled(s, a) && (a.Fail? || a.Crash?)
    ensures LoopOk(Next(s, a))
  {
  }

  lemma SelectKeeps(s: State)
    requires LoopOk(s) && Enabled(s, SelectTokens)
    ensures LoopOk(Next(s, SelectTokens))
  {
  }

  lemma FetchKeeps(s: State, metadata: Metadata, fetchedAt: nat)
    requires LoopOk(s) && Enabled(s, FetchToken(metadata, fetchedAt))
    ensures LoopOk(Next(s, FetchToken(metadata, fetchedAt)))
  {
    OneMoreAttempt(s.phase.stage.fetched, s.phase.stage.need, metadata, fetchedAt);
  }

  lemma OneMoreAttempt(rows: seq<TokenRow>, need: seq<Address>, metadata: Metadata, fetchedAt: nat)
    requires |rows| < |need| && RowsForList(rows, need[..|rows|])
    ensures RowsForList(rows + [AttemptRow(need[|rows|], metadata, fetchedAt)], need[..|rows| + 1])
  {
  }

  lemma BeginKeeps(s: State)
    requires LoopOk(s) && Enabled(s, BeginTransaction)
    ensures LoopOk(Next(s, BeginTransaction))
  {
    var n := s.phase.stage.need;
    assert n[..|n|] == n;
  }

  lemma ReportKeeps(s: State)
    requires LoopOk(s) && Enabled(s, ReportBlock)
    ensures LoopOk(Next(s, ReportBlock))
  {
  }

  lemma ObserveKeeps(s: State)
    requires LoopOk(s) && Enabled(s, ObserveBlock)
    ensures LoopOk(Next(s, ObserveBlock))
  {
  }

  lemma CloseMovesCursor(s: State)
    requires LoopOk(s) && Enabled(s, CloseTransaction)
    ensures var then' := Next(s, CloseTransaction);
            && then'.chain == s.chain && then'.queue == s.queue && then'.published == s.published
            && then'.phase == s.phase.(stage := then'.phase.stage)
            && NextBlock(then'.db.cursor) == Max(NextBlock(s.db.cursor), s.phase.next + 1)
  {
  }

  /** A close moves the cursor by one or not at all; the loop part only needs to know that much. */
  lemma CloseKeepsLoop(s: State)
    requires LoopOk(s) && Enabled(s, CloseTransaction)
    ensures LoopOk(Next(s, CloseTransaction))
    ensures !AtOrBelowCursor(s.db.cursor, Current(s).number) ==> s.phase.next == NextBlock(s.db.cursor)
  {
    CloseMovesCursor(s);
    CoveredHigher(s.queue, Reach(s), Max(Reach(s), s.phase.next + 1), s.published);
  }

  /** Closing a transaction indexes the block right after the cursor, or changes nothing. */
  lemma CloseKeeps(s: State)
    requires Inv(s) && Enabled(s, CloseTransaction)
    ensures Inv(Next(s, CloseTransaction))
  {
    CloseKeepsLoop(s);
    var rows := s.phase.stage.tokenRows;
    if !AtOrBelowCursor(s.db.cursor, Current(s).number) {
      CommitFacts(s);
      IndexingOneBlock(s.db, s.chain, rows);
      ExtractedKeysAreUnique(s.chain[s.phase.next]);
      BlockMovesTokenOnce(s.history, s.db.rows.tokens, Current(s).tokenCandidates, rows);
    }
  }

  /** What is about to be committed. */
  lemma CommitFacts(s: State)
    requires LoopOk(s) && Enabled(s, CloseTransaction) && !AtOrBelowCursor(s.db.cursor, Current(s).number)
    ensures s.phase.next == NextBlock(s.db.cursor) < |s.chain|
    ensures RowsForList(s.phase.stage.tokenRows, FetchList(s.db.rows.tokens, Current(s).tokenCandidates))
    ensures s.phase.stage.pending == ApplyBlock(s.db, Current(s), s.phase.stage.tokenRows)
    ensures var then' := Next(s, CloseTransaction);
            && then'.db == s.phase.stage.pending && then'.chain == s.chain
            && then'.history == Record(s.history, s.phase.stage.tokenRows)
            && then'.db.rows.tokens == UpsertTokens(s.db.rows.tokens, s.phase.stage.tokenRows)
  {
  }

  /** Only a close and a boot touch the database, only growth touches the chain. */
  lemma LoopStepFrame(s: State, a: Action)
    requires Enabled(s, a) && !a.CloseTransaction?
    ensures !a.Boot? ==> Next(s, a).db == s.db && Next(s, a).history == s.history
    ensures !a.Grow? ==> Next(s, a).chain == s.chain
  {
  }

  /** Every other step of the loop keeps its part of the invariant. */
  lemma LoopStepKeeps(s: State, a: Action)
    requires LoopOk(s) && Enabled(s, a) && !a.CloseTransaction?
    ensures LoopOk(Next(s, a))
  {
    match a
    case Grow(block) => GrowKeeps(s, block);
    case Publish(upTo) => PublishKeeps(s, upTo);
    case DropBuffered(low, high, missed) => DropKeeps(s, low, high, missed);
    case Boot(_, _) | ReadCursor | ReadTip | OpenReplay => CatchUpKeeps(s, a);
    case Deliver => DeliverKeeps(s);
    case FinishChain => FinishKeeps(s);
    case Fail | Crash => StopKeeps(s, a);
    case SelectTokens => SelectKeeps(s);
    case FetchToken(metadata, fetchedAt) => FetchKeeps(s, metadata, fetchedAt);
    case BeginTransaction => BeginKeeps(s);
    case ReportBlock => ReportKeeps(s);
    case ObserveBlock => ObserveKeeps(s);
  }

  lemma StepKeeps(s: State, a: Action)
    requires Inv(s) && Enabled(s, a)
    ensures Inv(Next(s, a))
  {
    if a.CloseTransaction? {
      CloseKeeps(s);
    } else {
      LoopStepKeeps(s, a);
      LoopStepFrame(s, a);
      if a.Grow? {
        AgreesAfterGrowth(s.db, s.chain, a.block);
      }
      if a.Boot? {
        EmptyAgrees(s.chain);
      }
    }
  }

  lemma {:induction false} RunKeeps(s: State, actions: seq<Action>)
    requires Inv(s) && Runs(s, actions)
    ensures Inv(After(s, actions))
    decreases |actions|
  {
    if actions != [] {
      StepKeeps(s, actions[0]);
      RunKeeps(Next(s, actions[0]), actions[1..]);
    }
  }

  // ----- theorems over every run -----

  /** The loop part of the invariant over every run, for the theorems that need no more. */
  lemma LoopFacts(s: State, actions: seq<Action>)
    requires Init(s) && Runs(s, actions)
    ensures LoopOk(After(s, actions))
  {
    RunsKeepInvariant(s, actions);
  }

  lemma RunsKeepInvariant(s: State, actions: seq<Action>)
    requires Init(s) && Runs(s, actions)
    ensures Inv(After(s, actions))
  {
    assert Inv(s) by {
      EmptyAgrees(s.chain);
    }
    RunKeeps(s, actions);
  }

  /**
    Growth, multi-block segments, overlap with replay, `Lagged`, failures, crashes and
    restarts in any order: the durable tables are always the reference index of exactly
    the blocks the cursor claims, with no hole and nothing applied twice.
   */
  lemma DurableIndexIsReference(s: State, actions: seq<Action>)
    requires Init(s) && Runs(s, actions)
    ensures var now := After(s, actions);
            && Agrees(now.db, now.chain)
            && SumCounts(now.db.rows.typeCounts, 256) == TransactionsBelow(now.chain, NextBlock(now.db.cursor))
  {
    RunsKeepInvariant(s, actions);
    TotalsCountEveryTransaction(After(s, actions).db, After(s, actions).chain);
  }

  /** Although the guard only rejects blocks at or below the cursor, what commits is always `cursor + 1`. */
  lemma CommitsAreConsecutive(s: State, actions: seq<Action>)
    requires Init(s) && Runs(s, actions) && Enabled(After(s, actions), CloseTransaction)
    ensures var now := After(s, actions);
            var then' := Next(now, CloseTransaction);
            && (now.phase.next < NextBlock(now.db.cursor) ==> then'.db == now.db && then'.history == now.history)
            && (now.phase.next >= NextBlock(now.db.cursor) ==>
                  now.phase.next == NextBlock(now.db.cursor) && then'.db.cursor == Some(now.phase.next))
  {
    LoopFacts(s, actions);
  }

  /** A finished catch-up has reached the tip it read and reports exactly the durable cursor. */
  lemma CatchUpReachesTip(s: State, actions: seq<Action>)
    requires Init(s) && Runs(s, actions)
    requires Enabled(After(s, actions), FinishChain) && After(s, actions).phase.source.Replay?
    ensures var now := After(s, actions);
            && now.db.cursor.Some? && now.db.cursor.value >= now.phase.source.tip
            && Next(now, FinishChain).reported == now.db.cursor
  {
    LoopFacts(s, actions);
  }

  /** A segment wholly at or below the cursor changes nothing durable, whatever step is taken on it. */
  lemma StaleSegmentIsNoOp(s: State, actions: seq<Action>, a: Action)
    requires Init(s) && Runs(s, actions) && Enabled(After(s, actions), a)
    requires After(s, actions).phase.Working?
    requires After(s, actions).phase.end <= NextBlock(After(s, actions).db.cursor)
    ensures var now := After(s, actions);
            && Next(now, a).db == now.db && Next(now, a).history == now.history
  {
    LoopFacts(s, actions);
    var now := After(s, actions);
    if !a.CloseTransaction? {
      LoopStepKeeps(now, a);
      LoopStepFrame(now, a);
    } else {
      CloseKeepsLoop(now);
    }
  }

  /** Every token row is what its committed attempts add up to, and exists iff the token emitted. */
  lemma TokenRowsAreExplained(s: State, actions: seq<Action>, token: Address)
    requires Init(s) && Runs(s, actions)
    ensures var now := After(s, actions);
            && NextBlock(now.db.cursor) <= |now.chain|
            && (token in now.db.rows.tokens <==> EmittedBy(now.chain, NextBlock(now.db.cursor), token))
    ensures var now := After(s, actions);
            RowExplained(now.db.rows.tokens, token, AttemptsOf(now.history, token))
  {
    RunsKeepInvariant(s, actions);
    var now := After(s, actions);
    ExplainedRow(now.history, now.db.rows.tokens, token);
  }

  /**
    A boot keeps every token row or drops them all. Any other step: a token gains at most one
    attempt; ok and terminal rows never change.
   */
  lemma StepMovesTokens(s: State, a: Action, token: Address)
    requires Inv(s) && Enabled(s, a)
    ensures a.Boot? ==>
              || (Next(s, a).history == s.history && Next(s, a).db == s.db)
              || (Next(s, a).history == map[] && Next(s, a).db == EMPTY_DB)
    ensures !a.Boot? ==> TokenMovesOnce(s, Next(s, a), token)
  {
    if a.Boot? {
      BootKeepsOrDrops(s, a);
    } else {
      StepMovesTokenOnce(s, a, token);
    }
  }

  lemma BootKeepsOrDrops(s: State, a: Action)
    requires Enabled(s, a) && a.Boot?
    ensures || (Next(s, a).history == s.history && Next(s, a).db == s.db)
            || (Next(s, a).history == map[] && Next(s, a).db == EMPTY_DB)
  {
  }

  /** At most one attempt more, the row kept, and a settled row unchanged. */
  ghost predicate TokenMovesOnce(before: State, after: State, token: Address) {
    && AttemptsOf(before.history, token) <= AttemptsOf(after.history, token)
    && |AttemptsOf(after.history, token)| <= |AttemptsOf(before.history, token)| + 1
    && (token in before.db.rows.tokens ==> token in after.db.rows.tokens)
    && (token in before.db.rows.tokens && before.db.rows.tokens[token].status != 1 ==>
          after.db.rows.tokens[token] == before.db.rows.tokens[token])
  }

  lemma StepMovesTokenOnce(s: State, a: Action, token: Address)
    requires Inv(s) && Enabled(s, a) && !a.Boot?
    ensures TokenMovesOnce(s, Next(s, a), token)
  {
    if !a.CloseTransaction? {
      LoopStepKeeps(s, a);
      LoopStepFrame(s, a);
    } else if !AtOrBelowCursor(s.db.cursor, Current(s).number) {
      CommitMovesTokenOnce(s, token);
    }
  }

  /**
    In every run, committing block `n` adds exactly one attempt to each token that emitted in
    it and has no row or a failed first attempt, and none to any other.
   */
  lemma CommitFetchesWhatIsDue(s: State, actions: seq<Action>, token: Address)
    requires Init(s) && Runs(s, actions) && Enabled(After(s, actions), CloseTransaction)
    requires After(s, actions).phase.next >= NextBlock(After(s, actions).db.cursor)
    ensures var now := After(s, actions);
            var table, then' := now.db.rows.tokens, Next(now, CloseTransaction);
            var emits := exists key :: Emitted(now.chain, |now.chain|, key) && key.block == now.phase.next
                                       && TransferAt(now.chain, key).token == token;
            |AttemptsOf(then'.history, token)|
            == |AttemptsOf(now.history, token)|
               + if emits && (token !in table || table[token].status == 1) then 1 else 0
  {
    RunsKeepInvariant(s, actions);
    var now := After(s, actions);
    var n := now.phase.next;
    CommitFacts(now);
    ExtractedKeysAreUnique(now.chain[n]);
    BlockMovesTokenOnce(now.history, now.db.rows.tokens, Current(now).tokenCandidates, now.phase.stage.tokenRows);
    CandidatesAreEmitters(now.chain, n, token);
  }

  lemma CommitMovesTokenOnce(s: State, token: Address)
    requires Inv(s) && Enabled(s, CloseTransaction) && !AtOrBelowCursor(s.db.cursor, Current(s).number)
    ensures TokenMovesOnce(s, Next(s, CloseTransaction), token)
  {
    CommitFacts(s);
    ExtractedKeysAreUnique(s.chain[s.phase.next]);
    TokenAfterBlock(s.history, s.db.rows.tokens, Current(s).tokenCandidates, s.phase.stage.tokenRows, token);
  }

  predicate SameProcess(actions: seq<Action>) {
    forall i :: 0 <= i < |actions| ==> !actions[i].Boot? && !actions[i].Crash?
  }

  /** What a later state of the same process keeps. */
  ghost predicate Extends(before: State, after: State) {
    && before.chain <= after.chain
    && NextBlock(before.db.cursor) <= NextBlock(after.db.cursor)
    && before.indexedPlusOne <= after.indexedPlusOne
    && before.nodeTip <= after.nodeTip
    && (before.reported.Some? ==> after.reported.Some? && before.reported.value <= after.reported.value)
    && (forall token :: token in before.db.rows.tokens && before.db.rows.tokens[token].status != 1 ==>
          token in after.db.rows.tokens && after.db.rows.tokens[token] == before.db.rows.tokens[token])
  }

  lemma ExtendsTransitive(a: State, b: State, c: State)
    requires Extends(a, b) && Extends(b, c)
    ensures Extends(a, c)
  {
  }

  lemma StepExtends(s: State, a: Action)
    requires Inv(s) && Enabled(s, a) && !a.Boot? && !a.Crash?
    ensures Extends(s, Next(s, a))
  {
    LoopStepExtends(s, a);
    forall token | token in s.db.rows.tokens && s.db.rows.tokens[token].status != 1
      ensures token in Next(s, a).db.rows.tokens && Next(s, a).db.rows.tokens[token] == s.db.rows.tokens[token]
    {
      StepMovesTokenOnce(s, a, token);
    }
  }

  lemma LoopStepExtends(s: State, a: Action)
    requires LoopOk(s) && Enabled(s, a) && !a.Boot? && !a.Crash?
    ensures var then' := Next(s, a);
            && s.chain <= then'.chain
            && NextBlock(s.db.cursor) <= NextBlock(then'.db.cursor)
            && s.indexedPlusOne <= then'.indexedPlusOne && s.nodeTip <= then'.nodeTip
            && (s.reported.Some? ==> then'.reported.Some? && s.reported.value <= then'.reported.value)
            && (s.phase != Down ==> then'.phase != Down)
  {
    if a.CloseTransaction? {
      CloseKeepsLoop(s);
    } else {
      LoopStepKeeps(s, a);
      LoopStepFrame(s, a);
    }
  }

  /** Within a process the chain, the cursor, the views and every settled token only move forward. */
  lemma {:induction false} ProcessExtends(s: State, actions: seq<Action>)
    requires Inv(s) && s.phase != Down && Runs(s, actions) && SameProcess(actions)
    ensures var now := After(s, actions); now.phase != Down && Inv(now) && Extends(s, now)
    decreases |actions|
  {
    if actions != [] {
      var a := actions[0];
      StepKeeps(s, a);
      StepExtends(s, a);
      LoopStepExtends(s, a);
      assert forall i :: 0 <= i < |actions[1..]| ==> actions[1..][i] == actions[i + 1];
      ProcessExtends(Next(s, a), actions[1..]);
      ExtendsTransitive(s, Next(s, a), After(s, actions));
    }
  }

  /**
    Within a process the chain, the cursor, the status view, the reported height and every
    settled token only move forward; the view and the report never pass the cursor.
   */
  lemma ProcessMovesForward(s: State, actions: seq<Action>)
    requires Inv(s) && s.phase != Down && Runs(s, actions) && SameProcess(actions)
    ensures var now := After(s, actions);
            && now.phase != Down && Inv(now) && Extends(s, now)
            && now.indexedPlusOne <= NextBlock(now.db.cursor)
            && (now.reported.Some? ==> now.db.cursor.Some? && now.reported.value <= now.db.cursor.value)
  {
    ProcessExtends(s, actions);
    ViewFacts(After(s, actions));
  }

  lemma ViewFacts(s: State)
    requires LoopOk(s) && s.phase != Down
    ensures s.indexedPlusOne <= NextBlock(s.db.cursor)
    ensures s.reported.Some? ==> s.db.cursor.Some? && s.reported.value <= s.db.cursor.value
  {
  }
}
