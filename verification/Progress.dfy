/**
  Progress without a restart: once the environment is quiet and nothing fails, the loop
  cannot run on for ever, and where it stops everything published is indexed.
 */
module Progress {
  import opened Wrappers
  import opened Chain
  import opened Schema
  import opened Index
  import opened Protocol

  /** A step of the loop's own; the others are the environment's, a failure or a restart. */
  predicate IsLoopStep(a: Action) {
    !a.Grow? && !a.Publish? && !a.DropBuffered? && !a.Boot? && !a.Fail? && !a.Crash?
  }

  // ----- a measure every loop step lowers -----

  function PhaseLeft(phase: Phase): nat {
    match phase
    case ReadingCursor => 4
    case ReadingTip(_) => 3
    case OpeningReplay(_, _) => 2
    case Working(_, _, _, _) => 1
    case _ => 0
  }

  function BlocksLeft(phase: Phase): nat {
    if phase.Working? then SaturatingSub(phase.end, phase.next) else 0
  }

  function StageLeft(phase: Phase): nat {
    if !phase.Working? then 0
    else
      match phase.stage
      case Ready => 4
      case Fetching(_, _) => 3
      case InTransaction(_, _) => 2
      case Closed(_) => 1
      case Recorded => 0
  }

  function FetchesLeft(phase: Phase): nat {
    if phase.Working? && phase.stage.Fetching? then SaturatingSub(|phase.stage.need|, |phase.stage.fetched|) else 0
  }

  /** Buffer, phase, blocks, stage, fetches: the first that differs has become smaller. */
  ghost predicate Lower(now: State, before: State) {
    || |now.queue| < |before.queue|
    || (&& |now.queue| == |before.queue|
        && (|| PhaseLeft(now.phase) < PhaseLeft(before.phase)
            || (PhaseLeft(now.phase) == PhaseLeft(before.phase) && LowerWork(now.phase, before.phase))))
  }

  predicate LowerWork(now: Phase, before: Phase) {
    || BlocksLeft(now) < BlocksLeft(before)
    || (&& BlocksLeft(now) == BlocksLeft(before)
        && (|| StageLeft(now) < StageLeft(before)
            || (StageLeft(now) == StageLeft(before) && FetchesLeft(now) < FetchesLeft(before))))
  }

  lemma BlockStepLowers(s: State, a: Action)
    requires Enabled(s, a) && AtStage(s) && IsLoopStep(a)
    requires !a.Deliver? && !a.FinishChain?
    ensures Next(s, a).queue == s.queue && PhaseLeft(Next(s, a).phase) == PhaseLeft(s.phase)
    ensures LowerWork(Next(s, a).phase, s.phase)
  {
  }

  lemma LoopStepLowers(s: State, a: Action)
    requires Enabled(s, a) && IsLoopStep(a)
    ensures Lower(Next(s, a), s)
  {
    match a
    case SelectTokens | FetchToken(_, _) | BeginTransaction | CloseTransaction | ReportBlock | ObserveBlock =>
      BlockStepLowers(s, a);
    case _ =>
  }

  /** One step of an unending schedule is a step of the loop. */
  ghost predicate LoopMoves(states: nat -> State, steps: nat -> Action, k: nat) {
    && IsLoopStep(steps(k)) && Enabled(states(k), steps(k))
    && states(k + 1) == Next(states(k), steps(k))
  }

  /** No schedule consists of loop steps for ever: at some point there is no further one. */
  lemma QuietLoopEnds(states: nat -> State, steps: nat -> Action, from: nat) returns (k: nat)
    ensures from <= k && !LoopMoves(states, steps, k)
    ensures forall j :: from <= j < k ==> LoopMoves(states, steps, j)
    decreases |states(from).queue|, PhaseLeft(states(from).phase), BlocksLeft(states(from).phase),
              StageLeft(states(from).phase), FetchesLeft(states(from).phase)
  {
    if LoopMoves(states, steps, from) {
      LoopStepLowers(states(from), steps(from));
      k := QuietLoopEnds(states, steps, from + 1);
    } else {
      k := from;
    }
  }

  // ----- where it stops -----

  /** The loop is up and no step of its own is enabled. */
  ghost predicate Stuck(s: State) {
    s.phase != Down && s.phase != Halted && forall a: Action :: IsLoopStep(a) ==> !Enabled(s, a)
  }

  lemma WorkIsNeverStuck(s: State) returns (a: Action)
    requires LoopOk(s) && s.phase.Working?
    ensures IsLoopStep(a) && Enabled(s, a)
  {
    if s.phase.next == s.phase.end {
      a := FinishChain;
    } else {
      match s.phase.stage
      case Ready => a := SelectTokens;
      case Fetching(need, fetched) =>
        a := if |fetched| < |need| then FetchToken(Metadata(None, None, None), 0) else BeginTransaction;
      case InTransaction(_, _) => a := CloseTransaction;
      case Closed(_) => a := ReportBlock;
      case Recorded => a := ObserveBlock;
    }
  }

  lemma OnlyADrainedLoopIsStuck(s: State)
    requires LoopOk(s) && s.phase != Down && s.phase != Halted
    ensures Stuck(s) <==> s.phase == Waiting && s.queue == []
  {
    match s.phase
    case ReadingCursor => assert IsLoopStep(ReadCursor) && Enabled(s, ReadCursor);
    case ReadingTip(_) => assert IsLoopStep(ReadTip) && Enabled(s, ReadTip);
    case OpeningReplay(_, _) => assert IsLoopStep(OpenReplay) && Enabled(s, OpenReplay);
    case Working(_, _, _, _) => var a := WorkIsNeverStuck(s);
    case Waiting =>
      if s.queue != [] {
        assert IsLoopStep(Deliver) && Enabled(s, Deliver);
      }
  }

  /**
    In every run, a live loop has no step left exactly when it waits over a drained buffer, and
    then it has indexed everything published and shows it.
   */
  lemma StuckMeansDrained(s: State, actions: seq<Action>)
    requires Init(s) && Runs(s, actions)
    requires After(s, actions).phase != Down && After(s, actions).phase != Halted
    ensures var now := After(s, actions);
            && (Stuck(now) <==> now.phase == Waiting && now.queue == [])
            && (Stuck(now) ==>
                  now.published <= NextBlock(now.db.cursor) == now.indexedPlusOne && Agrees(now.db, now.chain))
  {
    RunsKeepInvariant(s, actions);
    OnlyADrainedLoopIsStuck(After(s, actions));
  }
}
