/**
  The windows successive catch-ups of one process replay. They never overlap; whether a
  later one is smaller depends on how fast the chain grows meanwhile.
 */
module Replays {
  import opened Chain
  import opened Schema
  import opened Protocol
  import opened Recovery

  /** How many blocks a replay opened now would cover. */
  function Window(s: State): int
    requires s.phase.OpeningReplay?
  {
    |s.chain| - s.phase.start
  }

  /** Everything below `reach` is indexed, or the replay under way is about to, or the loop has ended. */
  ghost predicate Reaching(s: State, reach: nat) {
    || s.phase == Halted
    || (s.phase.Working? && s.phase.end >= reach)
    || NextBlock(s.db.cursor) >= reach
  }

  lemma StepReaching(s: State, a: Action, reach: nat)
    requires LoopOk(s) && s.phase != Down && Enabled(s, a) && !a.Boot? && !a.Crash? && Reaching(s, reach)
    ensures Reaching(Next(s, a), reach) && Next(s, a).phase != Down
  {
    LoopStepExtends(s, a);
  }

  lemma {:induction false} StaysReaching(s: State, actions: seq<Action>, reach: nat)
    requires Inv(s) && s.phase != Down && Runs(s, actions) && SameProcess(actions) && Reaching(s, reach)
    ensures Reaching(After(s, actions), reach)
    decreases |actions|
  {
    if actions != [] {
      var a := actions[0];
      assert !a.Boot? && !a.Crash?;
      StepKeeps(s, a);
      StepReaching(s, a, reach);
      assert forall i :: 0 <= i < |actions[1..]| ==> actions[1..][i] == actions[i + 1];
      StaysReaching(Next(s, a), actions[1..], reach);
    }
  }

  /** A replay opened in `s`, and later in the same process the next one about to be opened. */
  ghost predicate TwoOpens(s: State, actions: seq<Action>) {
    && Inv(s) && s.phase.OpeningReplay?
    && Runs(s, actions) && SameProcess(actions)
    && actions != [] && actions[0] == OpenReplay
    && After(s, actions).phase.OpeningReplay?
  }

  /** No block is replayed twice: a later window starts at or above the end of the earlier one. */
  lemma ReplaysAreDisjoint(s: State, actions: seq<Action>)
    requires TwoOpens(s, actions)
    ensures |s.chain| <= After(s, actions).phase.start
  {
    var replaying := Next(s, OpenReplay);
    assert forall i :: 0 <= i < |actions[1..]| ==> actions[1..][i] == actions[i + 1];
    StepKeeps(s, OpenReplay);
    StaysReaching(replaying, actions[1..], |s.chain|);
    RunKeeps(s, actions);
  }

  /**
    A later window is strictly smaller exactly when the chain grew by fewer blocks between
    the two opens than the cursor advanced. When the first replay is all that was indexed in
    between, that is: fewer than it replayed. It never holds after an empty first window.
   */
  lemma WindowShrinksIff(s: State, actions: seq<Action>)
    requires TwoOpens(s, actions)
    ensures var now := After(s, actions);
            var grown, advanced := |now.chain| - |s.chain|, NextBlock(now.db.cursor) - NextBlock(s.db.cursor);
            && 0 <= Window(s) <= advanced
            && (Window(now) < Window(s) <==> grown < advanced)
            && (grown < Window(s) ==> Window(now) < Window(s))
            && (now.phase.start == |s.chain| ==> (Window(now) < Window(s) <==> grown < Window(s)))
            && (Window(s) == 0 ==> Window(now) >= Window(s))
  {
    ReplaysAreDisjoint(s, actions);
    RunKeeps(s, actions);
  }

  // ----- a longer window does occur -----

  /** A restart with everything indexed, up to the point where an empty replay is opened. */
  lemma ReachEmptyWindow(s: State) returns (actions: seq<Action>)
    requires Inv(s)
    ensures Runs(s, actions)
    ensures var now := After(s, actions);
            && Inv(now) && now.phase.OpeningReplay? && now.chain == s.chain
            && Window(now) == 0 && now.queue == [] && now.published == |s.chain|
  {
    var indexed := RestartCatchesUp(s);
    var crashed := Extend(s, indexed, Crash);
    var booted := Extend(s, crashed, Boot(true, |s.chain|));
    var cursorRead := Extend(s, booted, ReadCursor);
    actions := Extend(s, cursorRead, ReadTip);
    RunKeeps(s, actions);
  }

  /** Replay nothing. */
  lemma ReplayNothing(s: State) returns (actions: seq<Action>)
    requires Inv(s) && s.phase.OpeningReplay? && Window(s) == 0
    ensures Runs(s, actions) && actions == [OpenReplay, FinishChain]
    ensures After(s, actions) == ReportProgress(s).(phase := Waiting)
  {
    var replaying := Extend(s, [], OpenReplay);
    actions := Extend(s, replaying, FinishChain);
  }

  /** Lose the one notification of a new block. */
  lemma LoseOneBlock(s: State, block: Block) returns (actions: seq<Action>)
    requires s.phase == Waiting && s.queue == [] && s.published == |s.chain| && Enabled(s, Grow(block))
    ensures Runs(s, actions)
    ensures actions == [Grow(block), Publish(|s.chain| + 1), DropBuffered(0, 1, 1)]
    ensures var now := After(s, actions);
            && now.phase == Waiting && now.queue == [Lagged(1)]
            && now.chain == s.chain + [block] && now.db == s.db
  {
    var grown := Extend(s, [], Grow(block));
    var published := Extend(s, grown, Publish(|s.chain| + 1));
    actions := Extend(s, published, DropBuffered(0, 1, 1));
  }

  /**
    From every reachable state there is a run with two opens in one process whose second
    window is longer than the first: one block after none.
   */
  lemma WindowCanGrow(s: State, block: Block) returns (before: seq<Action>, actions: seq<Action>)
    requires Inv(s) && Enabled(s, Grow(block))
    ensures Runs(s, before) && TwoOpens(After(s, before), actions)
    ensures Window(After(s, before)) == 0 && Window(After(After(s, before), actions)) == 1
  {
    before := ReachEmptyWindow(s);
    actions := OpenAfterLoss(After(s, before), block);
  }

  /** Deliver the marker and get ready to replay the lost block. */
  lemma OpenAfterLoss(s: State, block: Block) returns (actions: seq<Action>)
    requires Inv(s) && s.phase.OpeningReplay? && Window(s) == 0
    requires s.queue == [] && s.published == |s.chain| && Enabled(s, Grow(block))
    ensures TwoOpens(s, actions) && Window(After(s, actions)) == 1
  {
    var replayed := ReplayNothing(s);
    var lost := LoseOneBlock(After(s, replayed), block);
    RunsConcat(s, replayed, lost);
    lost := replayed + lost;
    var delivered := Extend(s, lost, Deliver);
    var cursorRead := Extend(s, delivered, ReadCursor);
    actions := Extend(s, cursorRead, ReadTip);
  }
}
