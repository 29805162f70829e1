/**
  What `/health` lets a reader conclude: the liveness bit, the lag, and when a lag of zero
  means that the whole chain is indexed.
 */
module Health {
  import opened Wrappers
  import opened Chain
  import opened Schema
  import opened Status
  import opened Protocol

  // ----- the liveness bit -----

  ghost predicate LiveOk(s: State) {
    s.live <==> s.phase != Down && s.phase != Halted
  }

  lemma {:induction false} LiveAfter(s: State, actions: seq<Action>)
    requires LiveOk(s) && Runs(s, actions)
    ensures LiveOk(After(s, actions))
    decreases |actions|
  {
    if actions != [] {
      LiveAfter(Next(s, actions[0]), actions[1..]);
    }
  }

  /** In every run the bit is set exactly while the loop runs: not after an error, a crash or before a boot. */
  lemma LiveExactlyWhileLooping(s: State, actions: seq<Action>)
    requires Init(s) && Runs(s, actions)
    ensures var now := After(s, actions); now.live <==> now.phase != Down && now.phase != Halted
  {
    LiveAfter(s, actions);
  }

  // ----- the observed tip -----

  /** The block in hand counts as observed once its transaction is closed. */
  function Observed(s: State): nat {
    if s.phase.Working? && (s.phase.stage.Closed? || s.phase.stage == Recorded) then Max(s.nodeTip, s.phase.next)
    else s.nodeTip
  }

  /** Once a tip was read, the cursor is never beyond the observed tip; a waiting loop has reached it. */
  ghost predicate TipOk(s: State) {
    && (s.phase.OpeningReplay? || s.phase.Working? || s.phase == Waiting ==>
          NextBlock(s.db.cursor) <= Observed(s) + 1)
    && (s.phase.Working? || s.phase == Waiting ==> s.nodeTip < Reach(s))
    && (s.phase == Waiting ==> s.reported == s.db.cursor)
  }

  lemma TipAtClose(s: State)
    requires LoopOk(s) && TipOk(s) && Enabled(s, CloseTransaction)
    ensures TipOk(Next(s, CloseTransaction))
  {
    CloseKeepsLoop(s);
  }

  lemma TipAtBlock(s: State, a: Action)
    requires LoopOk(s) && TipOk(s) && Enabled(s, a)
    requires a.SelectTokens? || a.FetchToken? || a.BeginTransaction? || a.ReportBlock? || a.ObserveBlock?
    ensures TipOk(Next(s, a))
  {
  }

  lemma TipElsewhere(s: State, a: Action)
    requires LoopOk(s) && TipOk(s) && Enabled(s, a)
    requires !a.SelectTokens? && !a.FetchToken? && !a.BeginTransaction? && !a.ReportBlock? && !a.ObserveBlock?
    requires !a.CloseTransaction?
    ensures TipOk(Next(s, a))
  {
  }

  lemma TipStep(s: State, a: Action)
    requires LoopOk(s) && TipOk(s) && Enabled(s, a)
    ensures TipOk(Next(s, a))
  {
    match a
    case CloseTransaction => TipAtClose(s);
    case SelectTokens | FetchToken(_, _) | BeginTransaction | ReportBlock | ObserveBlock => TipAtBlock(s, a);
    case _ => TipElsewhere(s, a);
  }

  lemma {:induction false} TipAfter(s: State, actions: seq<Action>)
    requires Inv(s) && TipOk(s) && Runs(s, actions)
    ensures Inv(After(s, actions)) && TipOk(After(s, actions))
    decreases |actions|
  {
    if actions != [] {
      StepKeeps(s, actions[0]);
      TipStep(s, actions[0]);
      TipAfter(Next(s, actions[0]), actions[1..]);
    }
  }

  lemma TipFacts(s: State, actions: seq<Action>)
    requires Init(s) && Runs(s, actions)
    ensures LoopOk(After(s, actions)) && TipOk(After(s, actions))
  {
    RunsKeepInvariant(s, []);
    TipAfter(s, actions);
  }

  // ----- when zero lag means complete -----

  /**
    A waiting loop always shows zero lag, because it has reached the tip it observed. It is
    complete exactly when that observed tip is the node's own, which a reader of `/health`
    can check against the node's latest block. The node has been told that height.
   */
  lemma WaitingIsCompleteIff(s: State, actions: seq<Action>)
    requires Init(s) && Runs(s, actions) && After(s, actions).phase == Waiting
    ensures var now := After(s, actions);
            && Lag(now.nodeTip, now.indexedPlusOne) == 0
            && now.nodeTip + 1 == now.indexedPlusOne == NextBlock(now.db.cursor)
            && now.reported == now.db.cursor == Some(now.nodeTip)
            && (NextBlock(now.db.cursor) == |now.chain| <==> now.nodeTip + 1 == |now.chain|)
  {
    TipFacts(s, actions);
  }

  /**
    In any phase, a halted loop included: when the observed tip is the node's own, zero lag
    means that everything is indexed, except over a chain that holds only genesis, where
    an empty index shows zero too.
   */
  lemma ZeroLagAtTheTip(s: State, actions: seq<Action>)
    requires Init(s) && Runs(s, actions) && After(s, actions).phase != Down
    requires After(s, actions).nodeTip + 1 == |After(s, actions).chain|
    ensures var now := After(s, actions);
            && (Lag(now.nodeTip, now.indexedPlusOne) == 0 <==> now.indexedPlusOne == |now.chain| || |now.chain| == 1)
            && (now.indexedPlusOne == |now.chain| ==> NextBlock(now.db.cursor) == |now.chain|)
  {
    TipFacts(s, actions);
  }

  /**
    In every run and every phase, the lag is the number of blocks after genesis, up to the
    observed tip, that the view does not cover; each of them is a block of the chain.
   */
  lemma LagIsBlocksBehind(s: State, actions: seq<Action>)
    requires Init(s) && Runs(s, actions) && After(s, actions).phase != Down
    ensures var now := After(s, actions);
            var behind := set b | 0 <= b < |now.chain| && IsBehind(now.nodeTip, now.indexedPlusOne, b);
            Lag(now.nodeTip, now.indexedPlusOne) == |behind|
  {
    TipFacts(s, actions);
    var now := After(s, actions);
    LagCountsBlocksBehind(now.nodeTip, now.indexedPlusOne);
    assert Behind(now.nodeTip, now.indexedPlusOne)
        == set b | 0 <= b < |now.chain| && IsBehind(now.nodeTip, now.indexedPlusOne, b);
  }

  /** In every run, a waiting loop shows lag zero over the next published block until it is delivered. */
  lemma ZeroLagOverUnindexedBlock(s: State, before: seq<Action>, block: Block)
    requires Init(s) && Runs(s, before) && After(s, before).phase == Waiting
    requires Enabled(After(s, before), Grow(block))
    ensures var waiting := After(s, before);
            var actions := [Grow(block), Publish(|waiting.chain| + 1)];
            && Runs(waiting, actions)
            && var now := After(waiting, actions);
               && now.phase == Waiting && Lag(now.nodeTip, now.indexedPlusOne) == 0
               && NextBlock(now.db.cursor) < now.published == |now.chain|
  {
    WaitingIsCompleteIff(s, before);
    TipFacts(s, before);
    GrowAndPublish(After(s, before), block);
  }

  lemma GrowAndPublish(s: State, block: Block)
    requires LoopOk(s) && s.phase == Waiting && Enabled(s, Grow(block))
    ensures var actions := [Grow(block), Publish(|s.chain| + 1)];
            && Runs(s, actions)
            && var now := After(s, actions);
               && now.phase == Waiting && now.db == s.db
               && now.nodeTip == s.nodeTip && now.indexedPlusOne == s.indexedPlusOne
               && NextBlock(now.db.cursor) < now.published == |now.chain|
  {
    var grown := Next(s, Grow(block));
    var publish := Publish(|s.chain| + 1);
    var published := Next(grown, publish);
    assert [publish][1..] == [];
    assert Runs(published, []) && After(published, []) == published;
    assert Runs(grown, [publish]);
    assert After(grown, [publish]) == After(published, [publish][1..]);
    assert [Grow(block), publish][1..] == [publish];
  }

  // ----- the buffer of a waiting loop -----

  predicate NothingDropped(queue: seq<Note>) {
    forall i :: 0 <= i < |queue| ==> queue[i].ChainExecuted?
  }

  /** Every buffered segment lies at or below `reach`. */
  predicate AllStale(queue: seq<Note>, reach: nat) {
    forall i :: 0 <= i < |queue| && queue[i].ChainExecuted? ==> queue[i].upTo <= reach
  }

  lemma {:induction false} StaleBufferIff(queue: seq<Note>, reach: nat, published: nat)
    requires Covered(queue, reach, published) && InRange(queue, published) && NothingDropped(queue)
    ensures published <= reach <==> AllStale(queue, reach)
    decreases |queue|
  {
    if queue != [] && queue[0].upTo <= reach {
      var rest := queue[1..];
      assert forall i :: 0 <= i < |rest| ==> rest[i] == queue[i + 1];
      StaleBufferIff(rest, reach, published);
      assert AllStale(queue, reach) <==> AllStale(rest, reach) by {
        assert forall i :: 0 < i < |queue| ==> queue[i] == rest[i - 1];
      }
    }
  }

  /**
    Without a `Lagged` marker in the buffer, a waiting loop has indexed everything published
    exactly when every buffered segment lies at or below the cursor.
   */
  lemma BufferIsStaleIff(s: State, actions: seq<Action>)
    requires Init(s) && Runs(s, actions)
    requires After(s, actions).phase == Waiting && NothingDropped(After(s, actions).queue)
    ensures var now := After(s, actions);
            now.published <= NextBlock(now.db.cursor) <==> AllStale(now.queue, NextBlock(now.db.cursor))
  {
    TipFacts(s, actions);
    var now := After(s, actions);
    StaleBufferIff(now.queue, NextBlock(now.db.cursor), now.published);
  }

  // ----- after the loop has ended -----

  /** Only the environment moves on from a halted loop; all the process holds is frozen. */
  lemma {:induction false} HaltedIsFrozen(s: State, actions: seq<Action>)
    requires s.phase == Halted && Runs(s, actions) && SameProcess(actions)
    ensures var now := After(s, actions);
            && s.chain <= now.chain
            && now == s.(chain := now.chain, published := now.published, queue := now.queue)
    decreases |actions|
  {
    if actions != [] {
      assert !actions[0].Boot? && !actions[0].Crash?;
      assert forall i :: 0 <= i < |actions[1..]| ==> actions[1..][i] == actions[i + 1];
      HaltedIsFrozen(Next(s, actions[0]), actions[1..]);
    }
  }

  /**
    After an error the lag stays what it was, zero included, however far the chain grows;
    the index is complete exactly if it was when the loop ended and the chain stopped too.
   */
  lemma HaltedLagNeverMoves(s: State, before: seq<Action>, later: seq<Action>)
    requires Init(s) && Runs(s, before) && After(s, before).phase == Halted
    requires Runs(After(s, before), later) && SameProcess(later)
    ensures var halted := After(s, before);
            var now := After(halted, later);
            && !now.live
            && Lag(now.nodeTip, now.indexedPlusOne) == Lag(halted.nodeTip, halted.indexedPlusOne)
            && (NextBlock(now.db.cursor) == |now.chain|
                <==> NextBlock(halted.db.cursor) == |halted.chain| == |now.chain|)
  {
    TipFacts(s, before);
    LiveAfter(s, before);
    HaltedIsFrozen(After(s, before), later);
  }
}
