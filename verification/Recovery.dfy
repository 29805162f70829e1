/**
  No reachable state is stuck: whatever happened, a crash followed by a restart whose
  reads succeed indexes the whole chain. The lemmas build that run step by step.
 */
module Recovery {
  import opened Wrappers
  import opened Schema
  import opened Index
  import opened Protocol

  lemma {:induction false} RunsConcat(s: State, a: seq<Action>, b: seq<Action>)
    requires Runs(s, a) && Runs(After(s, a), b)
    ensures Runs(s, a + b) && After(s, a + b) == After(After(s, a), b)
    decreases |a|
  {
    if a == [] {
      assert a + b == b;
    } else {
      assert (a + b)[1..] == a[1..] + b;
      RunsConcat(Next(s, a[0]), a[1..], b);
    }
  }

  lemma Extend(s: State, actions: seq<Action>, a: Action) returns (longer: seq<Action>)
    requires Runs(s, actions) && Enabled(After(s, actions), a)
    ensures longer == actions + [a]
    ensures Runs(s, longer) && After(s, longer) == Next(After(s, actions), a)
  {
    longer := actions + [a];
    var now := After(s, actions);
    var then' := Next(now, a);
    assert [a][1..] == [];
    assert Runs(then', []) && After(then', []) == then';
    assert Runs(now, [a]) && After(now, [a]) == then';
    RunsConcat(s, actions, [a]);
  }

  /** Fetch the rest of the list; the outcome of each fetch is whatever the node answers. */
  lemma {:induction false} FetchRest(s: State) returns (actions: seq<Action>)
    requires AtStage(s) && s.phase.stage.Fetching? && |s.phase.stage.fetched| <= |s.phase.stage.need|
    ensures Runs(s, actions) && Enabled(After(s, actions), BeginTransaction)
    ensures After(s, actions) == s.(phase := After(s, actions).phase)
    ensures var phase := After(s, actions).phase;
            && phase.Working? && phase == s.phase.(stage := phase.stage)
    decreases |s.phase.stage.need| - |s.phase.stage.fetched|
  {
    if |s.phase.stage.fetched| == |s.phase.stage.need| {
      actions := [];
    } else {
      var a := FetchToken(Metadata(None, None, None), 0);
      var rest := FetchRest(Next(s, a));
      actions := [a] + rest;
      assert actions[1..] == rest;
    }
  }

  /** Select the tokens and fetch them all. */
  lemma FetchBlock(s: State) returns (actions: seq<Action>)
    requires AtStage(s) && s.phase.stage == Ready
    ensures Runs(s, actions) && Enabled(After(s, actions), BeginTransaction)
    ensures After(s, actions).chain == s.chain
    ensures var phase := After(s, actions).phase;
            phase.Working? && phase == s.phase.(stage := phase.stage)
  {
    var first := Extend(s, [], SelectTokens);
    var rest := FetchRest(After(s, first));
    RunsConcat(s, first, rest);
    actions := first + rest;
  }

  /** Write the block. */
  lemma CommitBlock(s: State) returns (actions: seq<Action>)
    requires Enabled(s, BeginTransaction)
    ensures Runs(s, actions) && After(s, actions).chain == s.chain
    ensures exists indexed :: After(s, actions).phase == s.phase.(stage := Closed(indexed))
  {
    var begun := Extend(s, [], BeginTransaction);
    var now := After(s, begun);
    assert now.phase == s.phase.(stage := now.phase.stage) && now.phase.stage.InTransaction?;
    actions := Extend(s, begun, CloseTransaction);
    assert After(s, actions).phase == s.phase.(stage := After(s, actions).phase.stage);
  }

  /** Report it. */
  lemma ReportClosed(s: State) returns (actions: seq<Action>)
    requires Enabled(s, ReportBlock)
    ensures Runs(s, actions) && After(s, actions).chain == s.chain
    ensures After(s, actions).phase == s.phase.(next := s.phase.next + 1, stage := Ready)
  {
    var reported := Extend(s, [], ReportBlock);
    actions := Extend(s, reported, ObserveBlock);
  }

  /** Write the block and report it. */
  lemma WriteBlock(s: State) returns (actions: seq<Action>)
    requires Enabled(s, BeginTransaction)
    ensures Runs(s, actions) && After(s, actions).chain == s.chain
    ensures After(s, actions).phase == s.phase.(next := s.phase.next + 1, stage := Ready)
  {
    var first := CommitBlock(s);
    var rest := ReportClosed(After(s, first));
    RunsConcat(s, first, rest);
    actions := first + rest;
  }

  /** One block of a catch-up, start to finish. */
  lemma FinishBlock(s: State) returns (actions: seq<Action>)
    requires Inv(s) && AtStage(s) && s.phase.stage == Ready
    ensures Runs(s, actions)
    ensures var now := After(s, actions);
            Inv(now) && now.chain == s.chain && now.phase == s.phase.(next := s.phase.next + 1)
  {
    var first := FetchBlock(s);
    var rest := WriteBlock(After(s, first));
    RunsConcat(s, first, rest);
    actions := first + rest;
    RunKeeps(s, actions);
  }

  lemma {:induction false} FinishReplay(s: State) returns (actions: seq<Action>)
    requires Inv(s) && s.phase.Working? && s.phase.stage == Ready
    ensures Runs(s, actions)
    ensures var now := After(s, actions);
            && Inv(now) && now.chain == s.chain && now.phase == Waiting
            && s.phase.end <= NextBlock(now.db.cursor)
    decreases s.phase.end - s.phase.next
  {
    if s.phase.next == s.phase.end {
      actions := Extend(s, [], FinishChain);
    } else {
      var first := FinishBlock(s);
      var rest := FinishReplay(After(s, first));
      RunsConcat(s, first, rest);
      actions := first + rest;
    }
    RunKeeps(s, actions);
  }

  /** Start a process over the index as it is, up to the opened replay. */
  lemma StartReplay(s: State) returns (actions: seq<Action>)
    requires s.phase == Down
    ensures Runs(s, actions)
    ensures var now := After(s, actions);
            && now.chain == s.chain
            && now.phase == Working(Replay(Max(|s.chain| - 1, 0)), NextBlock(s.db.cursor), |s.chain|, Ready)
  {
    var booted := Extend(s, [], Boot(true, |s.chain|));
    var cursorRead := Extend(s, booted, ReadCursor);
    var tipRead := Extend(s, cursorRead, ReadTip);
    actions := Extend(s, tipRead, OpenReplay);
  }

  lemma RestartFromDown(s: State) returns (actions: seq<Action>)
    requires Inv(s) && s.phase == Down
    ensures Runs(s, actions)
    ensures var now := After(s, actions);
            Inv(now) && now.phase == Waiting && now.chain == s.chain && NextBlock(now.db.cursor) == |s.chain|
  {
    var start := StartReplay(s);
    RunKeeps(s, start);
    var replay := FinishReplay(After(s, start));
    RunsConcat(s, start, replay);
    actions := start + replay;
  }

  /** From any reachable state, crash and restart: the loop ends up waiting with every block indexed. */
  lemma RestartCatchesUp(s: State) returns (actions: seq<Action>)
    requires Inv(s)
    ensures Runs(s, actions)
    ensures var now := After(s, actions);
            && now.phase == Waiting && now.chain == s.chain
            && NextBlock(now.db.cursor) == |s.chain| && Agrees(now.db, s.chain)
  {
    if s.phase == Down {
      actions := RestartFromDown(s);
    } else {
      StepKeeps(s, Crash);
      var rest := RestartFromDown(Next(s, Crash));
      actions := [Crash] + rest;
      assert actions[1..] == rest;
    }
  }
}
