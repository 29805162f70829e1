/**
  The read pool: four connections in a vector behind a four-permit semaphore, used by any
  number of concurrent callers. A caller waits for a permit, pops a connection inside the
  blocking closure, runs, pushes it back and only then drops the permit. A closure that
  panics drops its permit but never pushes its connection back.
 */
module ReadPool {
  import opened Wrappers

  const POOL_SIZE: nat := 4

  datatype Caller =
    | Waiting                 // for a permit
    | Permitted               // holds a permit, closure not started
    | Using(conn: nat)        // popped a connection, closure running
    | Returned                // pushed it back, permit not dropped yet
    | Exhausted               // found the vector empty, permit not dropped yet
    | Finished(failed: bool)

  /** `lost` collects the connections of panicked closures. */
  datatype Pool = Pool(free: seq<nat>, permits: nat, callers: map<nat, Caller>, lost: set<nat>)

  datatype Move =
    | Call(id: nat)
    | Acquire(id: nat)
    | Pop(id: nat)
    | Push(id: nat)
    | Release(id: nat)
    | Cancel(id: nat)
    | Panic(id: nat)

  const START: Pool := Pool([0, 1, 2, 3], POOL_SIZE, map[], {})

  predicate Is(p: Pool, id: nat, caller: Caller) {
    id in p.callers && p.callers[id] == caller
  }

  predicate HoldsPermit(caller: Caller) {
    caller == Permitted || caller.Using? || caller == Returned || caller == Exhausted
  }

  predicate Enabled(p: Pool, m: Move) {
    match m
    case Call(id) => id !in p.callers
    case Acquire(id) => Is(p, id, Waiting) && p.permits > 0
    case Pop(id) => Is(p, id, Permitted)
    case Push(id) => id in p.callers && p.callers[id].Using?
    case Release(id) => Is(p, id, Returned) || Is(p, id, Exhausted)
    // a caller that disconnects while waiting, or a closure dropped before it ran
    case Cancel(id) => Is(p, id, Waiting) || Is(p, id, Permitted)
    case Panic(id) => id in p.callers && p.callers[id].Using?
  }

  function Set(p: Pool, id: nat, caller: Caller): Pool {
    p.(callers := p.callers[id := caller])
  }

  function Next(p: Pool, m: Move): Pool
    requires Enabled(p, m)
  {
    match m
    case Call(id) => Set(p, id, Waiting)
    case Acquire(id) => Set(p, id, Permitted).(permits := p.permits - 1)
    case Pop(id) =>
      if p.free == [] then Set(p, id, Exhausted)
      else Set(p, id, Using(p.free[|p.free| - 1])).(free := p.free[..|p.free| - 1])
    case Push(id) => Set(p, id, Returned).(free := p.free + [p.callers[id].conn])
    case Release(id) => Set(p, id, Finished(p.callers[id] == Exhausted)).(permits := p.permits + 1)
    case Cancel(id) =>
      Set(p, id, Finished(true)).(permits := p.permits + if p.callers[id] == Permitted then 1 else 0)
    case Panic(id) =>
      Set(p, id, Finished(true)).(permits := p.permits + 1, lost := p.lost + {p.callers[id].conn})
  }

  predicate Runs(p: Pool, moves: seq<Move>)
    decreases |moves|
  {
    moves == [] || (Enabled(p, moves[0]) && Runs(Next(p, moves[0]), moves[1..]))
  }

  function After(p: Pool, moves: seq<Move>): Pool
    requires Runs(p, moves)
    decreases |moves|
  {
    if moves == [] then p else After(Next(p, moves[0]), moves[1..])
  }

  // ----- invariant -----

  function Holders(callers: map<nat, Caller>): set<nat> {
    set id | id in callers && HoldsPermit(callers[id])
  }

  /** Which connection each running closure uses. */
  function InUse(callers: map<nat, Caller>): map<nat, nat> {
    map id | id in callers && callers[id].Using? :: callers[id].conn
  }

  ghost predicate PermitsOk(callers: map<nat, Caller>, permits: nat) {
    |Holders(callers)| + permits == POOL_SIZE
  }

  /** Four connections, each with one owner: the vector, one caller, or the lost set. */
  ghost predicate ConnsOk(free: seq<nat>, inUse: map<nat, nat>, lost: set<nat>) {
    && |inUse| + |free| + |lost| == POOL_SIZE
    && (forall i, j :: 0 <= i < j < |free| ==> free[i] != free[j])
    && (forall a, b :: a in inUse && b in inUse && a != b ==> inUse[a] != inUse[b])
    && (forall a :: a in inUse ==> inUse[a] !in free && inUse[a] !in lost)
    && (forall c :: c in lost ==> c !in free)
  }

  ghost predicate Inv(p: Pool) {
    && PermitsOk(p.callers, p.permits)
    && ConnsOk(p.free, InUse(p.callers), p.lost)
    && (p.lost == {} ==> forall id :: id in p.callers ==> p.callers[id] != Exhausted)
  }

  predicate HeldBy(callers: map<nat, Caller>, id: nat) {
    id in callers && HoldsPermit(callers[id])
  }

  /** One caller's change moves the number of permit holders by that caller alone. */
  lemma HoldersAfter(callers: map<nat, Caller>, id: nat, caller: Caller)
    ensures |Holders(callers[id := caller])| + (if HeldBy(callers, id) then 1 else 0)
            == |Holders(callers)| + (if HoldsPermit(caller) then 1 else 0)
  {
    var after := callers[id := caller];
    var others := Holders(callers) - {id};
    assert Holders(after) == if HoldsPermit(caller) then others + {id} else others;
    assert Holders(callers) == if HeldBy(callers, id) then others + {id} else others;
  }

  lemma InUseUnchanged(callers: map<nat, Caller>, id: nat, caller: Caller)
    requires !caller.Using? && (id in callers ==> !callers[id].Using?)
    ensures InUse(callers[id := caller]) == InUse(callers)
  {
  }

  lemma InUseGains(callers: map<nat, Caller>, id: nat, conn: nat)
    ensures InUse(callers[id := Using(conn)]) == InUse(callers)[id := conn]
  {
  }

  lemma InUseLoses(callers: map<nat, Caller>, id: nat, caller: Caller)
    requires !caller.Using? && id in callers && callers[id].Using?
    ensures id in InUse(callers) && InUse(callers)[id] == callers[id].conn
    ensures InUse(callers[id := caller]) == InUse(callers) - {id}
    ensures |InUse(callers[id := caller])| == |InUse(callers)| - 1
  {
    assert InUse(callers[id := caller]).Keys == InUse(callers).Keys - {id};
  }

  lemma {:induction false} SubsetSize(a: set<nat>, b: set<nat>)
    requires a <= b
    ensures |a| <= |b|
    decreases a
  {
    if a != {} {
      var x :| x in a;
      SubsetSize(a - {x}, b - {x});
    }
  }

  /** A permit holder that finds the vector empty means some connection was lost. */
  lemma EmptyMeansLost(p: Pool, id: nat)
    requires Inv(p) && Is(p, id, Permitted) && p.free == []
    ensures p.lost != {}
  {
    if p.lost == {} {
      assert InUse(p.callers).Keys + {id} <= Holders(p.callers);
      SubsetSize(InUse(p.callers).Keys + {id}, Holders(p.callers));
    }
  }

  /** A change of state that touches no connection only shifts a permit. */
  lemma CallerMoves(p: Pool, id: nat, caller: Caller, permits: nat)
    requires Inv(p) && !caller.Using? && (id in p.callers ==> !p.callers[id].Using?)
    requires permits + (if HoldsPermit(caller) then 1 else 0) == p.permits + (if HeldBy(p.callers, id) then 1 else 0)
    requires caller == Exhausted ==> p.lost != {}
    ensures Inv(Set(p, id, caller).(permits := permits))
  {
    HoldersAfter(p.callers, id, caller);
    InUseUnchanged(p.callers, id, caller);
  }

  lemma PermitMoveKeeps(p: Pool, m: Move)
    requires Inv(p) && Enabled(p, m) && (m.Call? || m.Acquire? || m.Release? || m.Cancel?)
    ensures Inv(Next(p, m))
  {
    var now := Next(p, m);
    CallerMoves(p, m.id, now.callers[m.id], now.permits);
    assert now == Set(p, m.id, now.callers[m.id]).(permits := now.permits);
  }

  lemma PopKeeps(p: Pool, id: nat)
    requires Inv(p) && Enabled(p, Pop(id))
    ensures Inv(Next(p, Pop(id)))
  {
    if p.free == [] {
      EmptyMeansLost(p, id);
      CallerMoves(p, id, Exhausted, p.permits);
    } else {
      PopConnection(p, id, p.free[|p.free| - 1]);
    }
  }

  lemma PopConnection(p: Pool, id: nat, conn: nat)
    requires Inv(p) && Is(p, id, Permitted) && p.free != [] && conn == p.free[|p.free| - 1]
    ensures Inv(Set(p, id, Using(conn)).(free := p.free[..|p.free| - 1]))
  {
    HoldersAfter(p.callers, id, Using(conn));
    InUseGains(p.callers, id, conn);
    TakeLast(p.free, InUse(p.callers), p.lost, id);
  }

  lemma TakeLast(free: seq<nat>, inUse: map<nat, nat>, lost: set<nat>, id: nat)
    requires ConnsOk(free, inUse, lost) && free != [] && id !in inUse
    ensures ConnsOk(free[..|free| - 1], inUse[id := free[|free| - 1]], lost)
  {
    var fewer, conn := free[..|free| - 1], free[|free| - 1];
    assert conn in free;
    assert forall c :: c in fewer ==> c in free;
  }

  lemma PushKeeps(p: Pool, id: nat)
    requires Inv(p) && Enabled(p, Push(id))
    ensures Inv(Next(p, Push(id)))
  {
    HoldersAfter(p.callers, id, Returned);
    InUseLoses(p.callers, id, Returned);
  }

  lemma PanicKeeps(p: Pool, id: nat)
    requires Inv(p) && Enabled(p, Panic(id))
    ensures Inv(Next(p, Panic(id)))
  {
    HoldersAfter(p.callers, id, Finished(true));
    InUseLoses(p.callers, id, Finished(true));
  }

  lemma MoveKeeps(p: Pool, m: Move)
    requires Inv(p) && Enabled(p, m)
    ensures Inv(Next(p, m))
  {
    match m
    case Pop(id) => PopKeeps(p, id);
    case Push(id) => PushKeeps(p, id);
    case Panic(id) => PanicKeeps(p, id);
    case Call(_) | Acquire(_) | Release(_) | Cancel(_) => PermitMoveKeeps(p, m);
  }

  lemma {:induction false} RunKeeps(p: Pool, moves: seq<Move>)
    requires Inv(p) && Runs(p, moves)
    ensures Inv(After(p, moves))
    decreases |moves|
  {
    if moves != [] {
      MoveKeeps(p, moves[0]);
      RunKeeps(Next(p, moves[0]), moves[1..]);
    }
  }

  lemma StartInv()
    ensures Inv(START)
  {
    assert Holders(map[]) == {} && InUse(map[]) == map[];
  }

  /**
    In every run of any number of callers: no connection has two holders, and free, in-use
    and lost connections always number four.
   */
  lemma ConnectionsConserved(moves: seq<Move>)
    requires Runs(START, moves)
    ensures var p := After(START, moves);
            && |InUse(p.callers)| + |p.free| + |p.lost| == POOL_SIZE
            && (forall a, b :: a in InUse(p.callers) && b in InUse(p.callers) && a != b ==>
                  InUse(p.callers)[a] != InUse(p.callers)[b])
            && (forall a :: a in InUse(p.callers) ==> InUse(p.callers)[a] !in p.free)
  {
    StartInv();
    RunKeeps(START, moves);
  }

  predicate NoPanic(moves: seq<Move>) {
    forall i :: 0 <= i < |moves| ==> !moves[i].Panic?
  }

  lemma {:induction false} NoPanicLosesNothing(p: Pool, moves: seq<Move>)
    requires Runs(p, moves) && NoPanic(moves) && p.lost == {}
    ensures After(p, moves).lost == {}
    decreases |moves|
  {
    if moves != [] {
      assert forall i :: 0 <= i < |moves[1..]| ==> moves[1..][i] == moves[i + 1];
      NoPanicLosesNothing(Next(p, moves[0]), moves[1..]);
    }
  }

  /** While every closure returns, Ok or Err, no caller ever finds the pool exhausted. */
  lemma NeverExhaustedWithoutPanic(moves: seq<Move>, id: nat)
    requires Runs(START, moves) && NoPanic(moves)
    ensures !Is(After(START, moves), id, Exhausted)
  {
    StartInv();
    RunKeeps(START, moves);
    NoPanicLosesNothing(START, moves);
  }

  // ----- and with a panic the property is lost -----

  lemma FreshId(callers: map<nat, Caller>) returns (id: nat)
    ensures id !in callers
  {
    id := FreshAbove(callers.Keys);
  }

  lemma {:induction false} FreshAbove(ids: set<nat>) returns (bound: nat)
    ensures forall id :: id in ids ==> id < bound
    decreases ids
  {
    if ids == {} {
      bound := 0;
    } else {
      var id :| id in ids;
      var rest := FreshAbove(ids - {id});
      bound := Max(rest, id + 1);
      assert forall other :: other in ids ==> other == id || other in ids - {id};
    }
  }

  /** Open one more caller and let it pop. */
  lemma PopFresh(p: Pool) returns (id: nat, moves: seq<Move>)
    requires p.permits > 0
    ensures id !in p.callers && Runs(p, moves)
    ensures moves == [Call(id), Acquire(id), Pop(id)]
    ensures var now := After(p, moves);
            && now.permits == p.permits - 1
            && (p.free == [] ==> Is(now, id, Exhausted))
            && (p.free != [] ==> |now.free| == |p.free| - 1)
  {
    id := FreshId(p.callers);
    moves := [Call(id), Acquire(id), Pop(id)];
    var p1 := Next(p, Call(id));
    var p2 := Next(p1, Acquire(id));
    var p3 := Next(p2, Pop(id));
    assert moves[1..][1..] == [Pop(id)] && [Pop(id)][1..] == [];
    assert Runs(p3, []) && After(p3, []) == p3;
    assert Runs(p2, [Pop(id)]) && After(p2, [Pop(id)]) == p3;
    assert Runs(p1, moves[1..]) && After(p1, moves[1..]) == p3;
  }

  lemma {:induction false} RunsConcat(p: Pool, a: seq<Move>, b: seq<Move>)
    requires Runs(p, a) && Runs(After(p, a), b)
    ensures Runs(p, a + b) && After(p, a + b) == After(After(p, a), b)
    decreases |a|
  {
    if a == [] {
      assert a + b == b;
    } else {
      assert (a + b)[1..] == a[1..] + b;
      RunsConcat(Next(p, a[0]), a[1..], b);
    }
  }

  /**
    Once a connection is lost, permits outnumber connections: whenever no call is in
    progress, enough simultaneous callers make one of them fail with an exhausted pool.
   */
  lemma {:induction false} LostConnectionExhausts(p: Pool) returns (moves: seq<Move>, id: nat)
    requires p.permits > |p.free|
    ensures Runs(p, moves) && NoPanic(moves) && Is(After(p, moves), id, Exhausted)
    decreases |p.free|
  {
    var first;
    id, first := PopFresh(p);
    if p.free == [] {
      moves := first;
    } else {
      var rest;
      rest, id := LostConnectionExhausts(After(p, first));
      RunsConcat(p, first, rest);
      moves := first + rest;
    }
  }

  /** Some continuation without a panic makes a caller fail with an exhausted pool. */
  ghost predicate CanExhaust(p: Pool) {
    exists moves, id :: Exhausts(p, moves, id)
  }

  predicate Exhausts(p: Pool, moves: seq<Move>, id: nat) {
    Runs(p, moves) && NoPanic(moves) && Is(After(p, moves), id, Exhausted)
  }

  lemma {:induction false} PanicLoses(p: Pool, moves: seq<Move>)
    requires Runs(p, moves)
    ensures After(p, moves).lost != {} <==> p.lost != {} || !NoPanic(moves)
    decreases |moves|
  {
    if moves != [] {
      PanicLoses(Next(p, moves[0]), moves[1..]);
      assert moves == [moves[0]] + moves[1..];
      assert NoPanic(moves) <==> !moves[0].Panic? && NoPanic(moves[1..]);
    }
  }

  /**
    Exactly when it can go wrong: with no call in progress, later calls can find the pool
    exhausted if and only if some earlier closure panicked.
   */
  lemma ExhaustionIffPanicked(moves: seq<Move>)
    requires Runs(START, moves) && Holders(After(START, moves).callers) == {}
    ensures CanExhaust(After(START, moves)) <==> !NoPanic(moves)
  {
    var p := After(START, moves);
    StartInv();
    RunKeeps(START, moves);
    PanicLoses(START, moves);
    assert InUse(p.callers).Keys <= Holders(p.callers);
    if p.lost != {} {
      assert InUse(p.callers) == map[];
      var more, id := LostConnectionExhausts(p);
      assert Exhausts(p, more, id);
    } else if CanExhaust(p) {
      var more, id :| Exhausts(p, more, id);
      RunKeeps(p, more);
      NoPanicLosesNothing(p, more);
      assert false;
    }
  }
}
