/** `Server.Serve`, its connection goroutines, `Shutdown` and `Close` as interleaved steps. */
module ServerLifecycle {
  import opened Text

  const MAX_CONNECTIONS := 64

  type Conn = nat
  type Caller = nat

  /** Where the accept loop is. `Spawning` has registered the connection but not yet started its
      goroutine. */
  datatype Loop =
    | NotServing
    | Accepting
    | Accepted(conn: Conn)
    | Slotted(conn: Conn)
    | Spawning(conn: Conn)
    | Stopped

  /** Where the goroutine of a connection is: inside `serveConn` before and after the request was
      read, and then in its deferred cleanup. */
  datatype Phase = Reading | Running | Returned | SlotFreed | Removed | Done {
    predicate InServeConn() {
      Reading? || Running?
    }

    predicate HoldsSlot() {
      Reading? || Running? || Returned?
    }

    predicate Registered() {
      HoldsSlot() || SlotFreed?
    }
  }

  /** Where a call of `Shutdown` or `Close` is. It holds the mutex while it goes through the
      connections; `Closing` has seen a connection as not started. */
  datatype Stop =
    | Scanning(all: bool, left: set<Conn>)
    | Closing(all: bool, conn: Conn, left: set<Conn>)
    | Waiting(all: bool)
    | Drained(all: bool)
    | ReturnedNil(all: bool)
    | Expired

  datatype State = State(
    closed: bool,
    mutex: Option<Caller>,
    loop: Loop,
    slots: nat,
    wg: nat,
    conns: set<Conn>,
    started: set<Conn>,
    phases: map<Conn, Phase>,
    stops: map<Caller, Stop>,
    next: Conn,
    spared: set<(Caller, Conn)>,   // seen as started by a Shutdown
    shut: set<(Caller, Conn)>)     // closed by a Shutdown or Close

  const INITIAL := State(false, None, NotServing, 0, 0, {}, {}, map[], map[], 0, {}, {})

  datatype Step =
    | Serve
    | AcceptConn
    | AcceptError(timeout: bool)
    | TakeSlot
    | Register
    | Spawn
    | ReadRequest(conn: Conn, ok: bool)
    | Finish(conn: Conn)
    | FreeSlot(conn: Conn)
    | Unregister(conn: Conn)
    | FinishGoroutine(conn: Conn)
    | BeginStop(caller: Caller, all: bool)
    | Inspect(caller: Caller, conn: Conn)
    | CloseConn(caller: Caller)
    | Unlock(caller: Caller)
    | Drain(caller: Caller)
    | Return(caller: Caller)
    | Expire(caller: Caller)

  predicate At(s: State, c: Conn, p: Phase) {
    c in s.phases && s.phases[c] == p
  }

  function Move(s: State, c: Conn, p: Phase): State {
    s.(phases := s.phases[c := p])
  }

  function SetStop(s: State, k: Caller, t: Stop): State {
    s.(stops := s.stops[k := t])
  }

  /** The state after one step, if the step can be taken. */
  function Next(s: State, step: Step): Option<State> {
    match step
    case Serve =>
      if !s.loop.NotServing? || s.mutex.Some? then None
      else Some(s.(loop := if s.closed then Stopped else Accepting))
    case AcceptConn =>
      if !s.loop.Accepting? then None
      else Some(s.(loop := Accepted(s.next), next := s.next + 1))
    case AcceptError(timeout) =>
      if !s.loop.Accepting? || s.mutex.Some? then None
      else Some(s.(loop := if !s.closed && timeout then Accepting else Stopped))
    case TakeSlot =>
      if !s.loop.Accepted? then None
      else if s.slots < MAX_CONNECTIONS then Some(s.(loop := Slotted(s.loop.conn), slots := s.slots + 1))
      else Some(s.(loop := Accepting))
    case Register =>
      if !s.loop.Slotted? || s.mutex.Some? then None
      else if s.closed then
        (if s.slots == 0 then None else Some(s.(loop := Stopped, slots := s.slots - 1)))
      else Some(s.(loop := Spawning(s.loop.conn), conns := s.conns + {s.loop.conn}, wg := s.wg + 1))
    case Spawn =>
      if !s.loop.Spawning? then None
      else Some(Move(s, s.loop.conn, Reading).(loop := Accepting))
    case ReadRequest(c, ok) =>
      if !At(s, c, Reading) then None
      else if ok then Some(Move(s, c, Running).(started := s.started + {c}))
      else Some(Move(s, c, Returned))
    case Finish(c) =>
      if !At(s, c, Running) then None else Some(Move(s, c, Returned))
    case FreeSlot(c) =>
      if !At(s, c, Returned) || s.slots == 0 then None
      else Some(Move(s, c, SlotFreed).(slots := s.slots - 1))
    case Unregister(c) =>
      if !At(s, c, SlotFreed) || s.mutex.Some? then None
      else Some(Move(s, c, Removed).(conns := s.conns - {c}))
    case FinishGoroutine(c) =>
      if !At(s, c, Removed) || s.wg == 0 then None
      else Some(Move(s, c, Done).(wg := s.wg - 1))
    case BeginStop(k, all) =>
      if k in s.stops || s.mutex.Some? then None
      else Some(SetStop(s, k, Scanning(all, s.conns)).(closed := true, mutex := Some(k)))
    case Inspect(k, c) =>
      if k !in s.stops || !s.stops[k].Scanning? || c !in s.stops[k].left then None
      else
        var Scanning(all, left) := s.stops[k];
        if !all && c in s.started then
          Some(SetStop(s, k, Scanning(all, left - {c})).(spared := s.spared + {(k, c)}))
        else Some(SetStop(s, k, Closing(all, c, left - {c})))
    case CloseConn(k) =>
      if k !in s.stops || !s.stops[k].Closing? then None
      else
        var Closing(all, c, left) := s.stops[k];
        Some(SetStop(s, k, Scanning(all, left)).(shut := s.shut + {(k, c)}))
    case Unlock(k) =>
      if k !in s.stops || !s.stops[k].Scanning? || s.stops[k].left != {} then None
      else Some(SetStop(s, k, Waiting(s.stops[k].all)).(mutex := None))
    case Drain(k) =>
      if k !in s.stops || !s.stops[k].Waiting? || s.wg != 0 then None
      else Some(SetStop(s, k, Drained(s.stops[k].all)))
    case Return(k) =>
      if k !in s.stops || !s.stops[k].Drained? then None
      else Some(SetStop(s, k, ReturnedNil(s.stops[k].all)))
    case Expire(k) =>
      if k !in s.stops || !(s.stops[k].Waiting? || s.stops[k].Drained?) || s.stops[k].all then None
      else Some(SetStop(s, k, Expired))
  }

  // ----- the invariant -----

  function Holders(phases: map<Conn, Phase>): set<Conn> {
    set c | c in phases && phases[c].HoldsSlot()
  }

  function Alive(phases: map<Conn, Phase>): set<Conn> {
    set c | c in phases && phases[c] != Done
  }

  function Inside(phases: map<Conn, Phase>): set<Conn> {
    set c | c in phases && phases[c].InServeConn()
  }

  function RegisteredConns(phases: map<Conn, Phase>): set<Conn> {
    set c | c in phases && phases[c].Registered()
  }

  function Pending(loop: Loop): set<Conn> {
    if loop.Spawning? then {loop.conn} else {}
  }

  ghost predicate LoopOk(s: State) {
    && (s.loop.Accepted? || s.loop.Slotted? || s.loop.Spawning? ==>
          s.loop.conn < s.next && s.loop.conn !in s.phases)
    && (forall c :: c in s.phases ==> c < s.next)
  }

  /** Slots, wait group and connection map count exactly the goroutines that hold them. */
  ghost predicate CountsOk(s: State) {
    && s.slots == |Holders(s.phases)| + (if s.loop.Slotted? || s.loop.Spawning? then 1 else 0)
    && s.slots <= MAX_CONNECTIONS
    && s.wg == |Alive(s.phases)| + |Pending(s.loop)|
    && s.conns == RegisteredConns(s.phases) + Pending(s.loop)
  }

  predicate HoldsMutex(t: Stop) {
    t.Scanning? || t.Closing?
  }

  ghost predicate StopsOk(s: State) {
    && (s.stops != map[] ==> s.closed)
    && (forall k :: k in s.stops && HoldsMutex(s.stops[k]) ==> s.mutex == Some(k))
    && (forall k :: k in s.stops && (s.stops[k].Drained? || s.stops[k].ReturnedNil?) ==> s.wg == 0)
  }

  /** A connection that a Shutdown spared is not among those it closed or may still close. */
  ghost predicate SparedOk(s: State) {
    && (forall k, c :: (k, c) in s.spared || (k, c) in s.shut ==> k in s.stops)
    && (forall k, c :: (k, c) in s.spared ==> (k, c) !in s.shut)
    && (forall k, c :: (k, c) in s.spared || (k, c) in s.shut ==>
          (s.stops[k].Scanning? || s.stops[k].Closing? ==> c !in s.stops[k].left))
    && (forall k, c :: (k, c) in s.spared && k in s.stops && s.stops[k].Closing? ==> c != s.stops[k].conn)
    && (forall k :: k in s.stops && s.stops[k].Closing? ==> s.stops[k].conn !in s.stops[k].left)
  }

  /** Every registered connection was spared as started, was closed, or is still to be looked at; only
      a Shutdown spares. */
  ghost predicate CoverOk(s: State) {
    && (forall k, c :: k in s.stops && c in s.conns ==>
          (k, c) in s.spared || (k, c) in s.shut || c in ToLookAt(s.stops[k]))
    && (forall k, c :: (k, c) in s.spared ==> c in s.started && k in s.stops && !ForAll(s.stops[k]))
  }

  function ToLookAt(t: Stop): set<Conn> {
    match t
    case Scanning(_, left) => left
    case Closing(_, c, left) => left + {c}
    case _ => {}
  }

  predicate ForAll(t: Stop) {
    !t.Expired? && t.all
  }

  ghost predicate Inv(s: State) {
    LoopOk(s) && CountsOk(s) && StopsOk(s) && SparedOk(s) && CoverOk(s)
  }

  // ----- how the counts change when one goroutine moves on -----

  lemma SetChange<T>(before: set<T>, after: set<T>, x: T, add: bool)
    requires after == before - {x} + (if add then {x} else {})
    ensures |after| == |before| - (if x in before then 1 else 0) + (if add then 1 else 0)
  {
  }

  lemma MoveHolders(phases: map<Conn, Phase>, c: Conn, p: Phase)
    ensures |Holders(phases[c := p])|
         == |Holders(phases)| - (if c in phases && phases[c].HoldsSlot() then 1 else 0) + (if p.HoldsSlot() then 1 else 0)
  {
    SetChange(Holders(phases), Holders(phases[c := p]), c, p.HoldsSlot());
  }

  lemma MoveAlive(phases: map<Conn, Phase>, c: Conn, p: Phase)
    ensures |Alive(phases[c := p])|
         == |Alive(phases)| - (if c in phases && phases[c] != Done then 1 else 0) + (if p != Done then 1 else 0)
  {
    SetChange(Alive(phases), Alive(phases[c := p]), c, p != Done);
  }

  lemma MoveRegistered(phases: map<Conn, Phase>, c: Conn, p: Phase)
    ensures RegisteredConns(phases[c := p]) == RegisteredConns(phases) - {c} + (if p.Registered() then {c} else {})
  {
  }

  /** The goroutine of `c` goes from its phase to `p`, giving back what it no longer holds. */
  ghost predicate Moves(s: State, c: Conn, p: Phase, s': State) {
    && c in s.phases && s'.phases == s.phases[c := p] && s'.loop == s.loop && s'.next == s.next
    && var was := s.phases[c];
       && (p.HoldsSlot() ==> was.HoldsSlot()) && was != Done
       && s'.slots == s.slots - (if was.HoldsSlot() && !p.HoldsSlot() then 1 else 0)
       && s'.wg == s.wg - (if p == Done then 1 else 0)
       && (p.Registered() ==> was.Registered())
       && s'.conns == if was.Registered() && !p.Registered() then s.conns - {c} else s.conns
  }

  lemma ConnsMove(registered: set<Conn>, pending: set<Conn>, c: Conn)
    requires c !in pending
    ensures registered + pending - {c} == registered - {c} + pending
    ensures c in registered ==> registered - {c} + {c} == registered
    ensures c !in registered ==> registered - {c} == registered
  {
  }

  lemma MovesKeepsConns(s: State, c: Conn, p: Phase, s': State)
    requires LoopOk(s) && s.conns == RegisteredConns(s.phases) + Pending(s.loop) && Moves(s, c, p, s')
    ensures LoopOk(s') && s'.conns == RegisteredConns(s'.phases) + Pending(s'.loop)
  {
    hide RegisteredConns;
    MoveRegistered(s.phases, c, p);
    GoroutineIsRegistered(s, c);
    assert c !in Pending(s.loop);
    ConnsMove(RegisteredConns(s.phases), Pending(s.loop), c);
  }

  lemma MovesKeepsCounts(s: State, c: Conn, p: Phase, s': State)
    requires LoopOk(s) && CountsOk(s) && Moves(s, c, p, s')
    ensures LoopOk(s') && CountsOk(s')
  {
    hide Holders, Alive, RegisteredConns, Pending, LoopOk;
    MoveHolders(s.phases, c, p);
    MoveAlive(s.phases, c, p);
    MovesKeepsConns(s, c, p, s');
  }

  lemma GoroutineKeepsCounts(s: State, step: Step, s': State)
    requires LoopOk(s) && CountsOk(s) && Next(s, step) == Some(s')
    requires step.ReadRequest? || step.Finish? || step.FreeSlot? || step.Unregister? || step.FinishGoroutine?
    ensures LoopOk(s') && CountsOk(s')
  {
    assert Moves(s, step.conn, s'.phases[step.conn], s') by {
      hide LoopOk, CountsOk;
    }
    hide Next, Moves, LoopOk, CountsOk;
    MovesKeepsCounts(s, step.conn, s'.phases[step.conn], s');
  }

  lemma GoroutineIsRegistered(s: State, c: Conn)
    ensures c in s.phases ==> (c in RegisteredConns(s.phases) <==> s.phases[c].Registered())
  {
  }

  lemma SpawnKeepsCounts(s: State, s': State)
    requires LoopOk(s) && CountsOk(s) && Next(s, Spawn) == Some(s')
    ensures LoopOk(s') && CountsOk(s')
  {
    hide Holders, Alive, RegisteredConns;
    MoveHolders(s.phases, s.loop.conn, Reading);
    MoveAlive(s.phases, s.loop.conn, Reading);
    MoveRegistered(s.phases, s.loop.conn, Reading);
    GoroutineIsNew(s, s.loop.conn);
  }

  lemma GoroutineIsNew(s: State, c: Conn)
    requires c !in s.phases
    ensures c !in RegisteredConns(s.phases)
  {
  }

  lemma AcceptKeepsCounts(s: State, step: Step, s': State)
    requires LoopOk(s) && CountsOk(s) && Next(s, step) == Some(s')
    requires step.Serve? || step.AcceptConn? || step.AcceptError?
    ensures LoopOk(s') && CountsOk(s')
  {
    hide Holders, Alive, RegisteredConns;
    assert s'.phases == s.phases && s'.slots == s.slots && s'.wg == s.wg && s'.conns == s.conns;
  }

  lemma SlotKeepsCounts(s: State, s': State)
    requires LoopOk(s) && CountsOk(s) && Next(s, TakeSlot) == Some(s')
    ensures LoopOk(s') && CountsOk(s')
  {
    hide Holders, Alive, RegisteredConns;
  }

  lemma RegisterKeepsCounts(s: State, s': State)
    requires LoopOk(s) && CountsOk(s) && Next(s, Register) == Some(s')
    ensures LoopOk(s') && CountsOk(s')
  {
    hide Holders, Alive, RegisteredConns;
  }

  predicate IsStopStep(step: Step) {
    step.BeginStop? || step.Inspect? || step.CloseConn? || step.Unlock? || step.Drain? || step.Return? || step.Expire?
  }

  /** The steps of the loop and the goroutines touch no call of `Shutdown` or `Close`, and add to the
      wait group only while the server is open. */
  lemma OtherStepsFrame(s: State, step: Step, s': State)
    requires Next(s, step) == Some(s') && !IsStopStep(step)
    ensures s'.stops == s.stops && s'.spared == s.spared && s'.shut == s.shut
    ensures s'.closed == s.closed && s'.mutex == s.mutex
    ensures s'.wg <= s.wg || !s.closed
  {
  }

  lemma OtherStepsKeepStops(s: State, step: Step, s': State)
    requires StopsOk(s) && Next(s, step) == Some(s') && !IsStopStep(step)
    ensures StopsOk(s') && s'.stops == s.stops && s'.spared == s.spared && s'.shut == s.shut
  {
    hide Next;
    OtherStepsFrame(s, step, s');
  }

  /** A call of `Shutdown` or `Close` moves neither the loop nor a goroutine. */
  lemma StopFrame(s: State, step: Step, s': State)
    requires Next(s, step) == Some(s') && IsStopStep(step)
    ensures s'.loop == s.loop && s'.next == s.next && s'.phases == s.phases
    ensures s'.slots == s.slots && s'.wg == s.wg && s'.conns == s.conns && s'.started == s.started
  {
  }

  lemma StopKeepsCounts(s: State, step: Step, s': State)
    requires LoopOk(s) && CountsOk(s) && Next(s, step) == Some(s') && IsStopStep(step)
    ensures LoopOk(s') && CountsOk(s')
  {
    hide Next;
    StopFrame(s, step, s');
  }

  lemma BeginKeepsStops(s: State, k: Caller, all: bool, s': State)
    requires StopsOk(s) && SparedOk(s) && CoverOk(s) && Next(s, BeginStop(k, all)) == Some(s')
    ensures StopsOk(s') && SparedOk(s') && CoverOk(s')
  {
  }

  lemma InspectKeepsStops(s: State, k: Caller, c: Conn, s': State)
    requires StopsOk(s) && SparedOk(s) && CoverOk(s) && Next(s, Inspect(k, c)) == Some(s')
    ensures StopsOk(s') && SparedOk(s') && CoverOk(s')
  {
  }

  lemma CloseKeepsStops(s: State, k: Caller, s': State)
    requires StopsOk(s) && SparedOk(s) && CoverOk(s) && Next(s, CloseConn(k)) == Some(s')
    ensures StopsOk(s') && SparedOk(s') && CoverOk(s')
  {
  }

  lemma UnlockKeepsStops(s: State, k: Caller, s': State)
    requires StopsOk(s) && SparedOk(s) && CoverOk(s) && Next(s, Unlock(k)) == Some(s')
    ensures StopsOk(s') && SparedOk(s') && CoverOk(s')
  {
  }

  lemma WaitKeepsStops(s: State, step: Step, s': State)
    requires StopsOk(s) && SparedOk(s) && CoverOk(s) && Next(s, step) == Some(s')
    requires step.Drain? || step.Return? || step.Expire?
    ensures StopsOk(s') && SparedOk(s') && CoverOk(s')
  {
  }

  lemma StopKeepsStops(s: State, step: Step, s': State)
    requires StopsOk(s) && SparedOk(s) && CoverOk(s) && Next(s, step) == Some(s') && IsStopStep(step)
    ensures StopsOk(s') && SparedOk(s') && CoverOk(s')
  {
    hide StopsOk, SparedOk, CoverOk, Next;
    match step
    case BeginStop(k, all) => BeginKeepsStops(s, k, all, s');
    case Inspect(k, c) => InspectKeepsStops(s, k, c, s');
    case CloseConn(k) => CloseKeepsStops(s, k, s');
    case Unlock(k) => UnlockKeepsStops(s, k, s');
    case _ => WaitKeepsStops(s, step, s');
  }

  lemma OtherStepsKeepCover(s: State, step: Step, s': State)
    requires CoverOk(s) && StopsOk(s) && Next(s, step) == Some(s') && !IsStopStep(step)
    ensures CoverOk(s')
  {
  }

  lemma SparedUnchanged(s: State, s': State)
    requires SparedOk(s) && s'.stops == s.stops && s'.spared == s.spared && s'.shut == s.shut
    ensures SparedOk(s')
  {
  }

  lemma StepKeepsInv(s: State, step: Step, s': State)
    requires Inv(s) && Next(s, step) == Some(s')
    ensures Inv(s')
  {
    hide LoopOk, CountsOk, StopsOk, SparedOk, CoverOk, Next;
    if IsStopStep(step) {
      StopKeepsCounts(s, step, s');
      StopKeepsStops(s, step, s');
    } else {
      OtherStepsKeepStops(s, step, s');
      OtherStepsKeepCover(s, step, s');
      SparedUnchanged(s, s');
      match step
      case Spawn => SpawnKeepsCounts(s, s');
      case TakeSlot => SlotKeepsCounts(s, s');
      case Register => RegisterKeepsCounts(s, s');
      case _ =>
        if step.Serve? || step.AcceptConn? || step.AcceptError? {
          AcceptKeepsCounts(s, step, s');
        } else {
          GoroutineKeepsCounts(s, step, s');
        }
    }
  }

  // ----- runs -----

  /** The state after a sequence of steps, if all of them can be taken. */
  function Run(s: State, steps: seq<Step>): Option<State> {
    if steps == [] then Some(s)
    else
      match Run(s, steps[..|steps| - 1])
      case None => None
      case Some(t) => Next(t, steps[|steps| - 1])
  }

  lemma {:induction false} RunKeepsInv(s: State, steps: seq<Step>, s': State)
    requires Inv(s) && Run(s, steps) == Some(s')
    ensures Inv(s')
  {
    hide Inv, Next;
    if steps != [] {
      var t := Run(s, steps[..|steps| - 1]).value;
      RunKeepsInv(s, steps[..|steps| - 1], t);
      StepKeepsInv(t, steps[|steps| - 1], s');
    }
  }

  lemma InitialInv()
    ensures Inv(INITIAL)
  {
    assert Holders(map[]) == {} && Alive(map[]) == {} && RegisteredConns(map[]) == {};
  }

  // ----- what every interleaving keeps -----

  /** At most 64 connections are inside `serveConn`. */
  lemma AtMostSixtyFour(steps: seq<Step>, s: State)
    requires Run(INITIAL, steps) == Some(s)
    ensures |Inside(s.phases)| <= MAX_CONNECTIONS
  {
    InitialInv();
    RunKeepsInv(INITIAL, steps, s);
    SubsetSize(Inside(s.phases), Holders(s.phases));
  }

  lemma SubsetSize<T>(a: set<T>, b: set<T>)
    requires a <= b
    ensures |a| <= |b|
  {
    assert b == a + (b - a);
  }

  /** The connection map exceeds the slots by exactly the goroutines that gave their slot back and did
      not unregister yet. */
  lemma ConnsBeyondSlots(steps: seq<Step>, s: State)
    requires Run(INITIAL, steps) == Some(s)
    ensures |s.conns| + (if s.loop.Slotted? then 1 else 0)
         == s.slots + |Freed(s.phases)|
  {
    InitialInv();
    RunKeepsInv(INITIAL, steps, s);
    hide Holders, Alive, RegisteredConns, Freed;
    RegisteredSplit(s.phases);
    PendingIsNew(s);
  }

  function Freed(phases: map<Conn, Phase>): set<Conn> {
    set c | c in phases && phases[c] == SlotFreed
  }

  lemma RegisteredSplit(phases: map<Conn, Phase>)
    ensures |RegisteredConns(phases)| == |Holders(phases)| + |Freed(phases)|
  {
    assert RegisteredConns(phases) == Holders(phases) + Freed(phases);
    assert Holders(phases) !! Freed(phases);
  }

  lemma PendingIsNew(s: State)
    requires LoopOk(s) && CountsOk(s)
    ensures |s.conns| == |RegisteredConns(s.phases)| + |Pending(s.loop)|
  {
    hide Holders, Alive;
    assert RegisteredConns(s.phases) !! Pending(s.loop);
  }

  /** The connections 0 to n - 1. */
  function First(n: nat): (s: set<Conn>)
    ensures |s| == n
    ensures forall c: Conn :: c in s <==> c < n
  {
    if n == 0 then {} else First(n - 1) + {n - 1}
  }

  function AllFreed(n: nat): (m: map<Conn, Phase>)
    ensures m.Keys == First(n)
    ensures forall c :: c in m ==> m[c] == SlotFreed
  {
    if n == 0 then map[] else AllFreed(n - 1)[n - 1 := SlotFreed]
  }

  /** The accept loop after `n` connections whose goroutines gave their slots back and did no more. */
  function Lingering(n: nat): State {
    State(false, None, Accepting, 0, n, First(n), {}, AllFreed(n), map[], n, {}, {})
  }

  /** The connection map is not bounded by the number of slots, nor by anything else: a goroutine gives
      its slot back before it unregisters, and any number may linger in between. */
  lemma {:induction false} ConnsMayExceedSlots(n: nat) returns (steps: seq<Step>, s: State)
    ensures Run(INITIAL, steps) == Some(s) && |s.conns| == n && s.slots == 0
    ensures s == Lingering(n)
  {
    if n == 0 {
      s := Lingering(0);
      steps := ThenStep([], INITIAL, Serve, s);
    } else {
      steps, s := ConnsMayExceedSlots(n - 1);
      steps := OneMore(n - 1, steps);
      s := Lingering(n);
    }
  }

  lemma OneMore(n: nat, before: seq<Step>) returns (steps: seq<Step>)
    requires Run(INITIAL, before) == Some(Lingering(n))
    ensures Run(INITIAL, steps) == Some(Lingering(n + 1))
  {
    hide First, AllFreed, Run, Next;
    var s0 := Lingering(n);
    var s1 := s0.(loop := Accepted(n), next := n + 1);
    var s2 := s1.(loop := Slotted(n), slots := 1);
    var s3 := s2.(loop := Spawning(n), conns := First(n) + {n}, wg := n + 1);
    var s4 := Move(s3, n, Reading).(loop := Accepting);
    var s5 := Move(s4, n, Returned);
    var s6 := Move(s5, n, SlotFreed).(slots := 0);
    NextAccept(s0);
    NextSlot(s1);
    NextRegister(s2);
    NextSpawn(s3);
    NextNoRequest(s4, n);
    NextFree(s5, n);
    LingeringGrows(n, s6);
    steps := ThenStep(before, s0, AcceptConn, s1);
    steps := ThenStep(steps, s1, TakeSlot, s2);
    steps := ThenStep(steps, s2, Register, s3);
    steps := ThenStep(steps, s3, Spawn, s4);
    steps := ThenStep(steps, s4, ReadRequest(n, false), s5);
    steps := ThenStep(steps, s5, FreeSlot(n), s6);
  }

  lemma NextAccept(s: State)
    requires s.loop.Accepting?
    ensures Next(s, AcceptConn) == Some(s.(loop := Accepted(s.next), next := s.next + 1))
  {
  }

  lemma NextSlot(s: State)
    requires s.loop.Accepted? && s.slots < MAX_CONNECTIONS
    ensures Next(s, TakeSlot) == Some(s.(loop := Slotted(s.loop.conn), slots := s.slots + 1))
  {
  }

  lemma NextRegister(s: State)
    requires s.loop.Slotted? && s.mutex.None? && !s.closed
    ensures Next(s, Register) == Some(s.(loop := Spawning(s.loop.conn), conns := s.conns + {s.loop.conn}, wg := s.wg + 1))
  {
  }

  lemma NextSpawn(s: State)
    requires s.loop.Spawning?
    ensures Next(s, Spawn) == Some(Move(s, s.loop.conn, Reading).(loop := Accepting))
  {
  }

  lemma NextNoRequest(s: State, c: Conn)
    requires At(s, c, Reading)
    ensures Next(s, ReadRequest(c, false)) == Some(Move(s, c, Returned))
  {
  }

  lemma NextFree(s: State, c: Conn)
    requires At(s, c, Returned) && s.slots > 0
    ensures Next(s, FreeSlot(c)) == Some(Move(s, c, SlotFreed).(slots := s.slots - 1))
  {
  }

  lemma LingeringGrows(n: nat, s: State)
    requires s == Lingering(n).(slots := 0, next := n + 1, conns := First(n) + {n}, wg := n + 1,
                                phases := AllFreed(n)[n := Reading][n := Returned][n := SlotFreed])
    ensures s == Lingering(n + 1)
  {
    assert s.phases == AllFreed(n)[n := SlotFreed];
  }

  lemma ThenStep(before: seq<Step>, s: State, step: Step, s': State) returns (steps: seq<Step>)
    requires Run(INITIAL, before) == Some(s) && Next(s, step) == Some(s')
    ensures Run(INITIAL, steps) == Some(s')
  {
    hide Next;
    steps := before + [step];
    assert steps[..|steps| - 1] == before;
  }

  /** Once `closed` is set no connection is registered, and no goroutine starts but the one whose
      connection was registered before. */
  lemma {:induction false} NothingAddedAfterClosed(steps: seq<Step>, s: State, s': State)
    requires Run(s, steps) == Some(s') && s.closed
    ensures s'.closed && s'.conns <= s.conns
    ensures s'.phases.Keys + Pending(s'.loop) <= s.phases.Keys + Pending(s.loop)
  {
    hide Next;
    if steps != [] {
      var t := Run(s, steps[..|steps| - 1]).value;
      NothingAddedAfterClosed(steps[..|steps| - 1], s, t);
      ClosedStep(t, steps[|steps| - 1], s');
    }
  }

  lemma ClosedStep(s: State, step: Step, s': State)
    requires Next(s, step) == Some(s') && s.closed
    ensures s'.closed && s'.conns <= s.conns
    ensures s'.phases.Keys + Pending(s'.loop) <= s.phases.Keys + Pending(s.loop)
  {
  }

  /** Once the wait group of a closed server is empty, every goroutine has ended and none starts. */
  lemma {:induction false} DrainedForever(steps: seq<Step>, s: State, s': State)
    requires Inv(s) && s.closed && s.wg == 0 && Run(s, steps) == Some(s')
    ensures s'.closed && s'.wg == 0 && s'.phases == s.phases
    ensures forall c :: c in s'.phases ==> s'.phases[c] == Done
  {
    if steps == [] {
      assert forall c :: c in s.phases ==> c in Alive(s.phases) || s.phases[c] == Done;
    } else {
      var t := Run(s, steps[..|steps| - 1]).value;
      DrainedForever(steps[..|steps| - 1], s, t);
      RunKeepsInv(s, steps[..|steps| - 1], t);
      DrainedStep(t, steps[|steps| - 1], s');
    }
  }

  lemma DrainedStep(s: State, step: Step, s': State)
    requires Inv(s) && s.closed && s.wg == 0 && Next(s, step) == Some(s')
    requires forall c :: c in s.phases ==> s.phases[c] == Done
    ensures s'.closed && s'.wg == 0 && s'.phases == s.phases
  {
    assert s.loop.Spawning? ==> |Pending(s.loop)| == 1;
  }

  /** When `Shutdown` or `Close` has returned nil, no handler runs, and none ever starts. */
  lemma NilMeansQuiet(before: seq<Step>, s: State, k: Caller, after: seq<Step>, s': State)
    requires Run(INITIAL, before) == Some(s) && Run(s, after) == Some(s')
    requires k in s.stops && s.stops[k].ReturnedNil?
    ensures forall c :: c in s'.phases ==> c in s.phases && s'.phases[c] == Done
    ensures Inside(s'.phases) == {}
  {
    InitialInv();
    RunKeepsInv(INITIAL, before, s);
    DrainedForever(after, s, s');
  }

  /** A Shutdown never closes a connection that it saw as started. */
  lemma SparedIsNeverShut(steps: seq<Step>, s: State, k: Caller, c: Conn)
    requires Run(INITIAL, steps) == Some(s) && (k, c) in s.spared
    ensures (k, c) !in s.shut
  {
    InitialInv();
    RunKeepsInv(INITIAL, steps, s);
  }

  /** Once a call has gone through the connections, each one still registered was closed by it or, for
      a Shutdown, seen as started; Close spares none. */
  lemma ScanIsComplete(steps: seq<Step>, s: State, k: Caller, c: Conn)
    requires Run(INITIAL, steps) == Some(s)
    requires k in s.stops && !HoldsMutex(s.stops[k]) && c in s.conns
    ensures (k, c) in s.shut || (k, c) in s.spared
    ensures (k, c) in s.spared ==> c in s.started && !ForAll(s.stops[k])
  {
    InitialInv();
    RunKeepsInv(INITIAL, steps, s);
  }

  // ----- the accept loop and the end of a call -----

  predicate IsServing(loop: Loop) {
    !loop.NotServing? && !loop.Stopped?
  }

  lemma ServingStep(s: State, step: Step, s': State)
    requires Next(s, step) == Some(s')
    ensures s.closed ==> s'.closed
    ensures IsServing(s.loop) && !s'.closed && step != AcceptError(false) ==> IsServing(s'.loop)
    ensures s.closed && !IsServing(s.loop) ==> !IsServing(s'.loop) && s'.next == s.next && s'.conns <= s.conns
  {
  }

  /** Only a stop or an accept error that is no timeout ends the accept loop: neither a timeout nor a
      server that is full does. */
  lemma {:induction false} ServesOn(steps: seq<Step>, s: State, s': State)
    requires Run(s, steps) == Some(s') && IsServing(s.loop) && !s'.closed
    requires AcceptError(false) !in steps
    ensures IsServing(s'.loop)
  {
    hide Next;
    if steps != [] {
      var front, last := steps[..|steps| - 1], steps[|steps| - 1];
      var t := Run(s, front).value;
      ServingStep(t, last, s');
      assert last in steps;
      ServesOn(front, s, t);
    }
  }

  /** A `Serve` that begins on a closed server accepts no connection. */
  lemma {:induction false} ClosedAcceptsNone(steps: seq<Step>, s: State, s': State)
    requires Run(s, steps) == Some(s') && s.closed && !IsServing(s.loop)
    ensures !IsServing(s'.loop) && s'.next == s.next && s'.conns <= s.conns
  {
    hide Next;
    if steps != [] {
      var front, last := steps[..|steps| - 1], steps[|steps| - 1];
      var t := Run(s, front).value;
      ClosedAcceptsNone(front, s, t);
      StaysClosed(front, s, t);
      ServingStep(t, last, s');
    }
  }

  lemma {:induction false} StaysClosed(steps: seq<Step>, s: State, s': State)
    requires Run(s, steps) == Some(s') && s.closed
    ensures s'.closed
  {
    hide Next;
    if steps != [] {
      var front, last := steps[..|steps| - 1], steps[|steps| - 1];
      var t := Run(s, front).value;
      StaysClosed(front, s, t);
      ServingStep(t, last, s');
    }
  }

  /** The call `k` is a `Close` that has not failed. */
  predicate IsClose(s: State, k: Caller) {
    k in s.stops && !s.stops[k].Expired? && s.stops[k].all
  }

  lemma CloseStep(s: State, step: Step, s': State, k: Caller)
    requires Next(s, step) == Some(s')
    ensures IsClose(s, k) ==> IsClose(s', k)
    ensures step == BeginStop(k, true) ==> IsClose(s', k)
  {
  }

  /** `Close` waits as long as it takes: it never gives up as a `Shutdown` whose context expires does. */
  lemma {:induction false} CloseNeverExpires(before: seq<Step>, s: State, k: Caller, after: seq<Step>, s': State)
    requires Run(INITIAL, before) == Some(s) && before != [] && before[|before| - 1] == BeginStop(k, true)
    requires Run(s, after) == Some(s')
    ensures IsClose(s', k)
    decreases |after|
  {
    hide Next, IsClose;
    if after == [] {
      CloseStep(Run(INITIAL, before[..|before| - 1]).value, before[|before| - 1], s, k);
    } else {
      var front, last := after[..|after| - 1], after[|after| - 1];
      var t := Run(s, front).value;
      CloseNeverExpires(before, s, k, front, t);
      CloseStep(t, last, s', k);
    }
  }

  // ----- running handlers are spared -----

  /** The call `k` has not closed the connection of `c`, nor is it about to; a running handler has marked its
      connection as started. */
  predicate Spares(s: State, k: Caller, c: Conn) {
    && (k in s.stops ==> !s.stops[k].Expired? ==> !s.stops[k].all)
    && (k in s.stops && s.stops[k].Closing? ==> s.stops[k].conn != c)
    && (k, c) !in s.shut
  }

  predicate MarksHandlers(s: State, k: Caller, c: Conn) {
    && (At(s, c, Running) ==> c in s.started)
    && (k !in s.stops ==> (k, c) !in s.shut)
  }

  lemma MarkingStep(s: State, step: Step, s': State, k: Caller, c: Conn)
    requires Next(s, step) == Some(s') && MarksHandlers(s, k, c)
    ensures MarksHandlers(s', k, c)
  {
  }

  lemma {:induction false} AlwaysMarked(steps: seq<Step>, s: State, k: Caller, c: Conn)
    requires Run(INITIAL, steps) == Some(s)
    ensures MarksHandlers(s, k, c)
  {
    hide Next;
    if steps != [] {
      var t := Run(INITIAL, steps[..|steps| - 1]).value;
      AlwaysMarked(steps[..|steps| - 1], t, k, c);
      MarkingStep(t, steps[|steps| - 1], s, k, c);
    }
  }

  lemma SparingStep(s: State, step: Step, s': State, k: Caller, c: Conn)
    requires Next(s, step) == Some(s') && step != BeginStop(k, true)
    requires c in s.started && Spares(s, k, c)
    ensures c in s'.started && Spares(s', k, c)
  {
  }

  lemma {:induction false} SparedFromNowOn(steps: seq<Step>, s: State, s': State, k: Caller, c: Conn)
    requires Run(s, steps) == Some(s') && BeginStop(k, true) !in steps
    requires c in s.started && Spares(s, k, c)
    ensures c in s'.started && Spares(s', k, c)
  {
    hide Next, Spares;
    if steps != [] {
      var front, last := steps[..|steps| - 1], steps[|steps| - 1];
      var t := Run(s, front).value;
      SparedFromNowOn(front, s, t, k, c);
      assert last in steps;
      SparingStep(t, last, s', k, c);
    }
  }

  /** A Shutdown never closes the connection of a handler that was running when it began, however the
      rest is interleaved. */
  lemma RunningIsNeverShut(before: seq<Step>, s: State, k: Caller, c: Conn, after: seq<Step>, s': State)
    requires Run(INITIAL, before) == Some(s) && At(s, c, Running) && k !in s.stops
    requires Run(s, after) == Some(s') && BeginStop(k, true) !in after
    ensures (k, c) !in s'.shut
  {
    AlwaysMarked(before, s, k, c);
    SparedFromNowOn(after, s, s', k, c);
  }
}
