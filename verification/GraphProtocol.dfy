/** Acquiring, releasing, creating, dropping, checkpointing and shutting down graphs, as an interleaving of
    atomic steps (graph_manager.cpp). A step is a critical section under one mutex, or an action between
    two of them. The manager's shared lock is held by a thread that has looked a graph up and by a running
    checkpoint; steps under the exclusive lock need that nobody holds it shared. */
module GraphProtocol {
  import opened UsageGate

  type Name = string
  type InstanceId = nat
  type ThreadId = nat
  type LeaseId = nat

  const DEFAULT_GRAPH: Name := "default"

  /** Who is responsible for an instance. */
  datatype Owner = InMap | Dropper(t: ThreadId) | Shutdown(t: ThreadId) | Leaked | Destroyed

  datatype Instance = Instance(gate: Gate, owner: Owner)

  /** Where a client thread is between two critical sections. */
  datatype Pc =
    | Idle
    | Found(inst: InstanceId)                                        // acquireGraph: shared lock held
    | Removed(inst: InstanceId)                                      // dropGraph: out of the map, gate still open
    | Waiting(inst: InstanceId)                                      // dropGraph: gate closed
    | Drained(inst: InstanceId)                                      // dropGraph: nobody in flight
    | Joining                                                        // shutdown: waiting for the checkpoint thread
    | Closing(toClose: set<InstanceId>, all: set<InstanceId>)        // shutdown: closing the gates
    | Draining(toWait: set<InstanceId>, drained: set<InstanceId>)    // shutdown: waiting, then destroying

  datatype Checkpointer =
    | Sleeping
    | Decided                                                        // has seen running_, holds no lock yet
    | Running(todo: set<InstanceId>, current: set<InstanceId>)       // shared lock held
    | Stopped

  datatype State = State(
    catalog: set<Name>,
    graphs: map<Name, InstanceId>,
    insts: map<InstanceId, Instance>,
    leases: map<LeaseId, InstanceId>,
    threads: map<ThreadId, Pc>,
    checkpointer: Checkpointer,
    running: bool)

  datatype Step =
    | Lookup(t: ThreadId, name: Name)
    | TryEnter(t: ThreadId, lease: LeaseId)
    | Release(lease: LeaseId)
    | Create(t: ThreadId, name: Name, inst: InstanceId, succeeds: bool)
    | Remove(t: ThreadId, name: Name)
    | CloseGate(t: ThreadId)
    | WaitDrained(t: ThreadId, drained: bool)
    | Finish(t: ThreadId, outstanding: bool)
    | WakeCheckpointer
    | BeginCheckpoint
    | CheckpointOne(inst: InstanceId)
    | CheckpointDone
    | EndCheckpoint
    | BeginShutdown(t: ThreadId)
    | ExtractAll(t: ThreadId)
    | CloseOne(t: ThreadId, inst: InstanceId)
    | StartDraining(t: ThreadId)
    | DrainOne(t: ThreadId, inst: InstanceId, drained: bool)
    | DestroyOne(t: ThreadId, inst: InstanceId)
    | EndShutdown(t: ThreadId)

  /** Nobody holds the manager's lock in shared mode. */
  predicate NoReaders(s: State) {
    && !s.checkpointer.Running?
    && forall t | t in s.threads :: !s.threads[t].Found?
  }

  predicate At(s: State, t: ThreadId, pc: Pc) {
    t in s.threads && s.threads[t] == pc
  }

  /** What waitDrained may answer: true only with nobody in flight, false (time out) only with somebody. */
  predicate WaitAnswer(g: Gate, drained: bool) {
    drained <==> g.inflight == 0
  }

  predicate Enabled(s: State, a: Step) {
    match a
    case Lookup(t, name) => At(s, t, Idle) && name in s.graphs
    case TryEnter(t, lease) =>
      t in s.threads && s.threads[t].Found? && s.threads[t].inst in s.insts && lease !in s.leases
    case Release(lease) => lease in s.leases && s.leases[lease] in s.insts
    case Create(t, name, inst, succeeds) => At(s, t, Idle) && NoReaders(s) && name !in s.catalog && inst !in s.insts
    case Remove(t, name) =>
      At(s, t, Idle) && NoReaders(s) && name != DEFAULT_GRAPH && name in s.graphs && s.graphs[name] in s.insts
    case CloseGate(t) => t in s.threads && s.threads[t].Removed? && s.threads[t].inst in s.insts
    case WaitDrained(t, drained) =>
      && t in s.threads && s.threads[t].Waiting? && s.threads[t].inst in s.insts
      && WaitAnswer(s.insts[s.threads[t].inst].gate, drained)
    case Finish(t, outstanding) => t in s.threads && s.threads[t].Drained? && s.threads[t].inst in s.insts
    case WakeCheckpointer => s.checkpointer.Sleeping?
    case BeginCheckpoint => s.checkpointer.Decided?
    case CheckpointOne(inst) =>
      s.checkpointer.Running? && s.checkpointer.current == {} && inst in s.checkpointer.todo
    case CheckpointDone => s.checkpointer.Running?
    case EndCheckpoint => s.checkpointer.Running?
    case BeginShutdown(t) => At(s, t, Idle) && s.running
    case ExtractAll(t) => At(s, t, Joining) && s.checkpointer.Stopped? && NoReaders(s) && s.graphs.Values <= s.insts.Keys
    case CloseOne(t, inst) =>
      t in s.threads && s.threads[t].Closing? && inst in s.threads[t].toClose && inst in s.insts
    case StartDraining(t) => t in s.threads && s.threads[t].Closing? && s.threads[t].toClose == {}
    case DrainOne(t, inst, drained) =>
      && t in s.threads && s.threads[t].Draining? && inst in s.threads[t].toWait && inst in s.insts
      && WaitAnswer(s.insts[inst].gate, drained)
    case DestroyOne(t, inst) =>
      && t in s.threads && s.threads[t].Draining? && s.threads[t].toWait == {}
      && inst in s.threads[t].drained && inst in s.insts
    case EndShutdown(t) => At(s, t, Draining({}, {}))
  }

  function SetGate(s: State, id: InstanceId, g: Gate): State
    requires id in s.insts
  {
    s.(insts := s.insts[id := s.insts[id].(gate := g)])
  }

  function SetOwner(s: State, id: InstanceId, o: Owner): State
    requires id in s.insts
  {
    s.(insts := s.insts[id := s.insts[id].(owner := o)])
  }

  function Goto(s: State, t: ThreadId, pc: Pc): State {
    s.(threads := s.threads[t := pc])
  }

  /** The effect of each step. */
  function Apply(s: State, a: Step): State
    requires Enabled(s, a)
  {
    match a
    case Lookup(t, name) => Goto(s, t, Found(s.graphs[name]))
    case TryEnter(t, lease) =>
      var id := s.threads[t].inst;
      var g := s.insts[id].gate;
      if Admits(g) then Goto(SetGate(s, id, Enter(g)), t, Idle).(leases := s.leases[lease := id])
      else Goto(s, t, Idle)
    case Release(lease) =>
      var id := s.leases[lease];
      SetGate(s, id, Leave(s.insts[id].gate)).(leases := s.leases - {lease})
    case Create(t, name, inst, succeeds) =>
      if succeeds then
        s.(catalog := s.catalog + {name}, graphs := s.graphs[name := inst],
           insts := s.insts[inst := Instance(OPEN, InMap)])
      else s
    case Remove(t, name) =>
      var id := s.graphs[name];
      Goto(SetOwner(s, id, Dropper(t)), t, Removed(id)).(graphs := s.graphs - {name}, catalog := s.catalog - {name})
    case CloseGate(t) =>
      var id := s.threads[t].inst;
      Goto(SetGate(s, id, Close(s.insts[id].gate)), t, Waiting(id))
    case WaitDrained(t, drained) =>
      var id := s.threads[t].inst;
      if drained then Goto(s, t, Drained(id)) else Goto(SetOwner(s, id, Leaked), t, Idle)
    case Finish(t, outstanding) =>
      Goto(SetOwner(s, s.threads[t].inst, if outstanding then Leaked else Destroyed), t, Idle)
    case WakeCheckpointer => s.(checkpointer := if s.running then Decided else Stopped)
    case BeginCheckpoint => s.(checkpointer := Running(s.graphs.Values, {}))
    case CheckpointOne(inst) => s.(checkpointer := Running(s.checkpointer.todo - {inst}, {inst}))
    case CheckpointDone => s.(checkpointer := s.checkpointer.(current := {}))
    case EndCheckpoint => s.(checkpointer := Sleeping)
    case BeginShutdown(t) => Goto(s, t, Joining).(running := false)
    case ExtractAll(t) =>
      var all := s.graphs.Values;
      Goto(s, t, Closing(all, all)).(
        graphs := map[],
        insts := map id | id in s.insts :: if id in all then s.insts[id].(owner := Shutdown(t)) else s.insts[id])
    case CloseOne(t, inst) =>
      Goto(SetGate(s, inst, Close(s.insts[inst].gate)), t,
           s.threads[t].(toClose := s.threads[t].toClose - {inst}))
    case StartDraining(t) => Goto(s, t, Draining(s.threads[t].all, {}))
    case DrainOne(t, inst, drained) =>
      var pc := s.threads[t];
      if drained then Goto(s, t, Draining(pc.toWait - {inst}, pc.drained + {inst}))
      else Goto(SetOwner(s, inst, Leaked), t, Draining(pc.toWait - {inst}, pc.drained))
    case DestroyOne(t, inst) =>
      Goto(SetOwner(s, inst, Destroyed), t, Draining({}, s.threads[t].drained - {inst}))
    case EndShutdown(t) => Goto(s, t, Idle)
  }

  // ---------- the invariant ----------

  function LeasesOf(s: State, id: InstanceId): set<LeaseId> {
    set l | l in s.leases && s.leases[l] == id
  }

  /** The gate counts the live leases, and every lease is of a known instance. */
  ghost predicate CountsLeases(s: State) {
    && (forall id | id in s.insts :: s.insts[id].gate.inflight == |LeasesOf(s, id)|)
    && (forall l | l in s.leases :: s.leases[l] in s.insts)
  }

  /** The map holds exactly the instances it owns, each under one name and with an open gate. */
  ghost predicate MapOwns(s: State) {
    && (forall n | n in s.graphs :: s.graphs[n] in s.insts && s.insts[s.graphs[n]] .owner == InMap)
    && (forall id | id in s.insts && s.insts[id].owner == InMap ::
          !s.insts[id].gate.closed && exists n :: n in s.graphs && s.graphs[n] == id)
    && (forall n, m | n in s.graphs && m in s.graphs && s.graphs[n] == s.graphs[m] :: n == m)
    && s.graphs.Keys <= s.catalog
  }

  /** What the program point of a thread says about instances. */
  ghost predicate PcHolds(s: State, t: ThreadId, pc: Pc) {
    match pc
    case Idle => true
    case Found(id) => id in s.insts && s.insts[id].owner == InMap
    case Removed(id) => id in s.insts && s.insts[id].owner == Dropper(t)
    case Waiting(id) => id in s.insts && s.insts[id].owner == Dropper(t) && s.insts[id].gate.closed
    case Drained(id) =>
      id in s.insts && s.insts[id].owner == Dropper(t) && s.insts[id].gate == Gate(true, 0)
    case Joining => !s.running
    case Closing(toClose, all) =>
      && toClose <= all
      && forall id | id in all ::
           id in s.insts && s.insts[id].owner == Shutdown(t) && (id !in toClose ==> s.insts[id].gate.closed)
    case Draining(toWait, drained) =>
      && toWait !! drained
      && (forall id | id in toWait :: id in s.insts && s.insts[id].owner == Shutdown(t) && s.insts[id].gate.closed)
      && (forall id | id in drained :: id in s.insts && s.insts[id].owner == Shutdown(t) && s.insts[id].gate == Gate(true, 0))
  }

  /** An owning thread is at a program point that knows the instance. */
  predicate PcOwns(pc: Pc, id: InstanceId) {
    match pc
    case Removed(i) => i == id
    case Waiting(i) => i == id
    case Drained(i) => i == id
    case Closing(_, all) => id in all
    case Draining(toWait, drained) => id in toWait || id in drained
    case _ => false
  }

  predicate OwnerKnows(s: State, id: InstanceId, inst: Instance) {
    match inst.owner
    case InMap => true
    case Dropper(t) => t in s.threads && PcOwns(s.threads[t], id)
    case Shutdown(t) => t in s.threads && PcOwns(s.threads[t], id)
    case Leaked => inst.gate.closed
    case Destroyed => inst.gate == Gate(true, 0)
  }

  ghost predicate OwnersKnow(s: State) {
    forall id | id in s.insts :: OwnerKnows(s, id, s.insts[id])
  }

  ghost predicate CheckpointHolds(s: State) {
    s.checkpointer.Running? ==>
      forall id | id in s.checkpointer.todo || id in s.checkpointer.current ::
        id in s.insts && s.insts[id].owner == InMap
  }

  ghost predicate Inv(s: State) {
    && CountsLeases(s)
    && MapOwns(s)
    && (forall t | t in s.threads :: PcHolds(s, t, s.threads[t]))
    && OwnersKnow(s)
    && CheckpointHolds(s)
  }

  // ---------- keeping it ----------

  lemma EnterCounts(s: State, lease: LeaseId, id: InstanceId)
    requires lease !in s.leases
    ensures var s' := s.(leases := s.leases[lease := id]);
            forall i :: |LeasesOf(s', i)| == |LeasesOf(s, i)| + (if i == id then 1 else 0)
  {
    var s' := s.(leases := s.leases[lease := id]);
    forall i
      ensures |LeasesOf(s', i)| == |LeasesOf(s, i)| + (if i == id then 1 else 0)
    {
      assert LeasesOf(s', i) == if i == id then LeasesOf(s, i) + {lease} else LeasesOf(s, i);
    }
  }

  lemma ReleaseCounts(s: State, lease: LeaseId)
    requires lease in s.leases
    ensures var s' := s.(leases := s.leases - {lease});
            forall i :: |LeasesOf(s', i)| == |LeasesOf(s, i)| - (if i == s.leases[lease] then 1 else 0)
  {
    var s' := s.(leases := s.leases - {lease});
    forall i
      ensures |LeasesOf(s', i)| == |LeasesOf(s, i)| - (if i == s.leases[lease] then 1 else 0)
    {
      assert LeasesOf(s', i) == LeasesOf(s, i) - {lease};
      if i == s.leases[lease] {
        assert lease in LeasesOf(s, i);
      } else {
        assert lease !in LeasesOf(s, i);
      }
    }
  }

  lemma LeaseMeansInflight(s: State, lease: LeaseId)
    requires CountsLeases(s) && lease in s.leases
    ensures s.insts[s.leases[lease]].gate.inflight > 0
  {
    assert lease in LeasesOf(s, s.leases[lease]);
  }

  // The parts of the invariant, each with what a step must leave alone to keep it.

  lemma CountsKept(s: State, s': State)
    requires CountsLeases(s) && s'.leases == s.leases && s.insts.Keys <= s'.insts.Keys
    requires forall id | id in s.insts :: s'.insts[id].gate.inflight == s.insts[id].gate.inflight
    requires forall id | id in s'.insts && id !in s.insts :: s'.insts[id].gate.inflight == 0
    ensures CountsLeases(s')
  {
    forall id | id in s'.insts
      ensures s'.insts[id].gate.inflight == |LeasesOf(s', id)|
    {
      assert LeasesOf(s', id) == LeasesOf(s, id);
      if id !in s.insts {
        assert LeasesOf(s, id) == {};
      }
    }
  }

  lemma MapKept(s: State, s': State)
    requires MapOwns(s) && s'.graphs == s.graphs && s'.catalog == s.catalog && s'.insts.Keys == s.insts.Keys
    requires forall id | id in s.insts ::
               && (s'.insts[id].owner == InMap <==> s.insts[id].owner == InMap)
               && (s.insts[id].owner == InMap ==> s'.insts[id].gate.closed == s.insts[id].gate.closed)
    ensures MapOwns(s')
  {
  }

  /** The instances a program point speaks of. */
  predicate Mentions(pc: Pc, id: InstanceId) {
    pc == Found(id) || PcOwns(pc, id)
  }

  /** The owner stays, a closed gate stays closed, a drained gate stays drained. */
  ghost predicate Steady(s: State, s': State, id: InstanceId) {
    && id in s.insts && id in s'.insts
    && s'.insts[id].owner == s.insts[id].owner
    && (s.insts[id].gate.closed ==> s'.insts[id].gate.closed)
    && (s.insts[id].gate == Gate(true, 0) ==> s'.insts[id].gate == Gate(true, 0))
  }

  lemma PcKept(s: State, s': State, t: ThreadId, pc: Pc)
    requires PcHolds(s, t, pc) && (s'.running ==> s.running)
    requires forall id | Mentions(pc, id) :: Steady(s, s', id)
    ensures PcHolds(s', t, pc)
  {
    match pc {
      case Found(id) => assert Mentions(pc, id);
      case Removed(id) => assert Mentions(pc, id);
      case Waiting(id) => assert Mentions(pc, id);
      case Drained(id) => assert Mentions(pc, id);
      case Closing(toClose, all) => assert forall id | id in all :: Mentions(pc, id);
      case Draining(toWait, drained) => assert forall id | id in toWait || id in drained :: Mentions(pc, id);
      case _ =>
    }
  }

  lemma MentionedOwner(s: State, t: ThreadId, pc: Pc, id: InstanceId)
    requires PcHolds(s, t, pc) && Mentions(pc, id)
    ensures id in s.insts
    ensures pc == Found(id) ==> s.insts[id].owner == InMap
    ensures pc != Found(id) ==> s.insts[id].owner in {Dropper(t), Shutdown(t)}
  {
  }

  /** A step of thread `t` that keeps steady everything except instances only `t` can speak of. */
  lemma ThreadsKept(s: State, s': State, t: ThreadId)
    requires forall u | u in s.threads :: PcHolds(s, u, s.threads[u])
    requires s'.threads.Keys <= s.threads.Keys + {t} && (s'.running ==> s.running)
    requires forall u | u in s'.threads && u != t :: s'.threads[u] == s.threads[u]
    requires t in s'.threads ==> PcHolds(s', t, s'.threads[t])
    requires forall id | id in s.insts ::
               Steady(s, s', id)
               || s.insts[id].owner in {Dropper(t), Shutdown(t)}
               || (s.insts[id].owner == InMap && forall u | u in s.threads && u != t :: s.threads[u] != Found(id))
    ensures forall u | u in s'.threads :: PcHolds(s', u, s'.threads[u])
  {
    forall u | u in s'.threads && u != t
      ensures PcHolds(s', u, s'.threads[u])
    {
      var pc := s.threads[u];
      forall id | Mentions(pc, id)
        ensures Steady(s, s', id)
      {
        MentionedOwner(s, u, pc, id);
      }
      PcKept(s, s', u, pc);
    }
  }

  lemma OwnersKept(s: State, s': State, t: ThreadId)
    requires OwnersKnow(s) && s.threads.Keys <= s'.threads.Keys
    requires forall u | u in s.threads && u != t :: s'.threads[u] == s.threads[u]
    requires forall id | id in s'.insts ::
               OwnerKnows(s', id, s'.insts[id])
               || (Steady(s, s', id) && s.insts[id].owner !in {Dropper(t), Shutdown(t)})
    ensures OwnersKnow(s')
  {
    forall id | id in s'.insts
      ensures OwnerKnows(s', id, s'.insts[id])
    {
      if Steady(s, s', id) {
        assert OwnerKnows(s, id, s.insts[id]);
      }
    }
  }

  lemma CheckpointKept(s: State, s': State)
    requires CheckpointHolds(s) && s'.checkpointer == s.checkpointer
    requires s.checkpointer.Running? ==>
               forall id | id in s.insts && s.insts[id].owner == InMap :: id in s'.insts && s'.insts[id].owner == InMap
    ensures CheckpointHolds(s')
  {
  }

  lemma LookupKeeps(s: State, t: ThreadId, name: Name)
    requires Inv(s) && Enabled(s, Lookup(t, name))
    ensures Inv(Apply(s, Lookup(t, name)))
  {
    hide LeasesOf, OwnerKnows;
    var s' := Apply(s, Lookup(t, name));
    CountsKept(s, s');
    MapKept(s, s');
    ThreadsKept(s, s', t);
    NoOwnerAt(s, t);
    OwnersKept(s, s', t);
    CheckpointKept(s, s');
  }

  /** A thread between calls, or looking up, owns nothing. */
  lemma NoOwnerAt(s: State, t: ThreadId)
    requires OwnersKnow(s)
    requires t in s.threads && (s.threads[t].Idle? || s.threads[t].Found? || s.threads[t].Joining?)
    ensures forall id | id in s.insts :: s.insts[id].owner !in {Dropper(t), Shutdown(t)}
  {
    forall id | id in s.insts
      ensures s.insts[id].owner !in {Dropper(t), Shutdown(t)}
    {
      assert OwnerKnows(s, id, s.insts[id]);
    }
  }

  lemma TryEnterCounts(s: State, t: ThreadId, lease: LeaseId)
    requires Inv(s) && Enabled(s, TryEnter(t, lease))
    ensures Admits(s.insts[s.threads[t].inst].gate)
    ensures CountsLeases(Apply(s, TryEnter(t, lease)))
  {
    var s' := Apply(s, TryEnter(t, lease));
    assert PcHolds(s, t, s.threads[t]);
    EnterCounts(s, lease, s.threads[t].inst);
    assert forall i :: LeasesOf(s', i) == LeasesOf(s.(leases := s'.leases), i);
  }

  lemma TryEnterKeeps(s: State, t: ThreadId, lease: LeaseId)
    requires Inv(s) && Enabled(s, TryEnter(t, lease))
    ensures Inv(Apply(s, TryEnter(t, lease)))
  {
    hide OwnerKnows, LeasesOf, CountsLeases;
    var s' := Apply(s, TryEnter(t, lease));
    TryEnterCounts(s, t, lease);
    assert PcHolds(s, t, s.threads[t]);
    MapKept(s, s');
    ThreadsKept(s, s', t);
    NoOwnerAt(s, t);
    OwnersKept(s, s', t);
    CheckpointKept(s, s');
  }

  lemma ReleaseCountsLeases(s: State, lease: LeaseId)
    requires CountsLeases(s) && Enabled(s, Release(lease))
    ensures CountsLeases(Apply(s, Release(lease)))
  {
    var s' := Apply(s, Release(lease));
    ReleaseCounts(s, lease);
    LeaseMeansInflight(s, lease);
    assert forall id :: LeasesOf(s', id) == LeasesOf(s.(leases := s'.leases), id);
  }

  lemma ReleaseKeeps(s: State, lease: LeaseId)
    requires Inv(s) && Enabled(s, Release(lease))
    ensures Inv(Apply(s, Release(lease)))
  {
    hide OwnerKnows, LeasesOf, PcHolds;
    var s' := Apply(s, Release(lease));
    ReleaseCountsLeases(s, lease);
    LeaseMeansInflight(s, lease);
    hide CountsLeases;
    MapKept(s, s');
    AllSteady(s, s');
    CheckpointKept(s, s');
  }

  /** A change that is steady for every instance disturbs no thread and no owner. */
  lemma AllSteady(s: State, s': State)
    requires forall t | t in s.threads :: PcHolds(s, t, s.threads[t])
    requires OwnersKnow(s) && s'.threads == s.threads && s'.running == s.running
    requires s'.insts.Keys == s.insts.Keys && forall id | id in s.insts :: Steady(s, s', id)
    ensures forall t | t in s'.threads :: PcHolds(s', t, s'.threads[t])
    ensures OwnersKnow(s')
  {
    hide PcHolds;
    forall t | t in s'.threads
      ensures PcHolds(s', t, s'.threads[t])
    {
      forall id | Mentions(s.threads[t], id)
        ensures Steady(s, s', id)
      {
        MentionedOwner(s, t, s.threads[t], id);
      }
      PcKept(s, s', t, s.threads[t]);
    }
    forall id | id in s'.insts
      ensures OwnerKnows(s', id, s'.insts[id])
    {
      assert Steady(s, s', id);
      assert OwnerKnows(s, id, s.insts[id]);
    }
  }

  lemma CreateKeeps(s: State, t: ThreadId, name: Name, inst: InstanceId)
    requires Inv(s) && Enabled(s, Create(t, name, inst, true))
    ensures Inv(Apply(s, Create(t, name, inst, true)))
  {
    hide LeasesOf, OwnerKnows, CountsLeases;
    var s' := Apply(s, Create(t, name, inst, true));
    CountsKept(s, s');
    CreateMapOwns(s, t, name, inst);
    ThreadsKept(s, s', t);
    NoOwnerAt(s, t);
    NewInMap(s', inst);
    OwnersKept(s, s', t);
    CheckpointKept(s, s');
  }

  lemma NewInMap(s: State, inst: InstanceId)
    requires inst in s.insts && s.insts[inst].owner == InMap
    ensures OwnerKnows(s, inst, s.insts[inst])
  {
  }

  lemma CreateMapOwns(s: State, t: ThreadId, name: Name, inst: InstanceId)
    requires MapOwns(s) && Enabled(s, Create(t, name, inst, true))
    ensures MapOwns(Apply(s, Create(t, name, inst, true)))
  {
    var s' := Apply(s, Create(t, name, inst, true));
    forall id | id in s'.insts && s'.insts[id].owner == InMap
      ensures !s'.insts[id].gate.closed && exists n :: n in s'.graphs && s'.graphs[n] == id
    {
      if id == inst {
        assert s'.graphs[name] == id;
      } else {
        var n :| n in s.graphs && s.graphs[n] == id;
        assert s'.graphs[n] == id;
      }
    }
  }

  /** An instance that a thread takes over is known to it. */
  lemma NewOwner(s: State, id: InstanceId, t: ThreadId)
    requires id in s.insts && s.insts[id].owner in {Dropper(t), Shutdown(t)}
    requires t in s.threads && PcOwns(s.threads[t], id)
    ensures OwnerKnows(s, id, s.insts[id])
  {
  }

  lemma RemoveKeeps(s: State, t: ThreadId, name: Name)
    requires Inv(s) && Enabled(s, Remove(t, name))
    ensures Inv(Apply(s, Remove(t, name)))
  {
    hide LeasesOf, CountsLeases, OwnerKnows;
    var s' := Apply(s, Remove(t, name));
    CountsKept(s, s');
    RemoveMapOwns(s, t, name);
    ThreadsKept(s, s', t);
    NoOwnerAt(s, t);
    NewOwner(s', s.graphs[name], t);
    OwnersKept(s, s', t);
    CheckpointKept(s, s');
  }

  lemma RemoveMapOwns(s: State, t: ThreadId, name: Name)
    requires MapOwns(s) && Enabled(s, Remove(t, name))
    ensures MapOwns(Apply(s, Remove(t, name)))
  {
    var s' := Apply(s, Remove(t, name));
    forall id | id in s'.insts && s'.insts[id].owner == InMap
      ensures !s'.insts[id].gate.closed && exists n :: n in s'.graphs && s'.graphs[n] == id
    {
      var n :| n in s.graphs && s.graphs[n] == id;
      assert s'.graphs[n] == id;
    }
  }

  /** What a thread owns, its program point knows. */
  lemma OwnedAt(s: State, t: ThreadId)
    requires OwnersKnow(s) && t in s.threads
    ensures forall id | id in s.insts && s.insts[id].owner in {Dropper(t), Shutdown(t)} :: PcOwns(s.threads[t], id)
  {
    forall id | id in s.insts && s.insts[id].owner in {Dropper(t), Shutdown(t)}
      ensures PcOwns(s.threads[t], id)
    {
      assert OwnerKnows(s, id, s.insts[id]);
    }
  }

  /** A step by which thread `t` moves on and perhaps changes the gate or the owner of instances that it owns,
      outside the map. */
  lemma OwnerStepKeeps(s: State, s': State, t: ThreadId, changed: set<InstanceId>)
    requires Inv(s) && t in s.threads && t in s'.threads
    requires s' == s.(threads := s'.threads, insts := s'.insts)
    requires s'.threads == s.threads[t := s'.threads[t]]
    requires s'.insts.Keys == s.insts.Keys
    requires forall id | id in s.insts && id !in changed :: s'.insts[id] == s.insts[id]
    requires forall x | x in changed ::
               && x in s.insts && s.insts[x].owner in {Dropper(t), Shutdown(t)}
               && s'.insts[x].owner != InMap
               && s'.insts[x].gate.inflight == s.insts[x].gate.inflight
               && OwnerKnows(s', x, s'.insts[x])
    requires PcHolds(s', t, s'.threads[t])
    requires forall id | id in s.insts && id !in changed && PcOwns(s.threads[t], id) :: PcOwns(s'.threads[t], id)
    ensures Inv(s')
  {
    hide LeasesOf, PcHolds;
    CountsKept(s, s');
    MapKept(s, s');
    ThreadsKept(s, s', t);
    OwnedAt(s, t);
    OwnersKept(s, s', t);
    CheckpointKept(s, s');
  }

  lemma CloseGateKeeps(s: State, t: ThreadId)
    requires Inv(s) && Enabled(s, CloseGate(t))
    ensures Inv(Apply(s, CloseGate(t)))
  {
    hide LeasesOf, MapOwns, CountsLeases, OwnersKnow, CheckpointHolds;
    assert PcHolds(s, t, s.threads[t]);
    OwnerStepKeeps(s, Apply(s, CloseGate(t)), t, {s.threads[t].inst});
  }

  lemma WaitDrainedKeeps(s: State, t: ThreadId, drained: bool)
    requires Inv(s) && Enabled(s, WaitDrained(t, drained))
    ensures Inv(Apply(s, WaitDrained(t, drained)))
  {
    hide LeasesOf, MapOwns, CountsLeases, OwnersKnow, CheckpointHolds;
    assert PcHolds(s, t, s.threads[t]);
    OwnerStepKeeps(s, Apply(s, WaitDrained(t, drained)), t, {s.threads[t].inst});
  }

  lemma FinishKeeps(s: State, t: ThreadId, outstanding: bool)
    requires Inv(s) && Enabled(s, Finish(t, outstanding))
    ensures Inv(Apply(s, Finish(t, outstanding)))
  {
    hide LeasesOf, MapOwns, CountsLeases, OwnersKnow, CheckpointHolds;
    assert PcHolds(s, t, s.threads[t]);
    OwnerStepKeeps(s, Apply(s, Finish(t, outstanding)), t, {s.threads[t].inst});
  }

  lemma CloseOneKeeps(s: State, t: ThreadId, inst: InstanceId)
    requires Inv(s) && Enabled(s, CloseOne(t, inst))
    ensures Inv(Apply(s, CloseOne(t, inst)))
  {
    hide LeasesOf, MapOwns, CountsLeases, OwnersKnow, CheckpointHolds;
    assert PcHolds(s, t, s.threads[t]);
    OwnerStepKeeps(s, Apply(s, CloseOne(t, inst)), t, {inst});
  }

  lemma StartDrainingKeeps(s: State, t: ThreadId)
    requires Inv(s) && Enabled(s, StartDraining(t))
    ensures Inv(Apply(s, StartDraining(t)))
  {
    hide LeasesOf, MapOwns, CountsLeases, OwnersKnow, CheckpointHolds;
    assert PcHolds(s, t, s.threads[t]);
    OwnerStepKeeps(s, Apply(s, StartDraining(t)), t, {});
  }

  lemma DrainOneKeeps(s: State, t: ThreadId, inst: InstanceId, drained: bool)
    requires Inv(s) && Enabled(s, DrainOne(t, inst, drained))
    ensures Inv(Apply(s, DrainOne(t, inst, drained)))
  {
    hide LeasesOf, MapOwns, CountsLeases, OwnersKnow, CheckpointHolds;
    assert PcHolds(s, t, s.threads[t]);
    OwnerStepKeeps(s, Apply(s, DrainOne(t, inst, drained)), t, {inst});
  }

  lemma DestroyOneKeeps(s: State, t: ThreadId, inst: InstanceId)
    requires Inv(s) && Enabled(s, DestroyOne(t, inst))
    ensures Inv(Apply(s, DestroyOne(t, inst)))
  {
    hide LeasesOf, MapOwns, CountsLeases, OwnersKnow, CheckpointHolds;
    assert PcHolds(s, t, s.threads[t]);
    OwnerStepKeeps(s, Apply(s, DestroyOne(t, inst)), t, {inst});
  }

  lemma EndShutdownKeeps(s: State, t: ThreadId)
    requires Inv(s) && Enabled(s, EndShutdown(t))
    ensures Inv(Apply(s, EndShutdown(t)))
  {
    OwnerStepKeeps(s, Apply(s, EndShutdown(t)), t, {});
  }

  lemma OtherCheckpointer(s: State, c: Checkpointer)
    requires Inv(s)
    requires c.Running? ==>
               forall id | id in c.todo || id in c.current :: id in s.insts && s.insts[id].owner == InMap
    ensures Inv(s.(checkpointer := c))
  {
    hide LeasesOf, PcHolds, OwnerKnows;
    var s' := s.(checkpointer := c);
    CountsKept(s, s');
    MapKept(s, s');
    AllSteady(s, s');
  }

  lemma CheckpointStepKeeps(s: State, a: Step)
    requires Inv(s) && Enabled(s, a)
    requires a.WakeCheckpointer? || a.BeginCheckpoint? || a.CheckpointOne? || a.CheckpointDone? || a.EndCheckpoint?
    ensures Inv(Apply(s, a))
  {
    hide CountsLeases, OwnersKnow, PcHolds, NoReaders;
    assert forall id | id in s.graphs.Values :: id in s.insts && s.insts[id].owner == InMap;
    OtherCheckpointer(s, Apply(s, a).checkpointer);
  }

  lemma BeginShutdownKeeps(s: State, t: ThreadId)
    requires Inv(s) && Enabled(s, BeginShutdown(t))
    ensures Inv(Apply(s, BeginShutdown(t)))
  {
    hide LeasesOf, OwnerKnows;
    var s' := Apply(s, BeginShutdown(t));
    CountsKept(s, s');
    MapKept(s, s');
    ThreadsKept(s, s', t);
    NoOwnerAt(s, t);
    OwnersKept(s, s', t);
    CheckpointKept(s, s');
  }

  lemma ExtractEmptiesMap(s: State, t: ThreadId)
    requires MapOwns(s) && Enabled(s, ExtractAll(t))
    ensures MapOwns(Apply(s, ExtractAll(t)))
  {
    forall id | id in s.insts && s.insts[id].owner == InMap
      ensures id in s.graphs.Values
    {
      var n :| n in s.graphs && s.graphs[n] == id;
    }
  }

  lemma ExtractKeeps(s: State, t: ThreadId)
    requires Inv(s) && Enabled(s, ExtractAll(t))
    ensures Inv(Apply(s, ExtractAll(t)))
  {
    hide LeasesOf, CountsLeases, OwnerKnows;
    var s' := Apply(s, ExtractAll(t));
    CountsKept(s, s');
    ExtractEmptiesMap(s, t);
    hide MapOwns;
    ThreadsKept(s, s', t);
    NoOwnerAt(s, t);
    forall id | id in s.graphs.Values
      ensures OwnerKnows(s', id, s'.insts[id])
    {
      NewOwner(s', id, t);
    }
    OwnersKept(s, s', t);
    CheckpointKept(s, s');
  }

  lemma StepKeepsInv(s: State, a: Step)
    requires Inv(s) && Enabled(s, a)
    ensures Inv(Apply(s, a))
  {
    hide Inv, Enabled, Apply;
    match a {
      case Lookup(t, name) => LookupKeeps(s, t, name);
      case TryEnter(t, lease) => TryEnterKeeps(s, t, lease);
      case Release(lease) => ReleaseKeeps(s, lease);
      case Create(t, name, inst, succeeds) =>
        if succeeds {
          CreateKeeps(s, t, name, inst);
        } else {
          FailedCreate(s, t, name, inst);
        }
      case Remove(t, name) => RemoveKeeps(s, t, name);
      case ExtractAll(t) => ExtractKeeps(s, t);
      case BeginShutdown(t) => BeginShutdownKeeps(s, t);
      case CloseGate(t) => CloseGateKeeps(s, t);
      case WaitDrained(t, drained) => WaitDrainedKeeps(s, t, drained);
      case Finish(t, outstanding) => FinishKeeps(s, t, outstanding);
      case CloseOne(t, inst) => CloseOneKeeps(s, t, inst);
      case StartDraining(t) => StartDrainingKeeps(s, t);
      case DrainOne(t, inst, drained) => DrainOneKeeps(s, t, inst, drained);
      case DestroyOne(t, inst) => DestroyOneKeeps(s, t, inst);
      case EndShutdown(t) => EndShutdownKeeps(s, t);
      case _ => CheckpointStepKeeps(s, a);
    }
  }

  lemma FailedCreate(s: State, t: ThreadId, name: Name, inst: InstanceId)
    requires Enabled(s, Create(t, name, inst, false))
    ensures Apply(s, Create(t, name, inst, false)) == s
  {
  }

  // ---------- runs ----------

  /** After init: every graph opened from the catalog is in the map, nobody uses anything. */
  ghost predicate Init(s: State) {
    && MapOwns(s)
    && (forall id | id in s.insts :: s.insts[id] == Instance(OPEN, InMap))
    && s.leases == map[]
    && (forall t | t in s.threads :: s.threads[t] == Idle)
    && s.checkpointer == Sleeping && s.running
  }

  ghost predicate IsRun(states: seq<State>, steps: seq<Step>) {
    && |states| == |steps| + 1
    && Init(states[0])
    && forall i | 0 <= i < |steps| :: Enabled(states[i], steps[i]) && states[i + 1] == Apply(states[i], steps[i])
  }

  lemma InitInv(s: State)
    requires Init(s)
    ensures Inv(s)
  {
    forall id | id in s.insts
      ensures |LeasesOf(s, id)| == 0
    {
      assert LeasesOf(s, id) == {};
    }
  }

  /** The invariant holds in every state of every run. */
  lemma {:induction false} RunKeepsInv(states: seq<State>, steps: seq<Step>, i: nat)
    requires IsRun(states, steps) && i < |states|
    ensures Inv(states[i])
  {
    hide Enabled, Apply, Inv, Init;
    if i == 0 {
      InitInv(states[0]);
    } else {
      RunKeepsInv(states, steps, i - 1);
      StepKeepsInv(states[i - 1], steps[i - 1]);
    }
  }

  /** Somebody may still call into the instance or its connection. */
  ghost predicate InUse(s: State, id: InstanceId) {
    || LeasesOf(s, id) != {}
    || (exists t :: t in s.threads && s.threads[t] == Found(id))
    || (s.checkpointer.Running? && id in s.checkpointer.current)
  }

  /** A destroyed instance has a closed gate and no user. */
  lemma DestroyedIsUnused(s: State, id: InstanceId)
    requires Inv(s) && id in s.insts && s.insts[id].owner == Destroyed
    ensures s.insts[id].gate == Gate(true, 0) && !InUse(s, id)
  {
    assert OwnerKnows(s, id, s.insts[id]);
    forall t | t in s.threads
      ensures s.threads[t] != Found(id)
    {
      assert PcHolds(s, t, s.threads[t]);
    }
  }

  /** An owner changes only away from the map or away from a thread. */
  ghost predicate OwnerMovesOn(s: State, s': State, id: InstanceId)
    requires id in s.insts
  {
    && id in s'.insts
    && (s'.insts[id].owner != s.insts[id].owner ==>
          s'.insts[id].owner != InMap && s.insts[id].owner !in {Leaked, Destroyed})
  }

  lemma OwnerChangesByMap(s: State, a: Step, id: InstanceId)
    requires MapOwns(s) && Enabled(s, a) && id in s.insts
    requires a.Create? || a.Remove? || a.ExtractAll?
    ensures OwnerMovesOn(s, Apply(s, a), id)
  {
    hide NoReaders;
  }

  lemma OwnerChangesByThread(s: State, a: Step, id: InstanceId, t: ThreadId)
    requires Enabled(s, a) && id in s.insts
    requires t in s.threads && PcHolds(s, t, s.threads[t])
    requires (a.WaitDrained? || a.Finish? || a.DrainOne? || a.DestroyOne?) && a.t == t
    ensures OwnerMovesOn(s, Apply(s, a), id)
  {
  }

  lemma OwnerUnchanged(s: State, a: Step, id: InstanceId)
    requires Enabled(s, a) && id in s.insts
    requires !(a.Create? || a.Remove? || a.ExtractAll? || a.WaitDrained? || a.Finish? || a.DrainOne? || a.DestroyOne?)
    ensures OwnerMovesOn(s, Apply(s, a), id)
  {
  }

  lemma OwnerChanges(s: State, a: Step, id: InstanceId)
    requires Inv(s) && Enabled(s, a) && id in s.insts
    ensures OwnerMovesOn(s, Apply(s, a), id)
  {
    hide MapOwns, CountsLeases, OwnersKnow, CheckpointHolds, Apply, OwnerMovesOn, PcHolds;
    if a.Create? || a.Remove? || a.ExtractAll? {
      OwnerChangesByMap(s, a, id);
    } else if a.WaitDrained? || a.Finish? || a.DrainOne? || a.DestroyOne? {
      OwnerChangesByThread(s, a, id, a.t);
    } else {
      OwnerUnchanged(s, a, id);
    }
  }

  lemma ClosedStays(s: State, a: Step, id: InstanceId)
    requires Enabled(s, a) && id in s.insts && s.insts[id].gate.closed
    ensures id in Apply(s, a).insts && Apply(s, a).insts[id].gate.closed
  {
    hide NoReaders;
  }

  lemma LeasesShrink(s: State, a: Step, id: InstanceId)
    requires Inv(s) && Enabled(s, a) && id in s.insts && s.insts[id].owner != InMap
    ensures LeasesOf(Apply(s, a), id) <= LeasesOf(s, id)
  {
    hide OwnersKnow, CheckpointHolds, CountsLeases, NoReaders, MapOwns;
    match a {
      case TryEnter(t, _) => assert PcHolds(s, t, s.threads[t]);
      case _ =>
    }
  }

  /** Instances never come back: a gate once closed stays closed, an instance taken out of the map stays out
      and only loses leases, and a leaked or destroyed instance keeps that fate. */
  lemma OneWay(s: State, a: Step, id: InstanceId)
    requires Inv(s) && Enabled(s, a) && id in s.insts
    ensures var s' := Apply(s, a);
            && id in s'.insts
            && (s.insts[id].gate.closed ==> s'.insts[id].gate.closed)
            && (s.insts[id].owner != InMap ==>
                  s'.insts[id].owner != InMap && LeasesOf(s', id) <= LeasesOf(s, id))
            && (s.insts[id].owner in {Leaked, Destroyed} ==> s'.insts[id].owner == s.insts[id].owner)
  {
    hide Inv, Enabled, Apply, LeasesOf;
    OwnerChanges(s, a, id);
    assert OwnerMovesOn(s, Apply(s, a), id);
    if s.insts[id].gate.closed {
      ClosedStays(s, a, id);
    }
    if s.insts[id].owner != InMap {
      LeasesShrink(s, a, id);
    }
  }

  /** In every run: once an instance is destroyed, that is its connection closed, nobody uses it in that state
      or in any later one. */
  lemma {:induction false} ConnectionsCloseSafely(states: seq<State>, steps: seq<Step>, id: InstanceId, i: nat, j: nat)
    requires IsRun(states, steps) && i <= j < |states|
    requires id in states[i].insts && states[i].insts[id].owner == Destroyed
    ensures id in states[j].insts && states[j].insts[id].owner == Destroyed
    ensures states[j].insts[id].gate == Gate(true, 0) && !InUse(states[j], id)
    decreases j - i
  {
    hide Enabled, Apply, Inv, Init, InUse;
    if i < j {
      ConnectionsCloseSafely(states, steps, id, i, j - 1);
      RunKeepsInv(states, steps, j - 1);
      OneWay(states[j - 1], steps[j - 1], id);
    }
    RunKeepsInv(states, steps, j);
    DestroyedIsUnused(states[j], id);
  }

  /** In every run: a lease that is not released keeps its instance alive. */
  lemma LeaseKeepsAlive(states: seq<State>, steps: seq<Step>, lease: LeaseId, j: nat)
    requires IsRun(states, steps) && j < |states| && lease in states[j].leases
    ensures var id := states[j].leases[lease];
            id in states[j].insts && states[j].insts[id].owner != Destroyed && states[j].insts[id].gate.inflight > 0
  {
    RunKeepsInv(states, steps, j);
    LeaseMeansInflight(states[j], lease);
    assert OwnerKnows(states[j], states[j].leases[lease], states[j].insts[states[j].leases[lease]]);
  }

  /** Each instance has exactly one owner: the map knows it, or one thread at a program point that knows it, or
      nobody any more. */
  lemma ExactlyOneOwner(s: State, id: InstanceId)
    requires Inv(s) && id in s.insts
    ensures s.insts[id].owner == InMap <==> id in s.graphs.Values
    ensures forall t | t in s.threads :: PcOwns(s.threads[t], id) <==> s.insts[id].owner in {Dropper(t), Shutdown(t)}
  {
    assert OwnerKnows(s, id, s.insts[id]);
    forall t | t in s.threads
      ensures PcOwns(s.threads[t], id) <==> s.insts[id].owner in {Dropper(t), Shutdown(t)}
    {
      assert PcHolds(s, t, s.threads[t]);
      if s.insts[id].owner in {Dropper(t), Shutdown(t)} {
        OwnedAt(s, t);
      }
    }
    if id in s.graphs.Values {
      var n :| n in s.graphs && s.graphs[n] == id;
    }
  }

  /** Entering the gate under the shared lock never fails: the closed-gate exit of acquireGraph is not taken. */
  lemma AcquireAdmits(states: seq<State>, steps: seq<Step>, i: nat)
    requires IsRun(states, steps) && i < |steps| && steps[i].TryEnter?
    ensures var t, lease := steps[i].t, steps[i].lease;
            && Admits(states[i].insts[states[i].threads[t].inst].gate)
            && states[i + 1].leases == states[i].leases[lease := states[i].threads[t].inst]
  {
    RunKeepsInv(states, steps, i);
    TryEnterCounts(states[i], steps[i].t, steps[i].lease);
  }

  /** A checkpoint only ever works on instances that are in the map with an open gate. */
  lemma CheckpointWorksOnMapped(states: seq<State>, steps: seq<Step>, i: nat, id: InstanceId)
    requires IsRun(states, steps) && i < |states|
    requires states[i].checkpointer.Running? && id in states[i].checkpointer.current
    ensures id in states[i].insts && id in states[i].graphs.Values && !states[i].insts[id].gate.closed
  {
    RunKeepsInv(states, steps, i);
    var n :| n in states[i].graphs && states[i].graphs[n] == id;
  }
}
