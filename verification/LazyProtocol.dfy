/** GetOrCreateLazyPointer (base/lazy_instance_helpers.h and .cc) as a protocol: any number
    of threads, each calling any number of times, interleaved at every access to the one
    atomic word. The word keeps its whole history, so that a load may be stale: it returns
    any value not older than the last one the thread has seen. */
module LazyProtocol {

  type ThreadId = nat

  const EMPTY: int := 0
  /** kLazyInstanceStateCreating. */
  const CREATING: int := 1

  /** `value & kLazyInstanceCreatedMask`: something other than 0 and 1. */
  predicate IsCreated(value: int)
  {
    value != EMPTY && value != CREATING
  }

  /** What a thread's `creator_func` does: some writes to memory, and a pointer; and whether the
      call names a destructor. */
  datatype Creator = Creator(writes: nat, result: int, destructor: bool)

  /** The `index`-th write of the creator run by `thread`. */
  datatype Write = Write(thread: ThreadId, index: nat)

  /** A value of the word, and the writes that its store released. */
  datatype Message = Message(value: int, view: set<Write>)

  datatype Pc =
    | Idle
    | FirstLoad              // Acquire_Load, the fast path
    | CompareAndSwap         // NoBarrier_CompareAndSwap(state, 0, creating)
    | Spin                   // Acquire_Load, while it says creating
    | Create(done: nat)      // in the creator, after `done` of its writes
    | Publish(result: int)   // Release_Store of the creator's result
    | Register(result: int)  // AtExitManager::RegisterCallback, if not null
    | LastLoad               // Acquire_Load after losing the race

  /** `seen` is the newest message the thread knows of, `view` the writes visible to it. */
  datatype Thread = Thread(pc: Pc, seen: nat, view: set<Write>)

  datatype Return = Return(thread: ThreadId, value: int)

  datatype State = State(
    history: seq<Message>,
    threads: map<ThreadId, Thread>,
    creations: seq<ThreadId>,   // threads that won the race, in order
    registered: seq<ThreadId>,  // destructors registered, in order
    results: seq<Return>)

  type Creators = map<ThreadId, Creator>

  function Initial(c: Creators): State
  {
    State([Message(EMPTY, {})], map t | t in c :: Thread(Idle, 0, {}), [], [], [])
  }

  /** A step of one thread; a load also says which message it reads. */
  datatype Step =
    | Call(thread: ThreadId)
    | Load(thread: ThreadId, message: nat)
    | Other(thread: ThreadId)

  ghost predicate Enabled(c: Creators, s: State, step: Step)
  {
    && step.thread in c && step.thread in s.threads
    && var t := s.threads[step.thread];
       match step
       case Call(_) => t.pc == Idle
       case Load(_, m) => (t.pc == FirstLoad || t.pc == Spin || t.pc == LastLoad) && t.seen <= m < |s.history|
       case Other(_) => t.pc == CompareAndSwap || t.pc.Create? || t.pc.Publish? || t.pc.Register?
  }

  function SetThread(s: State, id: ThreadId, t: Thread): State
  {
    s.(threads := s.threads[id := t])
  }

  function ReturnFrom(s: State, id: ThreadId, t: Thread, value: int): State
  {
    SetThread(s, id, t.(pc := Idle)).(results := s.results + [Return(id, value)])
  }

  /** An acquiring load: the thread joins the view that the message released. */
  function LoadStep(s: State, id: ThreadId, m: nat): State
    requires id in s.threads && m < |s.history|
  {
    var t := s.threads[id];
    var value := s.history[m].value;
    var acquired := t.(seen := m, view := t.view + s.history[m].view);
    match t.pc
    case FirstLoad =>
      if IsCreated(value) then ReturnFrom(s, id, acquired, value)
      else SetThread(s, id, acquired.(pc := CompareAndSwap))
    case Spin =>
      SetThread(s, id, if value == CREATING then acquired else acquired.(pc := LastLoad))
    case _ =>
      ReturnFrom(s, id, acquired, value)
  }

  /** The swap reads the newest message and orders nothing. */
  function SwapStep(s: State, id: ThreadId): State
    requires id in s.threads && s.history != []
  {
    var t := s.threads[id];
    if s.history[|s.history| - 1].value == EMPTY then
      SetThread(s, id, t.(pc := Create(0), seen := |s.history|))
      .(history := s.history + [Message(CREATING, {})], creations := s.creations + [id])
    else
      SetThread(s, id, t.(pc := Spin, seen := |s.history| - 1))
  }

  function CreateStep(s: State, id: ThreadId, c: Creator): State
    requires id in s.threads && s.threads[id].pc.Create?
  {
    var t := s.threads[id];
    if t.pc.done < c.writes then
      SetThread(s, id, t.(pc := Create(t.pc.done + 1), view := t.view + {Write(id, t.pc.done)}))
    else
      SetThread(s, id, t.(pc := Publish(c.result)))
  }

  /** The store releases everything the thread has seen. */
  function PublishStep(s: State, id: ThreadId): State
    requires id in s.threads && s.threads[id].pc.Publish?
  {
    var t := s.threads[id];
    SetThread(s, id, t.(pc := Register(t.pc.result), seen := |s.history|))
    .(history := s.history + [Message(t.pc.result, t.view)])
  }

  function RegisterStep(s: State, id: ThreadId, c: Creator): State
    requires id in s.threads && s.threads[id].pc.Register?
  {
    var t := s.threads[id];
    ReturnFrom(s, id, t, t.pc.result)
    .(registered := if t.pc.result != EMPTY && c.destructor then s.registered + [id] else s.registered)
  }

  function Apply(c: Creators, s: State, step: Step): State
    requires Enabled(c, s, step) && s.history != []
  {
    var id := step.thread;
    var t := s.threads[id];
    match step
    case Call(_) => SetThread(s, id, t.(pc := FirstLoad))
    case Load(_, m) => LoadStep(s, id, m)
    case Other(_) =>
      match t.pc
      case CompareAndSwap => SwapStep(s, id)
      case Create(_) => CreateStep(s, id, c[id])
      case Publish(_) => PublishStep(s, id)
      case _ => RegisterStep(s, id, c[id])
  }

  /** `steps` leads from `s` to `s'`. */
  ghost predicate Runs(c: Creators, s: State, steps: seq<Step>, s': State)
    decreases |steps|
  {
    if steps == [] then s == s'
    else s.history != [] && Enabled(c, s, steps[0]) && Runs(c, Apply(c, s, steps[0]), steps[1..], s')
  }

  ghost predicate Reachable(c: Creators, s: State)
  {
    exists steps :: Runs(c, Initial(c), steps, s)
  }

  // ----- The invariant, for creators that return a real pointer -----

  ghost predicate AllReal(c: Creators)
  {
    forall t | t in c :: IsCreated(c[t].result)
  }

  function WritesOf(id: ThreadId, n: nat): set<Write>
  {
    set k | 0 <= k < n :: Write(id, k)
  }

  ghost function AllWrites(c: Creators, id: ThreadId): set<Write>
    requires id in c
  {
    WritesOf(id, c[id].writes)
  }

  /** The word has gone through 0, then 1, then the winner's pointer, as far as it has come. */
  ghost predicate HistoryOk(c: Creators, s: State)
  {
    && 1 <= |s.history| <= 3
    && s.history[0] == Message(EMPTY, {})
    && (|s.history| == 1 ==> s.creations == [])
    && (|s.history| >= 2 ==>
          && |s.creations| == 1 && s.creations[0] in c
          && s.history[1] == Message(CREATING, {}))
    && (|s.history| == 3 ==>
          && s.history[2].value == c[s.creations[0]].result
          && AllWrites(c, s.creations[0]) <= s.history[2].view)
  }

  /** Where one thread can be, given how far the word has come. */
  ghost predicate ThreadOk(c: Creators, s: State, id: ThreadId)
    requires HistoryOk(c, s) && id in s.threads && id in c
  {
    var t := s.threads[id];
    var won := s.creations == [id];
    && t.seen < |s.history|
    && match t.pc
       case Idle | FirstLoad | CompareAndSwap => true
       case Spin => t.seen >= 1 && !(won && |s.history| == 2)
       case Create(done) => won && |s.history| == 2 && done <= c[id].writes && WritesOf(id, done) <= t.view
       case Publish(r) => won && |s.history| == 2 && r == c[id].result && AllWrites(c, id) <= t.view
       case Register(r) => won && |s.history| == 3 && r == c[id].result && AllWrites(c, id) <= t.view
       case LastLoad => t.seen == 2
  }

  /** The winner is inside the creator or about to publish exactly while the word says so. */
  ghost predicate WinnerOk(c: Creators, s: State)
    requires HistoryOk(c, s) && s.threads.Keys == c.Keys
  {
    && (|s.history| == 2 ==> var pc := s.threads[s.creations[0]].pc; pc.Create? || pc.Publish?)
    && (|s.history| < 3 ==> s.registered == [] && s.results == [])
    && (|s.history| == 3 ==>
          s.registered == if s.threads[s.creations[0]].pc.Register? || !c[s.creations[0]].destructor
                          then [] else s.creations)
  }

  ghost predicate ReturnsOk(c: Creators, s: State)
    requires HistoryOk(c, s) && s.threads.Keys == c.Keys
  {
    forall r | r in s.results ::
      && r.thread in c && |s.history| == 3
      && r.value == c[s.creations[0]].result
      && AllWrites(c, s.creations[0]) <= s.threads[r.thread].view
      && (r.thread == s.creations[0] && c[r.thread].destructor ==> s.registered == s.creations)
  }

  ghost predicate Inv(c: Creators, s: State)
  {
    && HistoryOk(c, s)
    && s.threads.Keys == c.Keys
    && (forall id | id in c :: ThreadOk(c, s, id))
    && WinnerOk(c, s)
    && ReturnsOk(c, s)
  }

  lemma InitialInv(c: Creators)
    ensures Inv(c, Initial(c))
  {
  }

  ghost predicate InCreation(pc: Pc)
  {
    pc.Create? || pc.Publish? || pc.Register?
  }

  /** A thread moves, outside the creation, and forgets nothing. */
  lemma MoveKeepsInv(c: Creators, s: State, id: ThreadId, t: Thread)
    requires Inv(c, s) && id in c && !InCreation(s.threads[id].pc) && !InCreation(t.pc)
    requires s.threads[id].view <= t.view && HistoryOk(c, SetThread(s, id, t)) && ThreadOk(c, SetThread(s, id, t), id)
    ensures Inv(c, SetThread(s, id, t))
  {
    var s' := SetThread(s, id, t);
    forall other | other in c
      ensures ThreadOk(c, s', other)
    {
      assert ThreadOk(c, s, other);
    }
  }

  lemma ReturnKeepsInv(c: Creators, s: State, id: ThreadId, value: int)
    requires Inv(c, s) && id in c && |s.history| == 3 && value == s.history[2].value
    requires AllWrites(c, s.creations[0]) <= s.threads[id].view
    requires !InCreation(s.threads[id].pc)
    ensures Inv(c, s.(results := s.results + [Return(id, value)]))
  {
    var s' := s.(results := s.results + [Return(id, value)]);
    forall other | other in c
      ensures ThreadOk(c, s', other)
    {
      assert ThreadOk(c, s, other);
    }
  }

  lemma CallKeepsInv(c: Creators, s: State, id: ThreadId)
    requires Inv(c, s) && Enabled(c, s, Call(id))
    ensures Inv(c, Apply(c, s, Call(id)))
  {
    assert ThreadOk(c, s, id);
    MoveKeepsInv(c, s, id, s.threads[id].(pc := FirstLoad));
  }

  lemma LoadKeepsInv(c: Creators, s: State, id: ThreadId, m: nat)
    requires AllReal(c) && Inv(c, s) && Enabled(c, s, Load(id, m))
    ensures Inv(c, LoadStep(s, id, m))
  {
    var t := s.threads[id];
    var acquired := t.(seen := m, view := t.view + s.history[m].view);
    var value := s.history[m].value;
    assert ThreadOk(c, s, id);
    if t.pc == LastLoad || (t.pc == FirstLoad && IsCreated(value)) {
      assert m == 2;
      MoveKeepsInv(c, s, id, acquired.(pc := Idle));
      ReturnKeepsInv(c, SetThread(s, id, acquired.(pc := Idle)), id, value);
    } else if t.pc == FirstLoad {
      MoveKeepsInv(c, s, id, acquired.(pc := CompareAndSwap));
    } else {
      MoveKeepsInv(c, s, id, if value == CREATING then acquired else acquired.(pc := LastLoad));
    }
  }

  lemma SwapKeepsInv(c: Creators, s: State, id: ThreadId)
    requires AllReal(c) && Inv(c, s) && id in c && s.threads[id].pc == CompareAndSwap
    ensures Inv(c, SwapStep(s, id))
  {
    var s' := SwapStep(s, id);
    assert HistoryOk(c, s');
    forall other | other in c
      ensures ThreadOk(c, s', other)
    {
      assert ThreadOk(c, s, other);
    }
  }

  lemma CreateKeepsInv(c: Creators, s: State, id: ThreadId)
    requires Inv(c, s) && id in c && s.threads[id].pc.Create?
    ensures Inv(c, CreateStep(s, id, c[id]))
  {
    var s' := CreateStep(s, id, c[id]);
    assert ThreadOk(c, s, id);
    assert HistoryOk(c, s');
    forall other | other in c
      ensures ThreadOk(c, s', other)
    {
      assert ThreadOk(c, s, other);
    }
  }

  lemma PublishKeepsInv(c: Creators, s: State, id: ThreadId)
    requires Inv(c, s) && id in c && s.threads[id].pc.Publish?
    ensures Inv(c, PublishStep(s, id))
  {
    var s' := PublishStep(s, id);
    assert ThreadOk(c, s, id);
    assert HistoryOk(c, s');
    forall other | other in c
      ensures ThreadOk(c, s', other)
    {
      assert ThreadOk(c, s, other);
    }
  }

  lemma RegisterKeepsInv(c: Creators, s: State, id: ThreadId)
    requires AllReal(c) && Inv(c, s) && id in c && s.threads[id].pc.Register?
    ensures Inv(c, RegisterStep(s, id, c[id]))
  {
    var s' := RegisterStep(s, id, c[id]);
    assert ThreadOk(c, s, id);
    assert HistoryOk(c, s');
    forall other | other in c
      ensures ThreadOk(c, s', other)
    {
      assert ThreadOk(c, s, other);
    }
  }

  lemma StepKeepsInv(c: Creators, s: State, step: Step)
    requires AllReal(c) && Inv(c, s) && Enabled(c, s, step)
    ensures Inv(c, Apply(c, s, step))
  {
    hide Inv, LoadStep, SwapStep, CreateStep, PublishStep, RegisterStep;
    match step
    case Call(id) => CallKeepsInv(c, s, id);
    case Load(id, m) => LoadKeepsInv(c, s, id, m);
    case Other(id) =>
      match s.threads[id].pc
      case CompareAndSwap => SwapKeepsInv(c, s, id);
      case Create(_) => CreateKeepsInv(c, s, id);
      case Publish(_) => PublishKeepsInv(c, s, id);
      case Register(_) => RegisterKeepsInv(c, s, id);
  }

  lemma {:induction false} RunKeepsInv(c: Creators, s: State, steps: seq<Step>, s': State)
    requires AllReal(c) && Inv(c, s) && Runs(c, s, steps, s')
    ensures Inv(c, s')
    decreases |steps|
  {
    hide Inv, Enabled, Apply;
    if steps != [] {
      StepKeepsInv(c, s, steps[0]);
      RunKeepsInv(c, Apply(c, s, steps[0]), steps[1..], s');
    }
  }

  lemma ReachableInv(c: Creators, s: State)
    requires AllReal(c) && Reachable(c, s)
    ensures Inv(c, s)
  {
    var steps :| Runs(c, Initial(c), steps, s);
    InitialInv(c);
    RunKeepsInv(c, Initial(c), steps, s);
  }

  // ----- What every interleaving guarantees -----

  /** At most one thread is ever creating, and only one ever was. */
  lemma CreatedOnce(c: Creators, s: State, t: ThreadId, u: ThreadId)
    requires AllReal(c) && Reachable(c, s) && t in c && u in c
    ensures Inv(c, s) && |s.creations| <= 1
    ensures InCreation(s.threads[t].pc) && InCreation(s.threads[u].pc) ==> t == u
  {
    ReachableInv(c, s);
    assert ThreadOk(c, s, t) && ThreadOk(c, s, u);
  }

  /** Every call that has returned gave the pointer of the one creation, and its thread sees
      all that the constructor wrote. */
  lemma ReturnsTheInstance(c: Creators, s: State, r: Return)
    requires AllReal(c) && Reachable(c, s) && r in s.results
    ensures |s.creations| == 1 && s.creations[0] in c && r.thread in s.threads
    ensures r.value == c[s.creations[0]].result && IsCreated(r.value)
    ensures forall k | 0 <= k < c[s.creations[0]].writes :: Write(s.creations[0], k) in s.threads[r.thread].view
  {
    ReachableInv(c, s);
    var winner := s.creations[0];
    forall k | 0 <= k < c[winner].writes
      ensures Write(winner, k) in s.threads[r.thread].view
    {
      assert Write(winner, k) in AllWrites(c, winner);
    }
  }

  /** At most one destructor is registered, and by the time the winner's call has returned it is. */
  lemma RegisteredOnce(c: Creators, s: State)
    requires AllReal(c) && Reachable(c, s)
    ensures |s.registered| <= 1 && s.registered <= s.creations
    ensures forall r | r in s.results && s.creations == [r.thread] ::
      r.thread in c && s.registered == if c[r.thread].destructor then s.creations else []
  {
    ReachableInv(c, s);
  }

  // ----- Exactly when the guarantee holds -----

  /** In every interleaving there is at most one creation, and no call returns 0 or 1. */
  ghost predicate Safe(c: Creators)
  {
    forall s | Reachable(c, s) :: |s.creations| <= 1 && forall r | r in s.results :: IsCreated(r.value)
  }

  lemma {:induction false} RunsAppend(c: Creators, s: State, steps: seq<Step>, middle: State, step: Step)
    requires Runs(c, s, steps, middle) && middle.history != [] && Enabled(c, middle, step)
    ensures Runs(c, s, steps + [step], Apply(c, middle, step))
    decreases |steps|
  {
    hide Enabled, Apply;
    if steps == [] {
      assert [step][1..] == [];
    } else {
      assert (steps + [step])[1..] == steps[1..] + [step];
      RunsAppend(c, Apply(c, s, steps[0]), steps[1..], middle, step);
    }
  }

  /** A thread in its creator can go through it alone, and then holds the result. */
  lemma {:induction false} CreatorAlone(c: Creators, from: State, steps: seq<Step>, s: State, id: ThreadId)
    returns (steps': seq<Step>, s': State)
    requires Runs(c, from, steps, s) && s.history != [] && id in c && id in s.threads
    requires s.threads[id].pc.Create? && s.threads[id].pc.done <= c[id].writes
    ensures Runs(c, from, steps', s') && s'.history == s.history && s'.creations == s.creations
    ensures id in s'.threads && s'.threads[id].pc == Publish(c[id].result)
    ensures s'.results == s.results && s'.threads == s.threads[id := s'.threads[id]]
    decreases c[id].writes - s.threads[id].pc.done
  {
    hide Runs;
    RunsAppend(c, from, steps, s, Other(id));
    steps', s' := steps + [Other(id)], Apply(c, s, Other(id));
    if s'.threads[id].pc.Create? {
      steps', s' := CreatorAlone(c, from, steps', s', id);
    }
  }

  /** A thread that calls alone while the word is 0 creates, gets whatever its creator returns, null
      or not, and leaves that in the word. */
  lemma CallAlone(c: Creators, from: State, steps: seq<Step>, s: State, id: ThreadId)
    returns (steps': seq<Step>, s': State)
    requires Runs(c, from, steps, s) && s.history != [] && s.history[|s.history| - 1].value == EMPTY
    requires id in c && id in s.threads && s.threads[id].pc == Idle && s.threads[id].seen < |s.history|
    ensures Runs(c, from, steps', s') && s'.creations == s.creations + [id]
    ensures Return(id, c[id].result) in s'.results
    ensures s'.history != [] && s'.history[|s'.history| - 1].value == c[id].result
    ensures id in s'.threads && s'.threads[id].pc == Idle && s'.threads[id].seen < |s'.history|
  {
    hide Runs;
    steps', s' := steps, s;
    RunsAppend(c, from, steps', s', Call(id));
    steps', s' := steps' + [Call(id)], Apply(c, s', Call(id));
    var newest := Load(id, |s.history| - 1);
    RunsAppend(c, from, steps', s', newest);
    steps', s' := steps' + [newest], Apply(c, s', newest);
    RunsAppend(c, from, steps', s', Other(id));
    steps', s' := steps' + [Other(id)], Apply(c, s', Other(id));
    steps', s' := CreatorAlone(c, from, steps', s', id);
    RunsAppend(c, from, steps', s', Other(id));
    steps', s' := steps' + [Other(id)], Apply(c, s', Other(id));
    RunsAppend(c, from, steps', s', Other(id));
    steps', s' := steps' + [Other(id)], Apply(c, s', Other(id));
  }

  lemma EmptyRun(c: Creators, s: State)
    ensures Runs(c, s, [], s)
  {
  }

  /** The guarantee holds exactly when no creator returns null (or the creating mark). */
  lemma SafeIffAllReal(c: Creators)
    ensures Safe(c) <==> AllReal(c)
  {
    hide Inv, Reachable;
    if AllReal(c) {
      forall s | Reachable(c, s)
        ensures |s.creations| <= 1 && forall r | r in s.results :: IsCreated(r.value)
      {
        SafeState(c, s);
      }
    } else {
      var id :| id in c && !IsCreated(c[id].result);
      EmptyRun(c, Initial(c));
      var steps, s := CallAlone(c, Initial(c), [], Initial(c), id);
      assert Reachable(c, s) by { IsReachable(c, steps, s); }
      assert !Safe(c);
    }
  }

  lemma SafeState(c: Creators, s: State)
    requires AllReal(c) && Reachable(c, s)
    ensures |s.creations| <= 1 && forall r | r in s.results :: IsCreated(r.value)
  {
    ReachableInv(c, s);
  }

  lemma IsReachable(c: Creators, steps: seq<Step>, s: State)
    requires Runs(c, Initial(c), steps, s)
    ensures Reachable(c, s)
  {
  }

  // ----- Nobody is left waiting -----

  /** The steps of a call, from where it is to its return, that reads the word as it is now. */
  function WayOut(pc: Pc, id: ThreadId, newest: nat): seq<Step>
    requires !(pc.Create? || pc.Publish? || pc.Register?)
  {
    match pc
    case Idle => [Call(id), Load(id, newest)]
    case CompareAndSwap => [Other(id), Load(id, newest), Load(id, newest)]
    case Spin => [Load(id, newest), Load(id, newest)]
    case _ => [Load(id, newest)]
  }

  /** Once the word holds a pointer, a new caller has it after one load, a thread that waits after
      two, and every other call that is not creating itself as soon. */
  lemma {:induction false} PointerIsReturned(c: Creators, s: State, id: ThreadId) returns (s': State)
    requires id in c && id in s.threads && !InCreation(s.threads[id].pc)
    requires s.history != [] && IsCreated(s.history[|s.history| - 1].value) && s.threads[id].seen < |s.history|
    ensures Runs(c, s, WayOut(s.threads[id].pc, id, |s.history| - 1), s')
    ensures s'.results == s.results + [Return(id, s.history[|s.history| - 1].value)]
    ensures s'.threads.Keys == s.threads.Keys && s'.threads[id].pc == Idle
    decreases |WayOut(s.threads[id].pc, id, |s.history| - 1)|
  {
    var pc, steps := s.threads[id].pc, WayOut(s.threads[id].pc, id, |s.history| - 1);
    s' := Apply(c, s, steps[0]);
    if |steps| == 1 {
      EmptyRun(c, s');
      assert steps[1..] == [];
    } else {
      hide Runs;
      var next := s';
      s' := PointerIsReturned(c, next, id);
      assert steps[1..] == WayOut(next.threads[id].pc, id, |s.history| - 1);
      RunsFirst(c, s, steps, s');
    }
  }

  lemma RunsFirst(c: Creators, s: State, steps: seq<Step>, s': State)
    requires steps != [] && s.history != [] && Enabled(c, s, steps[0])
    requires Runs(c, Apply(c, s, steps[0]), steps[1..], s')
    ensures Runs(c, s, steps, s')
  {
  }

  lemma {:induction false} RunsJoin(c: Creators, s: State, steps: seq<Step>, middle: State, more: seq<Step>, s': State)
    requires Runs(c, s, steps, middle) && Runs(c, middle, more, s')
    ensures Runs(c, s, steps + more, s')
    decreases |steps|
  {
    hide Enabled, Apply;
    if steps == [] {
      assert steps + more == more;
    } else {
      assert (steps + more)[1..] == steps[1..] + more;
      RunsJoin(c, Apply(c, s, steps[0]), steps[1..], middle, more, s');
    }
  }

  /** A thread that is creating can publish alone. */
  lemma PublishAlone(c: Creators, s: State, id: ThreadId) returns (steps: seq<Step>, s': State)
    requires Inv(c, s) && id in c && (s.threads[id].pc.Create? || s.threads[id].pc.Publish?)
    ensures Runs(c, s, steps, s') && s'.results == s.results && id in s'.threads
    ensures s'.threads == s.threads[id := s'.threads[id]] && s'.threads[id].pc == Register(c[id].result)
    ensures s'.history != [] && s'.history[|s'.history| - 1].value == c[id].result && |s.history| <= |s'.history|
  {
    EmptyRun(c, s);
    steps, s' := [], s;
    assert ThreadOk(c, s, id);
    hide Runs;
    if s.threads[id].pc.Create? {
      steps, s' := CreatorAlone(c, s, steps, s', id);
    }
    hide Inv;
    RunsAppend(c, s, steps, s', Other(id));
    steps, s' := steps + [Other(id)], Apply(c, s', Other(id));
  }

  /** A thread at the swap that finds the word at 0 wins. */
  lemma ReachesSwap(c: Creators, s: State, id: ThreadId) returns (steps: seq<Step>, s': State)
    requires Inv(c, s) && id in c && |s.history| == 1
    ensures Runs(c, s, steps, s') && s'.results == s.results
    ensures id in s'.threads && s'.threads[id].pc == Create(0)
  {
    EmptyRun(c, s);
    steps, s' := [], s;
    assert ThreadOk(c, s, id);
    hide Runs, Inv;
    if s'.threads[id].pc == Idle {
      RunsAppend(c, s, steps, s', Call(id));
      steps, s' := steps + [Call(id)], Apply(c, s', Call(id));
    }
    if s'.threads[id].pc == FirstLoad {
      RunsAppend(c, s, steps, s', Load(id, 0));
      steps, s' := steps + [Load(id, 0)], Apply(c, s', Load(id, 0));
    }
    RunsAppend(c, s, steps, s', Other(id));
    steps, s' := steps + [Other(id)], Apply(c, s', Other(id));
  }

  /** From every reachable state every thread can come to its return: nobody waits for ever unless
      the creating thread stands still. */
  lemma NobodyIsStuck(c: Creators, s: State, id: ThreadId) returns (steps: seq<Step>, s': State)
    requires AllReal(c) && Reachable(c, s) && id in c
    ensures Runs(c, s, steps, s') && s.results <= s'.results && |s.results| < |s'.results|
    ensures s'.results[|s'.results| - 1].thread == id && id in s'.threads && s'.threads[id].pc == Idle
  {
    hide Runs, Reachable;
    ReachableInv(c, s);
    EmptyRun(c, s);
    steps, s' := [], s;
    if |s.history| == 1 {
      steps, s' := ReachesSwap(c, s, id);
      RunKeepsInv(c, s, steps, s');
    }
    if |s'.history| == 2 {
      var more, published := PublishAlone(c, s', s'.creations[0]);
      RunsJoin(c, s, steps, s', more, published);
      steps, s' := steps + more, published;
      RunKeepsInv(c, s, steps, s');
    }
    assert ThreadOk(c, s', id);
    var from := s';
    hide Inv, AllReal, ThreadOk, HistoryOk;
    if from.threads[id].pc.Register? {
      RunsAppend(c, s, steps, from, Other(id));
      steps, s' := steps + [Other(id)], Apply(c, from, Other(id));
    } else {
      s' := PointerIsReturned(c, from, id);
      var more := WayOut(from.threads[id].pc, id, |from.history| - 1);
      RunsJoin(c, s, steps, from, more, s');
      steps := steps + more;
    }
  }

  // ----- Exactly when there is one construction -----

  ghost predicate OneCreation(c: Creators)
  {
    forall s | Reachable(c, s) :: |s.creations| <= 1
  }

  ghost predicate NoneNull(c: Creators)
  {
    forall id | id in c :: c[id].result != EMPTY
  }

  /** The word has left 0 for good once a thread has won, whatever is published. */
  ghost predicate LeftForGood(c: Creators, s: State)
  {
    && s.history != [] && |s.creations| <= 1
    && (s.creations == [] <==> s.history[|s.history| - 1].value == EMPTY)
    && (forall id | id in s.threads && s.threads[id].pc.Publish? :: s.threads[id].pc.result != EMPTY)
    && forall id | id in s.threads && InCreation(s.threads[id].pc) :: s.creations != []
  }

  lemma StepLeavesForGood(c: Creators, s: State, step: Step)
    requires NoneNull(c) && LeftForGood(c, s) && Enabled(c, s, step)
    ensures LeftForGood(c, Apply(c, s, step))
  {
  }

  lemma {:induction false} RunLeavesForGood(c: Creators, s: State, steps: seq<Step>, s': State)
    requires NoneNull(c) && LeftForGood(c, s) && Runs(c, s, steps, s')
    ensures LeftForGood(c, s')
    decreases |steps|
  {
    hide LeftForGood, Enabled, Apply, NoneNull;
    if steps != [] {
      StepLeavesForGood(c, s, steps[0]);
      RunLeavesForGood(c, Apply(c, s, steps[0]), steps[1..], s');
    }
  }

  /** Two constructions by a thread whose creator returns null: the first resets the word. */
  lemma NullCreatesTwice(c: Creators, id: ThreadId) returns (s: State)
    requires id in c && c[id].result == EMPTY
    ensures Reachable(c, s) && s.creations == [id, id]
  {
    hide Runs;
    var start := Initial(c);
    EmptyRun(c, start);
    var steps, once := CallAlone(c, start, [], start, id);
    steps, s := CallAlone(c, start, steps, once, id);
    IsReachable(c, steps, s);
  }

  /** In all interleavings there is at most one construction if and only if no creator returns
      null. A creator that returns the creating mark leaves the word stuck, but creates once. */
  lemma OneCreationIffNoneNull(c: Creators)
    ensures OneCreation(c) <==> NoneNull(c)
  {
    if NoneNull(c) {
      forall s | Reachable(c, s)
        ensures |s.creations| <= 1
      {
        var steps :| Runs(c, Initial(c), steps, s);
        RunLeavesForGood(c, Initial(c), steps, s);
      }
    } else {
      var id :| id in c && c[id].result == EMPTY;
      var s := NullCreatesTwice(c, id);
      assert Reachable(c, s) && |s.creations| == 2;
    }
  }
}
