/** base/observer_list_threadsafe.h: notifications posted as tasks to the sequences of the
    observers. Threads are interleaved at every section that holds the lock, and every task a
    thread runs may run others inside it (nested loops). */
module ObserverListThreadSafe {
  import opened Optional

  type ListId = nat
  type Observer = nat
  type Sequence = nat
  type ThreadId = nat

  datatype Policy = All | ExistingOnly

  /** An observer in a list. */
  datatype Key = Key(list: ListId, observer: Observer)

  /** One call of Notify: the list it is for and its number. */
  datatype Notification = Notification(list: ListId, number: nat)

  /** A NotifyWrapper posted to a sequence. */
  datatype Task = Task(key: Key, notification: Notification, sequence: Sequence)

  datatype Status = Pending | Delivered | Dropped

  datatype Posted = Posted(task: Task, status: Status)

  /** A task being run: an ordinary one, or a NotifyWrapper past its check, which keeps the
      notification and the previous one that it has to put back. */
  datatype Frame =
    | Plain(sequence: Sequence)
    | Dispatch(sequence: Sequence, notification: Notification, previous: Option<Notification>)

  /** `current` is tls_current_notification_. */
  datatype Thread = Thread(frames: seq<Frame>, current: Option<Notification>)

  /** A callback that started: the task, the sequence it ran on, and the registration that the
      locked check found. */
  datatype Callback = Callback(task: nat, sequence: Sequence, registeredOn: Sequence)

  datatype State = State(
    registered: map<Key, Sequence>,
    tasks: seq<Posted>,
    threads: map<ThreadId, Thread>,
    callbacks: seq<Callback>,
    notifications: nat)

  datatype Step =
    | Enter(thread: ThreadId, sequence: Sequence)
    | Add(thread: ThreadId, key: Key)
    | Remove(key: Key)
    | Notify(list: ListId, order: seq<Observer>)
    | RunTask(thread: ThreadId, task: nat)
    | Leave(thread: ThreadId)

  type Policies = map<ListId, Policy>

  function Initial(threads: set<ThreadId>): State
  {
    State(map[], [], map t | t in threads :: Thread([], None), [], 0)
  }

  /** SequencedTaskRunnerHandle: the sequence of the task a thread is running. */
  function CurrentSequence(t: Thread): Option<Sequence>
  {
    if t.frames == [] then None else Some(t.frames[|t.frames| - 1].sequence)
  }

  /** The map's iteration order: every observer of the list, once. */
  ghost predicate Enumerates(order: seq<Observer>, registered: map<Key, Sequence>, list: ListId)
  {
    && (forall i, j | 0 <= i < j < |order| :: order[i] != order[j])
    && (forall o :: o in order <==> Key(list, o) in registered)
  }

  ghost predicate Enabled(s: State, step: Step)
  {
    match step
    case Enter(t, _) => t in s.threads
    case Add(t, key) => t in s.threads && key !in s.registered
    case Remove(_) => true
    case Notify(list, order) => Enumerates(order, s.registered, list)
    case RunTask(t, k) => t in s.threads && k < |s.tasks| && s.tasks[k].status == Pending
    case Leave(t) => t in s.threads && s.threads[t].frames != []
  }

  function Push(t: Thread, f: Frame): Thread { t.(frames := t.frames + [f]) }

  function Post(s: State, task: Task): State { s.(tasks := s.tasks + [Posted(task, Pending)]) }

  /** AddObserver: nothing without a sequence; under ALL, a replay of the notification being
      dispatched on this thread, if it is this list's. */
  function AddStep(policies: Policies, s: State, t: Thread, key: Key): State
  {
    match CurrentSequence(t)
    case None => s
    case Some(sequence) =>
      var added := s.(registered := s.registered[key := sequence]);
      if key.list in policies && policies[key.list] == All && t.current.Some? && t.current.value.list == key.list
      then Post(added, Task(key, t.current.value, sequence))
      else added
  }

  /** The tasks that Notify posts for the observers of `order`. */
  function TasksFor(registered: map<Key, Sequence>, n: Notification, order: seq<Observer>): (r: seq<Posted>)
    requires forall i | 0 <= i < |order| :: Key(n.list, order[i]) in registered
    ensures |r| == |order|
    ensures forall i | 0 <= i < |order| ::
      r[i] == Posted(Task(Key(n.list, order[i]), n, registered[Key(n.list, order[i])]), Pending)
  {
    seq(|order|, i requires 0 <= i < |order| =>
      Posted(Task(Key(n.list, order[i]), n, registered[Key(n.list, order[i])]), Pending))
  }

  /** The loop of Notify, under the lock. */
  method PostNotifications(registered: map<Key, Sequence>, n: Notification, order: seq<Observer>) returns (r: seq<Posted>)
    requires forall i | 0 <= i < |order| :: Key(n.list, order[i]) in registered
    ensures r == TasksFor(registered, n, order)
  {
    r := [];
    for i := 0 to |order|
      invariant r == TasksFor(registered, n, order)[..i]
    {
      var key := Key(n.list, order[i]);
      r := r + [Posted(Task(key, n, registered[key]), Pending)];
    }
  }

  /** NotifyWrapper up to the callback: an observer no longer registered gets nothing. */
  function RunStep(s: State, id: ThreadId, k: nat): State
    requires id in s.threads && k < |s.tasks|
  {
    var task, t := s.tasks[k].task, s.threads[id];
    if task.key !in s.registered then
      s.(tasks := s.tasks[k := Posted(task, Dropped)])
    else
      s.(tasks := s.tasks[k := Posted(task, Delivered)],
         threads := s.threads[id := Push(t, Dispatch(task.sequence, task.notification, t.current))
                                    .(current := Some(task.notification))],
         callbacks := s.callbacks + [Callback(k, task.sequence, s.registered[task.key])])
  }

  /** The end of a task; a NotifyWrapper puts the previous notification back. */
  function Pop(t: Thread): Thread
    requires t.frames != []
  {
    var top := t.frames[|t.frames| - 1];
    Thread(t.frames[..|t.frames| - 1], if top.Dispatch? then top.previous else t.current)
  }

  function Apply(policies: Policies, s: State, step: Step): State
    requires Enabled(s, step)
  {
    match step
    case Enter(t, sequence) => s.(threads := s.threads[t := Push(s.threads[t], Plain(sequence))])
    case Add(t, key) => AddStep(policies, s, s.threads[t], key)
    case Remove(key) => s.(registered := s.registered - {key})
    case Notify(list, order) =>
      s.(tasks := s.tasks + TasksFor(s.registered, Notification(list, s.notifications), order),
         notifications := s.notifications + 1)
    case RunTask(t, k) => RunStep(s, t, k)
    case Leave(t) => s.(threads := s.threads[t := Pop(s.threads[t])])
  }

  ghost predicate Runs(policies: Policies, s: State, steps: seq<Step>, s': State)
    decreases |steps|
  {
    if steps == [] then s == s'
    else Enabled(s, steps[0]) && Runs(policies, Apply(policies, s, steps[0]), steps[1..], s')
  }

  ghost predicate Reachable(policies: Policies, threads: set<ThreadId>, s: State)
  {
    exists steps :: Runs(policies, Initial(threads), steps, s)
  }

  // ----- The thread-local notification is a stack -----

  /** The notification of the innermost dispatch. */
  function Innermost(frames: seq<Frame>): Option<Notification>
  {
    if frames == [] then None
    else if frames[|frames| - 1].Dispatch? then Some(frames[|frames| - 1].notification)
    else Innermost(frames[..|frames| - 1])
  }

  ghost predicate StackOk(t: Thread)
  {
    && t.current == Innermost(t.frames)
    && forall i | 0 <= i < |t.frames| && t.frames[i].Dispatch? :: t.frames[i].previous == Innermost(t.frames[..i])
  }

  lemma PushKeepsStack(t: Thread, f: Frame)
    requires StackOk(t) && (f.Dispatch? ==> f.previous == t.current)
    ensures StackOk(Push(t, f).(current := if f.Dispatch? then Some(f.notification) else t.current))
  {
    var r := t.frames + [f];
    assert r[..|t.frames|] == t.frames;
    forall i | 0 <= i < |r| && r[i].Dispatch?
      ensures r[i].previous == Innermost(r[..i])
    {
      assert i < |t.frames| ==> r[..i] == t.frames[..i];
    }
  }

  lemma PopKeepsStack(t: Thread)
    requires StackOk(t) && t.frames != []
    ensures StackOk(Pop(t))
  {
    var r := t.frames[..|t.frames| - 1];
    forall i | 0 <= i < |r| && r[i].Dispatch?
      ensures r[i].previous == Innermost(r[..i])
    {
      assert r[..i] == t.frames[..i];
    }
  }

  // ----- Tasks and callbacks -----

  /** Every delivered task has one callback, every other none, and no two callbacks one task. */
  ghost predicate CallbacksOk(s: State)
  {
    && (forall c | 0 <= c < |s.callbacks| ::
          && s.callbacks[c].task < |s.tasks|
          && s.tasks[s.callbacks[c].task].status == Delivered
          && s.callbacks[c].sequence == s.tasks[s.callbacks[c].task].task.sequence)
    && (forall c, d | 0 <= c < d < |s.callbacks| :: s.callbacks[c].task != s.callbacks[d].task)
    && (forall k | 0 <= k < |s.tasks| && s.tasks[k].status == Delivered :: HasCallback(s, k))
  }

  ghost predicate HasCallback(s: State, k: nat)
  {
    exists c | 0 <= c < |s.callbacks| :: s.callbacks[c].task == k
  }

  ghost predicate Inv(s: State)
  {
    && (forall t | t in s.threads :: StackOk(s.threads[t]))
    && CallbacksOk(s)
  }

  lemma MoreTasksKeepCallbacks(s: State, s': State)
    requires CallbacksOk(s) && s.tasks <= s'.tasks && s'.callbacks == s.callbacks
    requires forall k | |s.tasks| <= k < |s'.tasks| :: s'.tasks[k].status == Pending
    ensures CallbacksOk(s')
  {
    forall k | 0 <= k < |s'.tasks| && s'.tasks[k].status == Delivered
      ensures HasCallback(s', k)
    {
      assert k < |s.tasks| && s.tasks[k] == s'.tasks[k];
      assert HasCallback(s, k);
      var c :| 0 <= c < |s.callbacks| && s.callbacks[c].task == k;
      assert s'.callbacks[c].task == k;
    }
  }

  lemma RunKeepsCallbacks(s: State, id: ThreadId, k: nat)
    requires CallbacksOk(s) && id in s.threads && k < |s.tasks| && s.tasks[k].status == Pending
    ensures CallbacksOk(RunStep(s, id, k))
  {
    var s' := RunStep(s, id, k);
    forall j | 0 <= j < |s'.tasks| && s'.tasks[j].status == Delivered
      ensures HasCallback(s', j)
    {
      if j == k {
        assert s'.callbacks[|s.callbacks|].task == k;
      } else {
        assert HasCallback(s, j);
        var c :| 0 <= c < |s.callbacks| && s.callbacks[c].task == j;
        assert s'.callbacks[c].task == j;
      }
    }
  }

  lemma StepKeepsInv(policies: Policies, s: State, step: Step)
    requires Inv(s) && Enabled(s, step)
    ensures Inv(Apply(policies, s, step))
  {
    hide StackOk, CallbacksOk, Enumerates;
    var s' := Apply(policies, s, step);
    match step
    case Enter(t, q) =>
      PushKeepsStack(s.threads[t], Plain(q));
      MoreTasksKeepCallbacks(s, s');
    case Add(t, key) =>
      MoreTasksKeepCallbacks(s, s');
    case Remove(_) =>
      MoreTasksKeepCallbacks(s, s');
    case Notify(_, _) =>
      MoreTasksKeepCallbacks(s, s');
    case RunTask(t, k) =>
      var task := s.tasks[k].task;
      PushKeepsStack(s.threads[t], Dispatch(task.sequence, task.notification, s.threads[t].current));
      RunKeepsCallbacks(s, t, k);
    case Leave(t) =>
      PopKeepsStack(s.threads[t]);
      MoreTasksKeepCallbacks(s, s');
  }

  lemma {:induction false} RunKeepsInv(policies: Policies, s: State, steps: seq<Step>, s': State)
    requires Inv(s) && Runs(policies, s, steps, s')
    ensures Inv(s')
    decreases |steps|
  {
    hide Inv, Enabled, Apply;
    if steps != [] {
      StepKeepsInv(policies, s, steps[0]);
      RunKeepsInv(policies, Apply(policies, s, steps[0]), steps[1..], s');
    }
  }

  lemma ReachableInv(policies: Policies, threads: set<ThreadId>, s: State)
    requires Reachable(policies, threads, s)
    ensures Inv(s)
  {
    hide Runs;
    var steps :| Runs(policies, Initial(threads), steps, s);
    assert Inv(Initial(threads));
    RunKeepsInv(policies, Initial(threads), steps, s);
  }

  // ----- What every interleaving guarantees -----

  /** A task, once posted, stays posted to its sequence, and once delivered or dropped it stays so. */
  lemma {:induction false} TasksSettleOnce(policies: Policies, s: State, steps: seq<Step>, s': State, k: nat)
    requires Runs(policies, s, steps, s') && k < |s.tasks|
    ensures k < |s'.tasks| && s'.tasks[k].task == s.tasks[k].task
    ensures s.tasks[k].status != Pending ==> s'.tasks[k] == s.tasks[k]
    decreases |steps|
  {
    hide Enumerates;
    if steps != [] {
      var middle := Apply(policies, s, steps[0]);
      assert k < |middle.tasks| && middle.tasks[k].task == s.tasks[k].task;
      TasksSettleOnce(policies, middle, steps[1..], s', k);
    }
  }

  /** In every reachable state the callbacks are those of the delivered tasks, one each. */
  lemma OneCallbackPerDelivery(policies: Policies, threads: set<ThreadId>, s: State, k: nat)
    requires Reachable(policies, threads, s) && k < |s.tasks|
    ensures s.tasks[k].status == Delivered <==> HasCallback(s, k)
    ensures forall c, d | 0 <= c < |s.callbacks| && 0 <= d < |s.callbacks|
                          && s.callbacks[c].task == k && s.callbacks[d].task == k :: c == d
  {
    hide Reachable;
    ReachableInv(policies, threads, s);
  }

  /** Notify posts one task for every observer registered then, to the sequence it registered on,
      and no other. */
  lemma NotifyPostsOnePerObserver(policies: Policies, s: State, list: ListId, order: seq<Observer>, o: Observer)
    requires Enabled(s, Notify(list, order))
    ensures
      var s' := Apply(policies, s, Notify(list, order));
      var task := Task(Key(list, o), Notification(list, s.notifications), if Key(list, o) in s.registered then s.registered[Key(list, o)] else 0);
      && s.tasks <= s'.tasks && |s'.tasks| == |s.tasks| + |order|
      && (forall k | |s.tasks| <= k < |s'.tasks| :: s'.tasks[k].status == Pending && s'.tasks[k].task.key in s.registered)
      && (Key(list, o) in s.registered ==>
            exists k | |s.tasks| <= k < |s'.tasks| ::
              && s'.tasks[k].task == task
              && forall j | |s.tasks| <= j < |s'.tasks| && j != k :: s'.tasks[j].task.key != Key(list, o))
      && (Key(list, o) !in s.registered ==>
            forall j | |s.tasks| <= j < |s'.tasks| :: s'.tasks[j].task.key != Key(list, o))
  {
    var n := Notification(list, s.notifications);
    var added := TasksFor(s.registered, n, order);
    var s' := Apply(policies, s, Notify(list, order));
    assert forall j | |s.tasks| <= j < |s'.tasks| :: s'.tasks[j] == added[j - |s.tasks|];
    assert forall i | 0 <= i < |order| :: order[i] in order;
    if Key(list, o) in s.registered {
      assert o in order;
      var i :| 0 <= i < |order| && order[i] == o;
      var k := |s.tasks| + i;
      assert s'.tasks[k] == added[i];
      forall j | |s.tasks| <= j < |s'.tasks| && j != k
        ensures s'.tasks[j].task.key != Key(list, o)
      {
        assert s'.tasks[j] == added[j - |s.tasks|];
        assert order[j - |s.tasks|] != order[i];
      }
    }
  }

  /** A callback starts only in a NotifyWrapper whose locked check found the observer. */
  lemma CallbackOnlyIfRegistered(policies: Policies, s: State, step: Step)
    requires Enabled(s, step) && Apply(policies, s, step).callbacks != s.callbacks
    ensures step.RunTask? && s.tasks[step.task].task.key in s.registered
    ensures Apply(policies, s, step).callbacks
         == s.callbacks + [Callback(step.task, s.tasks[step.task].task.sequence, s.registered[s.tasks[step.task].task.key])]
  {
  }

  /** Whatever the steps are, as long as the observer is not added again it is not called. */
  lemma {:induction false} AbsentIsNotCalled(policies: Policies, s: State, steps: seq<Step>, s': State, key: Key)
    requires Runs(policies, s, steps, s') && key !in s.registered
    requires forall i | 0 <= i < |steps| :: !(steps[i].Add? && steps[i].key == key)
    ensures key !in s'.registered && s.callbacks <= s'.callbacks
    ensures forall c | |s.callbacks| <= c < |s'.callbacks| ::
      s'.callbacks[c].task < |s'.tasks| && s'.tasks[s'.callbacks[c].task].task.key != key
    decreases |steps|
  {
    if steps != [] {
      var middle := Apply(policies, s, steps[0]);
      assert key !in middle.registered by { assert !(steps[0].Add? && steps[0].key == key); }
      if middle.callbacks != s.callbacks {
        CallbackOnlyIfRegistered(policies, s, steps[0]);
        TasksSettleOnce(policies, middle, steps[1..], s', steps[0].task);
      }
      hide Apply, Enabled;
      AbsentIsNotCalled(policies, middle, steps[1..], s', key);
    }
  }

  /** From its removal on an observer is not called, unless it is added again: tasks posted for it
      before are dropped. */
  lemma RemovedIsNotCalled(policies: Policies, s: State, steps: seq<Step>, s': State, key: Key)
    requires steps != [] && steps[0] == Remove(key) && Runs(policies, s, steps, s')
    requires forall i | 0 <= i < |steps| :: !(steps[i].Add? && steps[i].key == key)
    ensures key !in s'.registered && s.callbacks <= s'.callbacks
    ensures forall c | |s.callbacks| <= c < |s'.callbacks| ::
      s'.callbacks[c].task < |s'.tasks| && s'.tasks[s'.callbacks[c].task].task.key != key
  {
    AbsentIsNotCalled(policies, Apply(policies, s, steps[0]), steps[1..], s', key);
  }

  lemma StepKeepsRegistration(policies: Policies, s: State, step: Step, key: Key)
    requires Enabled(s, step) && key in s.registered && step != Remove(key)
    ensures
      var s' := Apply(policies, s, step);
      key in s'.registered && s'.registered[key] == s.registered[key]
  {
    hide Enumerates, TasksFor;
  }

  /** An observer that nobody removes stays registered, on the sequence that added it. */
  lemma {:induction false} RegistrationStays(policies: Policies, s: State, steps: seq<Step>, s': State, key: Key)
    requires Runs(policies, s, steps, s') && key in s.registered && Remove(key) !in steps
    ensures key in s'.registered && s'.registered[key] == s.registered[key]
    decreases |steps|
  {
    hide Apply, Enabled;
    if steps != [] {
      StepKeepsRegistration(policies, s, steps[0], key);
      RegistrationStays(policies, Apply(policies, s, steps[0]), steps[1..], s', key);
    }
  }

  ghost predicate RunsTask(steps: seq<Step>, k: nat)
  {
    exists i | 0 <= i < |steps| :: steps[i].RunTask? && steps[i].task == k
  }

  /** A notification posted for an observer that nobody removes is never dropped, and the run of its
      task calls the observer, on the sequence the task was posted to. */
  lemma {:induction false} PendingIsDelivered(policies: Policies, s: State, steps: seq<Step>, s': State, k: nat)
    requires Runs(policies, s, steps, s') && k < |s.tasks| && s.tasks[k].status == Pending
    requires s.tasks[k].task.key in s.registered && Remove(s.tasks[k].task.key) !in steps
    ensures k < |s'.tasks| && s'.tasks[k].status == if RunsTask(steps, k) then Delivered else Pending
    ensures
      var task := s.tasks[k].task;
      RunsTask(steps, k) ==>
        exists c | |s.callbacks| <= c < |s'.callbacks| ::
          s'.callbacks[c] == Callback(k, task.sequence, s.registered[task.key])
    decreases |steps|
  {
    hide Enumerates;
    if steps != [] {
      var task, middle := s.tasks[k].task, Apply(policies, s, steps[0]);
      StepKeepsRegistration(policies, s, steps[0], task.key);
      assert s.callbacks <= middle.callbacks;
      if steps[0].RunTask? && steps[0].task == k {
        assert RunsTask(steps, k);
        TasksSettleOnce(policies, middle, steps[1..], s', k);
        CallbacksStay(policies, middle, steps[1..], s');
        assert s'.callbacks[|s.callbacks|] == Callback(k, task.sequence, s.registered[task.key]);
      } else {
        assert middle.tasks[k] == s.tasks[k];
        hide Apply, Enabled;
        RunsTaskLater(steps, k);
        PendingIsDelivered(policies, middle, steps[1..], s', k);
      }
    }
  }

  lemma RunsTaskLater(steps: seq<Step>, k: nat)
    requires steps != [] && !(steps[0].RunTask? && steps[0].task == k)
    ensures RunsTask(steps, k) == RunsTask(steps[1..], k)
  {
    if RunsTask(steps, k) {
      var i :| 0 <= i < |steps| && steps[i].RunTask? && steps[i].task == k;
      assert steps[1..][i - 1] == steps[i];
    }
    if RunsTask(steps[1..], k) {
      var i :| 0 <= i < |steps[1..]| && steps[1..][i].RunTask? && steps[1..][i].task == k;
      assert steps[i + 1] == steps[1..][i];
    }
  }

  lemma {:induction false} CallbacksStay(policies: Policies, s: State, steps: seq<Step>, s': State)
    requires Runs(policies, s, steps, s')
    ensures s.callbacks <= s'.callbacks
    decreases |steps|
  {
    hide Enumerates;
    if steps != [] {
      var middle := Apply(policies, s, steps[0]);
      assert s.callbacks <= middle.callbacks;
      hide Apply, Enabled;
      CallbacksStay(policies, middle, steps[1..], s');
    }
  }

  /** In every state of the run, the thread has at least `depth` frames. */
  ghost predicate StaysAbove(policies: Policies, s: State, steps: seq<Step>, t: ThreadId, depth: nat)
    decreases |steps|
  {
    && t in s.threads && |s.threads[t].frames| >= depth
    && (steps != [] ==>
          Enabled(s, steps[0]) && StaysAbove(policies, Apply(policies, s, steps[0]), steps[1..], t, depth))
  }

  /** A step that leaves the thread with at least `depth` frames does not touch the lowest ones. */
  lemma StepKeepsBelow(policies: Policies, s: State, step: Step, t: ThreadId, depth: nat)
    requires Enabled(s, step) && t in s.threads && |s.threads[t].frames| >= depth
    requires t in Apply(policies, s, step).threads && |Apply(policies, s, step).threads[t].frames| >= depth
    ensures Apply(policies, s, step).threads[t].frames[..depth] == s.threads[t].frames[..depth]
  {
    hide Enumerates, CurrentSequence;
  }

  lemma {:induction false} RunKeepsBelow(policies: Policies, s: State, steps: seq<Step>, s': State, t: ThreadId, depth: nat)
    requires Runs(policies, s, steps, s') && StaysAbove(policies, s, steps, t, depth)
    ensures t in s'.threads && |s'.threads[t].frames| >= depth
    ensures s'.threads[t].frames[..depth] == s.threads[t].frames[..depth]
    decreases |steps|
  {
    hide Apply, Enabled;
    if steps != [] {
      StepKeepsBelow(policies, s, steps[0], t, depth);
      RunKeepsBelow(policies, Apply(policies, s, steps[0]), steps[1..], s', t, depth);
    }
  }

  /** However the run goes on inside a dispatch, with other dispatches and tasks nested on the same
      thread and anything on others: when the thread is back at the frame of the dispatch, its
      notification is the dispatch's, and returning from it leaves the thread as it was before. */
  lemma DispatchRestores(policies: Policies, threads: set<ThreadId>, s: State, t: ThreadId, k: nat,
                         steps: seq<Step>, inside: State)
    requires Reachable(policies, threads, s) && Enabled(s, RunTask(t, k)) && s.tasks[k].task.key in s.registered
    requires Runs(policies, Apply(policies, s, RunTask(t, k)), steps, inside)
    requires StaysAbove(policies, Apply(policies, s, RunTask(t, k)), steps, t, |s.threads[t].frames| + 1)
    requires t in inside.threads && |inside.threads[t].frames| == |s.threads[t].frames| + 1
    ensures inside.threads[t].current == Some(s.tasks[k].task.notification)
    ensures Enabled(inside, Leave(t)) && Apply(policies, inside, Leave(t)).threads[t] == s.threads[t]
  {
    hide Reachable, Runs, StaysAbove;
    var dispatch := Apply(policies, s, RunTask(t, k));
    var depth := |s.threads[t].frames| + 1;
    RunKeepsBelow(policies, dispatch, steps, inside, t, depth);
    assert inside.threads[t].frames == inside.threads[t].frames[..depth]
        == dispatch.threads[t].frames[..depth] == dispatch.threads[t].frames;
    ReachableInv(policies, threads, s);
    StepKeepsInv(policies, s, RunTask(t, k));
    RunKeepsInv(policies, dispatch, steps, inside);
    assert StackOk(inside.threads[t]);
    assert inside.threads[t].frames[..|s.threads[t].frames|] == s.threads[t].frames;
  }

  /** AddObserver under ALL posts one replay exactly when the innermost dispatch on the thread is of
      the same list; otherwise, and under EXISTING_ONLY always, it posts nothing. */
  lemma AddReplaysIffDispatching(policies: Policies, threads: set<ThreadId>, s: State, t: ThreadId, key: Key)
    requires Reachable(policies, threads, s) && Enabled(s, Add(t, key)) && key.list in policies
    requires CurrentSequence(s.threads[t]).Some?
    ensures
      var s', innermost := Apply(policies, s, Add(t, key)), Innermost(s.threads[t].frames);
      var sequence := CurrentSequence(s.threads[t]).value;
      && key in s'.registered && s'.registered[key] == sequence
      && s'.tasks == s.tasks + if policies[key.list] == All && innermost.Some? && innermost.value.list == key.list
                               then [Posted(Task(key, innermost.value, sequence), Pending)] else []
  {
    hide Reachable;
    ReachableInv(policies, threads, s);
    assert StackOk(s.threads[t]);
  }

  // ----- On which sequence -----

  /** Every pending task of a registered observer is on the sequence of the registration. */
  ghost predicate Clean(s: State)
  {
    forall k | 0 <= k < |s.tasks| && s.tasks[k].status == Pending && s.tasks[k].task.key in s.registered ::
      s.tasks[k].task.sequence == s.registered[s.tasks[k].task.key]
  }

  /** Every callback ran on the sequence its observer was registered on. */
  ghost predicate AtHome(s: State)
  {
    forall c | 0 <= c < |s.callbacks| :: s.callbacks[c].sequence == s.callbacks[c].registeredOn
  }

  /** A task of this observer is still pending on another sequence. */
  ghost predicate PendingElsewhere(s: State, key: Key, sequence: Sequence)
  {
    exists k | 0 <= k < |s.tasks| ::
      s.tasks[k].status == Pending && s.tasks[k].task.key == key && s.tasks[k].task.sequence != sequence
  }

  lemma AddKeepsCleanIff(policies: Policies, s: State, t: ThreadId, key: Key)
    requires Clean(s) && Enabled(s, Add(t, key)) && CurrentSequence(s.threads[t]).Some?
    ensures Clean(Apply(policies, s, Add(t, key))) <==> !PendingElsewhere(s, key, CurrentSequence(s.threads[t]).value)
  {
    var s', sequence := Apply(policies, s, Add(t, key)), CurrentSequence(s.threads[t]).value;
    assert forall k | 0 <= k < |s.tasks| :: s'.tasks[k] == s.tasks[k];
    if PendingElsewhere(s, key, sequence) {
      var k :| 0 <= k < |s.tasks| && s.tasks[k].status == Pending && s.tasks[k].task.key == key && s.tasks[k].task.sequence != sequence;
      assert s'.tasks[k] == s.tasks[k];
    }
  }

  lemma OtherStepsKeepClean(policies: Policies, s: State, step: Step)
    requires Clean(s) && Enabled(s, step) && !step.Add?
    ensures Clean(Apply(policies, s, step))
  {
    hide Enumerates, CurrentSequence;
    var s' := Apply(policies, s, step);
    forall k | 0 <= k < |s'.tasks| && s'.tasks[k].status == Pending && s'.tasks[k].task.key in s'.registered
      ensures s'.tasks[k].task.sequence == s'.registered[s'.tasks[k].task.key]
    {
      if k < |s.tasks| {
        assert s'.tasks[k] == s.tasks[k];
      }
    }
  }

  /** The observers are added only where none of their tasks is pending on another sequence. */
  ghost predicate AddsSafely(policies: Policies, s: State, steps: seq<Step>)
    decreases |steps|
  {
    steps == [] ||
    (&& Enabled(s, steps[0])
     && (steps[0].Add? && CurrentSequence(s.threads[steps[0].thread]).Some? ==>
           !PendingElsewhere(s, steps[0].key, CurrentSequence(s.threads[steps[0].thread]).value))
     && AddsSafely(policies, Apply(policies, s, steps[0]), steps[1..]))
  }

  lemma StepAtHome(policies: Policies, s: State, step: Step)
    requires Clean(s) && AtHome(s) && Enabled(s, step)
    ensures AtHome(Apply(policies, s, step))
  {
    hide Enumerates, CurrentSequence;
  }

  lemma {:induction false} SafeAddsAtHome(policies: Policies, s: State, steps: seq<Step>, s': State)
    requires Clean(s) && AtHome(s) && Runs(policies, s, steps, s') && AddsSafely(policies, s, steps)
    ensures Clean(s') && AtHome(s')
    decreases |steps|
  {
    hide Clean, AtHome, Apply, PendingElsewhere;
    if steps != [] {
      var step := steps[0];
      StepAtHome(policies, s, step);
      CleanAfterIff(policies, s, step);
      SafeAddsAtHome(policies, Apply(policies, s, step), steps[1..], s');
    }
  }

  lemma AddNothing(policies: Policies, s: State, step: Step)
    requires Enabled(s, step) && step.Add? && CurrentSequence(s.threads[step.thread]).None?
    ensures Apply(policies, s, step) == s
  {
  }

  /** Where the condition fails, the very next step can call an observer on another sequence than
      the one it is registered on. */
  lemma UncleanCallsElsewhere(policies: Policies, s: State, t: ThreadId)
    requires !Clean(s) && t in s.threads
    ensures exists k :: Enabled(s, RunTask(t, k)) && !AtHome(Apply(policies, s, RunTask(t, k)))
  {
    var k :| 0 <= k < |s.tasks| && s.tasks[k].status == Pending && s.tasks[k].task.key in s.registered
             && s.tasks[k].task.sequence != s.registered[s.tasks[k].task.key];
    var s' := Apply(policies, s, RunTask(t, k));
    assert s'.callbacks[|s.callbacks|].sequence != s'.callbacks[|s.callbacks|].registeredOn;
    assert Enabled(s, RunTask(t, k)) && !AtHome(s');
  }

  /** So a state is safe for the next task a thread runs exactly when it is clean. */
  lemma NextAtHomeIffClean(policies: Policies, s: State, t: ThreadId)
    requires AtHome(s) && t in s.threads
    ensures (forall k | Enabled(s, RunTask(t, k)) :: AtHome(Apply(policies, s, RunTask(t, k)))) <==> Clean(s)
  {
    hide AtHome, Apply, Clean;
    if Clean(s) {
      forall k | Enabled(s, RunTask(t, k))
        ensures AtHome(Apply(policies, s, RunTask(t, k)))
      {
        StepAtHome(policies, s, RunTask(t, k));
      }
    } else {
      UncleanCallsElsewhere(policies, s, t);
    }
  }

  /** Whatever task is run next, by whatever thread, it calls its observer on the sequence the
      observer is registered on. */
  ghost predicate NextAtHome(policies: Policies, s: State)
  {
    forall t, k | Enabled(s, RunTask(t, k)) :: AtHome(Apply(policies, s, RunTask(t, k)))
  }

  /** The same in every state of the run. */
  ghost predicate AlwaysNextAtHome(policies: Policies, s: State, steps: seq<Step>)
    decreases |steps|
  {
    && NextAtHome(policies, s)
    && (steps != [] ==> Enabled(s, steps[0]) && AlwaysNextAtHome(policies, Apply(policies, s, steps[0]), steps[1..]))
  }

  lemma NextIffClean(policies: Policies, s: State, t: ThreadId)
    requires AtHome(s) && t in s.threads
    ensures NextAtHome(policies, s) <==> Clean(s)
  {
    hide AtHome, Apply, Clean, Enabled;
    NextAtHomeIffClean(policies, s, t);
    if Clean(s) {
      forall u, k | Enabled(s, RunTask(u, k))
        ensures AtHome(Apply(policies, s, RunTask(u, k)))
      {
        StepAtHome(policies, s, RunTask(u, k));
      }
    }
  }

  /** One step on, a clean state is clean if and only if the step adds safely. */
  lemma CleanAfterIff(policies: Policies, s: State, step: Step)
    requires Clean(s) && Enabled(s, step)
    ensures Clean(Apply(policies, s, step)) <==>
      (step.Add? && CurrentSequence(s.threads[step.thread]).Some? ==>
         !PendingElsewhere(s, step.key, CurrentSequence(s.threads[step.thread]).value))
  {
    hide Clean, Apply, PendingElsewhere;
    if !step.Add? {
      OtherStepsKeepClean(policies, s, step);
    } else if CurrentSequence(s.threads[step.thread]).Some? {
      AddKeepsCleanIff(policies, s, step.thread, step.key);
    } else {
      AddNothing(policies, s, step);
    }
  }

  lemma ThreadsStay(policies: Policies, s: State, step: Step)
    requires Enabled(s, step)
    ensures Apply(policies, s, step).threads.Keys == s.threads.Keys
  {
    hide Enumerates, CurrentSequence;
  }

  lemma {:induction false} SafeIffAlwaysNext(policies: Policies, s: State, steps: seq<Step>, s': State, t: ThreadId)
    requires Clean(s) && AtHome(s) && t in s.threads && Runs(policies, s, steps, s')
    ensures AddsSafely(policies, s, steps) <==> AlwaysNextAtHome(policies, s, steps)
    decreases |steps|
  {
    hide Clean, AtHome, Apply, PendingElsewhere, Enabled, NextAtHome, CurrentSequence;
    NextIffClean(policies, s, t);
    if steps != [] {
      var middle := Apply(policies, s, steps[0]);
      StepAtHome(policies, s, steps[0]);
      CleanAfterIff(policies, s, steps[0]);
      ThreadsStay(policies, s, steps[0]);
      NextIffClean(policies, middle, t);
      if Clean(middle) {
        SafeIffAlwaysNext(policies, middle, steps[1..], s', t);
      }
    }
  }

  /** Over whole runs: nowhere on a run can the next task call an observer off its sequence if and
      only if no observer is added while a task of it is pending on another sequence; and then every
      callback made was on its observer's sequence. */
  lemma AlwaysAtHomeIffAddsSafely(policies: Policies, threads: set<ThreadId>, steps: seq<Step>, s: State)
    requires threads != {} && Runs(policies, Initial(threads), steps, s)
    ensures AlwaysNextAtHome(policies, Initial(threads), steps) <==> AddsSafely(policies, Initial(threads), steps)
    ensures AddsSafely(policies, Initial(threads), steps) ==> AtHome(s)
  {
    hide Runs, AddsSafely, AlwaysNextAtHome;
    assert Clean(Initial(threads)) && AtHome(Initial(threads));
    var t :| t in threads;
    SafeIffAlwaysNext(policies, Initial(threads), steps, s, t);
    if AddsSafely(policies, Initial(threads), steps) {
      SafeAddsAtHome(policies, Initial(threads), steps, s);
    }
  }

  /** A task of an observer that is not registered is pending on sequence 10. */
  ghost predicate LeftPending(s: State, key: Key)
  {
    && s.registered == map[] && s.callbacks == []
    && s.tasks == [Posted(Task(key, Notification(0, 0), 10), Pending)]
    && s.threads == map[1 := Thread([], None)]
  }

  /** Added again on sequence 11, the observer is called on sequence 10. */
  lemma CalledOnTheFirst(policies: Policies, s: State, key: Key) returns (steps: seq<Step>, s': State)
    requires LeftPending(s, key)
    ensures Runs(policies, s, steps, s') && s'.callbacks == [Callback(0, 10, 11)]
  {
    hide Runs;
    var s1 := Apply(policies, s, Enter(1, 11));
    var s2 := Apply(policies, s1, Add(1, key));
    var s3 := Apply(policies, s2, Leave(1));
    s' := Apply(policies, s3, RunTask(1, 0));
    NoSteps(policies, s');
    steps := Before(policies, s3, [], s', RunTask(1, 0));
    steps := Before(policies, s2, steps, s', Leave(1));
    steps := Before(policies, s1, steps, s', Add(1, key));
    steps := Before(policies, s, steps, s', Enter(1, 11));
  }

  lemma NotifiedAndRemoved(policies: Policies, s: State, key: Key) returns (steps: seq<Step>, s': State)
    requires key == Key(0, 0) && s == State(map[key := 10], [], map[1 := Thread([Plain(10)], None)], [], 0)
    ensures Runs(policies, s, steps, s') && s'.callbacks == [Callback(0, 10, 11)]
  {
    hide Runs;
    assert Enumerates([0], s.registered, 0);
    var s1 := Apply(policies, s, Notify(0, [0]));
    var s2 := Apply(policies, s1, Remove(key));
    var s3 := Apply(policies, s2, Leave(1));
    assert LeftPending(s3, key);
    steps, s' := CalledOnTheFirst(policies, s3, key);
    steps := Before(policies, s2, steps, s', Leave(1));
    steps := Before(policies, s1, steps, s', Remove(key));
    steps := Before(policies, s, steps, s', Notify(0, [0]));
  }

  /** The input that fails: an observer is removed with a task pending, added again on another
      sequence, and called on the first one, with no task inside another. */
  lemma CalledElsewhere(policies: Policies) returns (steps: seq<Step>, s: State)
    ensures Runs(policies, Initial({1}), steps, s) && |s.callbacks| == 1
    ensures s.callbacks[0].sequence == 10 && s.callbacks[0].registeredOn == 11 && !AtHome(s)
  {
    hide Runs, Enumerates;
    var key := Key(0, 0);
    var s0 := Initial({1});
    var s1 := Apply(policies, s0, Enter(1, 10));
    assert s0.threads == map[1 := Thread([], None)];
    assert s1.threads[1].frames == [Plain(10)];
    var s2 := Apply(policies, s1, Add(1, key));
    steps, s := NotifiedAndRemoved(policies, s2, key);
    steps := Before(policies, s1, steps, s, Add(1, key));
    steps := Before(policies, s0, steps, s, Enter(1, 10));
  }

  lemma NoSteps(policies: Policies, s: State)
    ensures Runs(policies, s, [], s)
  {
  }

  lemma Before(policies: Policies, s: State, steps: seq<Step>, s': State, step: Step) returns (all: seq<Step>)
    requires Enabled(s, step) && Runs(policies, Apply(policies, s, step), steps, s')
    ensures Runs(policies, s, all, s')
  {
    hide Apply, Enabled;
    all := [step] + steps;
    assert all[1..] == steps;
  }

  /** Every observer is added on one sequence of its own, whichever thread that is on. */
  ghost predicate AddsOnlyAt(policies: Policies, home: Key -> Sequence, s: State, steps: seq<Step>)
    decreases |steps|
  {
    steps == [] ||
    (&& Enabled(s, steps[0])
     && (steps[0].Add? && CurrentSequence(s.threads[steps[0].thread]).Some? ==>
           CurrentSequence(s.threads[steps[0].thread]).value == home(steps[0].key))
     && AddsOnlyAt(policies, home, Apply(policies, s, steps[0]), steps[1..]))
  }

  ghost predicate AllAt(home: Key -> Sequence, s: State)
  {
    && (forall key | key in s.registered :: s.registered[key] == home(key))
    && (forall k | 0 <= k < |s.tasks| :: s.tasks[k].task.sequence == home(s.tasks[k].task.key))
  }

  lemma StepKeepsHomes(policies: Policies, home: Key -> Sequence, s: State, step: Step)
    requires AllAt(home, s) && Enabled(s, step)
    requires step.Add? && CurrentSequence(s.threads[step.thread]).Some? ==> CurrentSequence(s.threads[step.thread]).value == home(step.key)
    ensures AllAt(home, Apply(policies, s, step))
  {
    hide CurrentSequence;
    var s' := Apply(policies, s, step);
    forall k | 0 <= k < |s'.tasks|
      ensures s'.tasks[k].task.sequence == home(s'.tasks[k].task.key)
    {
      if k < |s.tasks| {
        assert s'.tasks[k].task == s.tasks[k].task;
      }
    }
  }

  /** Then every callback of an observer runs on that sequence. */
  lemma {:induction false} CalledOnlyAtHome(policies: Policies, home: Key -> Sequence, s: State, steps: seq<Step>, s': State)
    requires AllAt(home, s) && CallbacksOk(s) && Inv(s)
    requires Runs(policies, s, steps, s') && AddsOnlyAt(policies, home, s, steps)
    ensures AllAt(home, s')
    ensures forall c | 0 <= c < |s'.callbacks| ::
      s'.callbacks[c].task < |s'.tasks| && s'.callbacks[c].sequence == home(s'.tasks[s'.callbacks[c].task].task.key)
    decreases |steps|
  {
    if steps != [] {
      hide AllAt, Inv, CallbacksOk, Apply, CurrentSequence;
      StepKeepsHomes(policies, home, s, steps[0]);
      StepKeepsInv(policies, s, steps[0]);
      InvHasCallbacks(Apply(policies, s, steps[0]));
      CalledOnlyAtHome(policies, home, Apply(policies, s, steps[0]), steps[1..], s');
    }
  }

  lemma InvHasCallbacks(s: State)
    requires Inv(s)
    ensures CallbacksOk(s)
  {
  }

  /** From the start: observers that are always added on one sequence of their own are called only
      there. */
  lemma OneSequenceForEach(policies: Policies, threads: set<ThreadId>, home: Key -> Sequence, steps: seq<Step>, s: State, c: nat)
    requires Runs(policies, Initial(threads), steps, s) && AddsOnlyAt(policies, home, Initial(threads), steps)
    requires c < |s.callbacks|
    ensures s.callbacks[c].task < |s.tasks| && s.callbacks[c].sequence == home(s.tasks[s.callbacks[c].task].task.key)
  {
    hide Runs, AddsOnlyAt;
    CalledOnlyAtHome(policies, home, Initial(threads), steps, s);
  }
}
