/** base/deferred_sequenced_task_runner.cc: tasks are queued until the start and forwarded
    afterwards. Every method holds the lock, so that an interleaving of threads is a sequence of
    calls. */
module DeferredTaskRunner {

  /** A posted closure with what came with it. */
  datatype Task = Task(closure: nat, from: nat, delay: int, nonNestable: bool)

  class Runner {
    var started: bool
    /** Whether the target task runner is known. */
    var hasTarget: bool
    var queue: seq<Task>
    /** What the target task runner has received, in order. */
    var received: seq<Task>

    /** Everything posted to this runner, in order. */
    ghost var posted: seq<Task>

    /** Nothing is lost, doubled, reordered or changed on its way to the target. */
    ghost predicate Valid()
      reads this
    {
      && received + queue == posted
      && (!started ==> received == [])
      && (started ==> queue == [] && hasTarget)
    }

    constructor (hasTarget: bool)
      ensures Valid() && !started && posted == [] && this.hasTarget == hasTarget
    {
      started := false;
      this.hasTarget := hasTarget;
      queue := [];
      received := [];
      posted := [];
    }

    lemma TargetHas()
      requires Valid()
      ensures received == if started then posted else []
    {
      assert received + [] == received;
    }

    /** PostDelayedTask; `accepted` is what the target would answer. */
    method PostDelayedTask(closure: nat, from: nat, delay: int, accepted: bool) returns (ok: bool)
      requires Valid()
      modifies this`queue, this`received, this`posted
      ensures Valid() && posted == old(posted) + [Task(closure, from, delay, false)]
      ensures ok == (started ==> accepted)
    {
      if started {
        ToTarget(Task(closure, from, delay, false));
        return accepted;
      }
      QueueDeferredTask(closure, from, delay, false);
      return true;
    }

    /** PostNonNestableDelayedTask. */
    method PostNonNestableDelayedTask(closure: nat, from: nat, delay: int, accepted: bool) returns (ok: bool)
      requires Valid()
      modifies this`queue, this`received, this`posted
      ensures Valid() && posted == old(posted) + [Task(closure, from, delay, true)]
      ensures ok == (started ==> accepted)
    {
      if started {
        ToTarget(Task(closure, from, delay, true));
        return accepted;
      }
      QueueDeferredTask(closure, from, delay, true);
      return true;
    }

    /** A call of the target, once started. */
    method ToTarget(task: Task)
      requires Valid() && started
      modifies this`received, this`posted
      ensures Valid() && posted == old(posted) + [task]
    {
      received := received + [task];
      posted := posted + [task];
      assert received + queue == posted;
    }

    method QueueDeferredTask(closure: nat, from: nat, delay: int, nonNestable: bool)
      requires Valid() && !started
      modifies this`queue, this`posted
      ensures Valid() && posted == old(posted) + [Task(closure, from, delay, nonNestable)]
    {
      queue := queue + [Task(closure, from, delay, nonNestable)];
      posted := posted + [Task(closure, from, delay, nonNestable)];
      assert received + queue == posted;
    }

    /** StartImpl: the queued tasks are posted in order, each by the call it came by. */
    method StartImpl()
      requires Valid() && !started && hasTarget
      modifies this`started, this`queue, this`received
      ensures Valid() && started && received == posted
    {
      started := true;
      var i := 0;
      while i < |queue|
        invariant i <= |queue| && started && queue == old(queue) && received == old(received) + queue[..i]
      {
        var task := queue[i];
        if task.nonNestable {
          received := received + [Task(task.closure, task.from, task.delay, true)];
        } else {
          received := received + [Task(task.closure, task.from, task.delay, false)];
        }
        i := i + 1;
      }
      assert queue[..i] == queue;
      queue := [];
      assert received + queue == posted;
    }

    /** StartWithTaskRunner. */
    method StartWithTaskRunner()
      requires Valid() && !started && !hasTarget
      modifies this`started, this`hasTarget, this`queue, this`received
      ensures Valid() && started && received == posted
    {
      hasTarget := true;
      StartImpl();
    }

    /** One call; the start is Start for a runner built with its target. */
    method Perform(call: Call)
      requires Valid() && (call.Start? ==> !started)
      modifies this
      ensures Valid() && posted == old(posted) + Posts(call)
      ensures started == (old(started) || call.Start?)
    {
      match call {
        case Post(task, accepted) =>
          if task.nonNestable {
            var _ := PostNonNestableDelayedTask(task.closure, task.from, task.delay, accepted);
          } else {
            var _ := PostDelayedTask(task.closure, task.from, task.delay, accepted);
          }
        case Start =>
          if hasTarget {
            StartImpl();
          } else {
            StartWithTaskRunner();
          }
          assert posted + [] == posted;
      }
    }
  }

  /** A call of some thread. */
  datatype Call = Post(task: Task, accepted: bool) | Start

  ghost function Posts(call: Call): seq<Task>
  {
    if call.Post? then [call.task] else []
  }

  ghost function PostedBy(calls: seq<Call>): seq<Task>
  {
    if calls == [] then [] else PostedBy(calls[..|calls| - 1]) + Posts(calls[|calls| - 1])
  }

  ghost predicate Started(calls: seq<Call>)
  {
    Start in calls
  }

  /** What the target must have received: all posts once there was a start, and nothing before. */
  ghost function Deferred(calls: seq<Call>): seq<Task>
  {
    if Started(calls) then PostedBy(calls) else []
  }

  /** A runner is started once. */
  ghost predicate AtMostOneStart(calls: seq<Call>)
  {
    forall i, j | 0 <= i < j < |calls| :: !(calls[i].Start? && calls[j].Start?)
  }

  lemma OneMoreCall(calls: seq<Call>, i: nat)
    requires i < |calls| && AtMostOneStart(calls)
    ensures PostedBy(calls[..i + 1]) == PostedBy(calls[..i]) + Posts(calls[i])
    ensures Started(calls[..i + 1]) == (Started(calls[..i]) || calls[i].Start?)
    ensures calls[i].Start? ==> !Started(calls[..i])
  {
    assert calls[..i + 1][..i] == calls[..i];
    assert calls[..i + 1] == calls[..i] + [calls[i]];
  }

  /** Any interleaving of posts with one start among them, or none: after every call the target
      has received what was posted so far, from the start on, and nothing before it. */
  method RunCalls(calls: seq<Call>, hasTarget: bool) returns (r: Runner, trace: seq<seq<Task>>)
    requires AtMostOneStart(calls)
    ensures fresh(r) && r.Valid() && r.posted == PostedBy(calls) && r.received == Deferred(calls)
    ensures |trace| == |calls|
    ensures forall i | 0 <= i < |calls| :: trace[i] == Deferred(calls[..i + 1])
  {
    hide AtMostOneStart, PostedBy, Started;
    r := new Runner(hasTarget);
    trace := [];
    NoCalls(calls);
    for i := 0 to |calls|
      invariant fresh(r) && r.Valid() && r.posted == PostedBy(calls[..i])
      invariant r.started == Started(calls[..i])
      invariant |trace| == i
      invariant forall k | 0 <= k < i :: trace[k] == Deferred(calls[..k + 1])
    {
      OneMoreCall(calls, i);
      r.Perform(calls[i]);
      r.TargetHas();
      trace := trace + [r.received];
    }
    assert calls[..|calls|] == calls;
    r.TargetHas();
  }

  lemma NoCalls(calls: seq<Call>)
    ensures PostedBy(calls[..0]) == [] && !Started(calls[..0])
  {
  }
  /** Posts come in the order of the calls and a start posts nothing. */
  lemma {:induction false} PostsInOrder(before: seq<Call>, call: Call, after: seq<Call>)
    ensures
      PostedBy(before + [call] + after)
      == PostedBy(before) + (match call case Post(task, _) => [task] case Start => []) + PostedBy(after)
    decreases |after|
  {
    hide PostedBy;
    NoCalls([]);
    var up := before + [call];
    PostedLast(before, call);
    if after == [] {
      assert up + after == up;
    } else {
      var front, last := after[..|after| - 1], after[|after| - 1];
      PostsInOrder(before, call, front);
      assert up + after == up + front + [last] && after == front + [last];
      PostedLast(up + front, last);
      PostedLast(front, last);
    }
  }

  lemma PostedLast(calls: seq<Call>, call: Call)
    ensures PostedBy(calls + [call]) == PostedBy(calls) + Posts(call)
  {
    assert (calls + [call])[..|calls|] == calls;
  }
}
