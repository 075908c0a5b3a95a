/** What a reader expects of base/observer_list.h, without slots, counts, indices or compaction:
    who is registered, whom each loop under way has still to call, and who has been called. */
module ObserverReference {

  type Observer = nat

  datatype Policy = All | ExistingOnly

  /** What a callback does to the list, in order. */
  datatype Script = Script(actions: seq<Action>)

  /** A nested loop says what the callback of each of its visits does; later visits do nothing.
      Every finite behaviour of reentrant callbacks is one of these. */
  datatype Action =
    | Add(observer: Observer)
    | Remove(observer: Observer)
    | RemoveAll
    | DestroyList
    | Notify(responses: seq<Script>)

  /** `pending` has one entry per loop under way, the outermost first. */
  datatype Book = Book(registered: seq<Observer>, pending: seq<seq<Observer>>, destroyed: bool, called: seq<Observer>)

  function Minus(s: seq<Observer>, o: Observer): (r: seq<Observer>)
    ensures forall x :: x in r <==> x in s && x != o
  {
    if s == [] then []
    else
      var front := Minus(s[..|s| - 1], o);
      assert s == s[..|s| - 1] + [s[|s| - 1]];
      if s[|s| - 1] == o then front else front + [s[|s| - 1]]
  }

  /** An added observer is called by the loops under way if the policy is ALL. */
  function Added(policy: Policy, b: Book, o: Observer): Book
  {
    if o in b.registered then b
    else
      b.(registered := b.registered + [o],
         pending := if policy == All then seq(|b.pending|, i requires 0 <= i < |b.pending| => b.pending[i] + [o])
                    else b.pending)
  }

  /** A removed observer is not called by any loop that has not come to it. */
  function Removed(b: Book, o: Observer): Book
  {
    b.(registered := Minus(b.registered, o),
       pending := seq(|b.pending|, i requires 0 <= i < |b.pending| => Minus(b.pending[i], o)))
  }

  function Cleared(b: Book): Book
  {
    b.(registered := [], pending := seq(|b.pending|, _ => []))
  }

  function LoopOpened(b: Book): Book
  {
    b.(pending := b.pending + [b.registered])
  }

  function LoopClosed(b: Book): Book
    requires b.pending != []
  {
    b.(pending := b.pending[..|b.pending| - 1])
  }

  /** Nobody is left to call. */
  predicate LoopOver(b: Book)
    requires b.pending != []
  {
    b.destroyed || b.pending[|b.pending| - 1] == []
  }

  /** The innermost loop calls the next one. */
  function NextCalled(b: Book): Book
    requires b.pending != [] && !LoopOver(b)
  {
    var last := |b.pending| - 1;
    b.(pending := b.pending[last := b.pending[last][1..]], called := b.called + [b.pending[last][0]])
  }

  /** After the actions of a callback from the `i`th on. */
  function Ran(policy: Policy, b: Book, script: Script, i: nat): (r: Book)
    requires i <= |script.actions|
    ensures |r.pending| == |b.pending|
    decreases script, if i <= |script.actions| then |script.actions| - i else 0
  {
    if i == |script.actions| then b
    else Ran(policy, Performed(policy, b, script.actions[i]), script, i + 1)
  }

  /** After one action; a destroyed list can no longer be called. */
  function Performed(policy: Policy, b: Book, action: Action): (r: Book)
    ensures |r.pending| == |b.pending|
    decreases action, 1
  {
    if b.destroyed then b
    else
      match action
      case Add(o) => Added(policy, b, o)
      case Remove(o) => Removed(b, o)
      case RemoveAll => Cleared(b)
      case DestroyList => b.(destroyed := true)
      case Notify(_) => LoopClosed(Looped(policy, LoopOpened(b), action, 0))
  }

  /** After the rest of a loop whose next visit is its `k`th. */
  function Looped(policy: Policy, b: Book, loop: Action, k: nat): (r: Book)
    requires loop.Notify? && b.pending != [] && k <= |loop.responses|
    ensures |r.pending| == |b.pending| && LoopOver(r)
    decreases loop, 0, if k <= |loop.responses| then |loop.responses| - k else 0,
              if b.pending == [] then 0 else |b.pending[|b.pending| - 1]|
  {
    if LoopOver(b) then b
    else if k < |loop.responses| then
      Looped(policy, Ran(policy, NextCalled(b), loop.responses[k], 0), loop, k + 1)
    else Looped(policy, NextCalled(b), loop, k)
  }

  // ----- What the book promises -----

  /** A loop during which nothing happens calls everyone registered, in order, and changes
      nothing else. */
  lemma QuietLoop(policy: Policy, b: Book)
    requires !b.destroyed
    ensures Performed(policy, b, Notify([])) == b.(called := b.called + b.registered)
  {
    var started := LoopOpened(b);
    QuietToTheEnd(policy, started, Notify([]), 0);
    assert started.pending[|b.pending|][..|b.registered|] == b.registered;
    assert Looped(policy, started, Notify([]), 0).pending[..|b.pending|] == b.pending;
  }

  /** `b` after the innermost loop has called the next `n` observers and they have done nothing. */
  function AfterQuietVisits(b: Book, n: nat): Book
    requires b.pending != [] && n <= |b.pending[|b.pending| - 1]|
  {
    var last := |b.pending| - 1;
    b.(pending := b.pending[last := b.pending[last][n..]], called := b.called + b.pending[last][..n])
  }

  ghost predicate QuietFrom(responses: seq<Script>, from: nat, to: nat)
  {
    forall j | from <= j < to && j < |responses| :: responses[j] == Script([])
  }

  lemma OneMoreQuietVisit(b: Book, n: nat)
    requires b.pending != [] && 0 < n <= |b.pending[|b.pending| - 1]| && !b.destroyed
    ensures AfterQuietVisits(NextCalled(b), n - 1) == AfterQuietVisits(b, n)
  {
    var last := |b.pending| - 1;
    var left := b.pending[last];
    assert left[1..][n - 1..] == left[n..];
    assert [left[0]] + left[1..][..n - 1] == left[..n];
    assert b.called + [left[0]] + left[1..][..n - 1] == b.called + left[..n];
    assert b.pending[last := left[1..]][last := left[n..]] == b.pending[last := left[n..]];
  }

  lemma {:induction false} QuietVisits(policy: Policy, b: Book, loop: Action, j: nat, k: nat)
    requires loop.Notify? && b.pending != [] && !b.destroyed && j <= k <= |loop.responses|
    requires QuietFrom(loop.responses, j, k) && k - j <= |b.pending[|b.pending| - 1]|
    ensures Looped(policy, b, loop, j) == Looped(policy, AfterQuietVisits(b, k - j), loop, k)
    decreases k - j
  {
    var last := |b.pending| - 1;
    if j == k {
      assert AfterQuietVisits(b, 0) == b by {
        assert b.pending[last][0..] == b.pending[last] && b.pending[last := b.pending[last]] == b.pending;
        assert b.pending[last][..0] == [] && b.called + [] == b.called;
      }
    } else {
      assert loop.responses[j] == Script([]);
      assert Ran(policy, NextCalled(b), Script([]), 0) == NextCalled(b);
      QuietVisits(policy, NextCalled(b), loop, j + 1, k);
      OneMoreQuietVisit(b, k - j);
    }
  }

  lemma {:induction false} QuietToTheEnd(policy: Policy, b: Book, loop: Action, k: nat)
    requires loop.Notify? && b.pending != [] && !b.destroyed && k <= |loop.responses|
    requires QuietFrom(loop.responses, k, |loop.responses|)
    ensures Looped(policy, b, loop, k) == AfterQuietVisits(b, |b.pending[|b.pending| - 1]|)
    decreases if b.pending == [] then 0 else |b.pending[|b.pending| - 1]|
  {
    var last := |b.pending| - 1;
    if b.pending[last] == [] {
      assert b.pending[last := b.pending[last]] == b.pending && b.called + [] == b.called;
    } else {
      OneMoreQuietVisit(b, |b.pending[last]|);
      if k < |loop.responses| {
        assert loop.responses[k] == Script([]);
        assert Ran(policy, NextCalled(b), Script([]), 0) == NextCalled(b);
        QuietToTheEnd(policy, NextCalled(b), loop, k + 1);
      } else {
        QuietToTheEnd(policy, NextCalled(b), loop, k);
      }
    }
  }

  /** The book while the callback of the `k`th visit of a new loop runs, the earlier ones having
      done nothing: `k + 1` observers have been called and the others are still to be. */
  function AtVisit(b: Book, k: nat): Book
    requires k < |b.registered|
  {
    b.(pending := b.pending + [b.registered[k + 1..]], called := b.called + b.registered[..k + 1])
  }

  /** The end of a loop whose other callbacks do nothing: those still to be called are. */
  function RestCalled(b: Book): Book
    requires b.pending != []
  {
    var last := |b.pending| - 1;
    b.(pending := b.pending[..last], called := if b.destroyed then b.called else b.called + b.pending[last])
  }

  /** A loop in which only the callback of the `k`th visit does anything. */
  lemma BusyVisit(policy: Policy, b: Book, responses: seq<Script>, k: nat)
    requires !b.destroyed && k < |responses| && k < |b.registered|
    requires QuietFrom(responses, 0, k) && QuietFrom(responses, k + 1, |responses|)
    ensures Performed(policy, b, Notify(responses)) == RestCalled(Ran(policy, AtVisit(b, k), responses[k], 0))
  {
    hide Ran;
    var loop := Notify(responses);
    var started := LoopOpened(b);
    QuietVisits(policy, started, loop, 0, k);
    var before := AfterQuietVisits(started, k);
    ReachesVisit(b, k);
    var after := Ran(policy, AtVisit(b, k), responses[k], 0);
    if after.destroyed {
    } else {
      QuietToTheEnd(policy, after, loop, k + 1);
      var last := |after.pending| - 1;
      assert after.pending[last][..|after.pending[last]|] == after.pending[last];
      assert after.pending[last := after.pending[last][|after.pending[last]|..]][..last] == after.pending[..last];
    }
  }

  lemma ReachesVisit(b: Book, k: nat)
    requires !b.destroyed && k < |b.registered|
    ensures
      var before := AfterQuietVisits(LoopOpened(b), k);
      !LoopOver(before) && NextCalled(before) == AtVisit(b, k)
  {
    var started := LoopOpened(b);
    var last := |b.pending|;
    assert b.registered[k..][1..] == b.registered[k + 1..];
    assert b.registered[..k + 1] == b.registered[..k] + [b.registered[k]];
    assert started.pending[last := b.registered[k..]][last := b.registered[k + 1..]] == b.pending + [b.registered[k + 1..]];
  }

  lemma OneAction(policy: Policy, b: Book, action: Action)
    ensures Ran(policy, b, Script([action]), 0) == Performed(policy, b, action)
  {
    hide Performed;
    var script := Script([action]);
    assert script.actions[0] == action;
    assert Ran(policy, b, script, 0) == Ran(policy, Performed(policy, b, action), script, 1);
  }

  /** A callback's actions happen one after the other. */
  lemma RanInOrder(policy: Policy, b: Book, first: Action, rest: seq<Action>)
    ensures
      Ran(policy, b, Script([first] + rest), 0) == Ran(policy, Performed(policy, b, first), Script(rest), 0)
  {
    hide Performed;
    var script := Script([first] + rest);
    assert script.actions[0] == first;
    RanFromLater(policy, Performed(policy, b, first), first, rest, 0);
  }

  lemma {:induction false} RanFromLater(policy: Policy, b: Book, first: Action, rest: seq<Action>, i: nat)
    requires i <= |rest|
    ensures Ran(policy, b, Script([first] + rest), i + 1) == Ran(policy, b, Script(rest), i)
    decreases |rest| - i
  {
    hide Performed;
    if i < |rest| {
      assert ([first] + rest)[i + 1] == rest[i];
      RanFromLater(policy, Performed(policy, b, rest[i]), first, rest, i + 1);
    }
  }

  /** An observer removed by the `k`th callback is left out of the rest of the loop, and nobody
      else is. */
  lemma RemovalInVisit(policy: Policy, b: Book, responses: seq<Script>, k: nat, o: Observer)
    requires !b.destroyed && k < |responses| && k < |b.registered| && responses[k] == Script([Remove(o)])
    requires QuietFrom(responses, 0, k) && QuietFrom(responses, k + 1, |responses|)
    ensures
      var after := Performed(policy, b, Notify(responses));
      && after.called == b.called + b.registered[..k + 1] + Minus(b.registered[k + 1..], o)
      && after.registered == Minus(b.registered, o)
  {
    BusyVisit(policy, b, responses, k);
    OneAction(policy, AtVisit(b, k), Remove(o));
  }

  /** An observer added by the `k`th callback is called last by the same loop under ALL and not by
      it under EXISTING_ONLY; either way it is registered. */
  lemma AdditionInVisit(policy: Policy, b: Book, responses: seq<Script>, k: nat, o: Observer)
    requires !b.destroyed && k < |responses| && k < |b.registered| && responses[k] == Script([Add(o)])
    requires QuietFrom(responses, 0, k) && QuietFrom(responses, k + 1, |responses|) && o !in b.registered
    ensures
      var after := Performed(policy, b, Notify(responses));
      && after.called == b.called + b.registered + (if policy == All then [o] else [])
      && after.registered == b.registered + [o]
  {
    BusyVisit(policy, b, responses, k);
    OneAction(policy, AtVisit(b, k), Add(o));
    assert b.registered[..k + 1] + b.registered[k + 1..] == b.registered;
    var rest := b.registered[k + 1..] + if policy == All then [o] else [];
    assert b.called + b.registered[..k + 1] + rest
        == b.called + (b.registered[..k + 1] + b.registered[k + 1..]) + (if policy == All then [o] else []);
  }

  /** After the `k`th callback has cleared or destroyed the list, nobody is called. */
  lemma EndInVisit(policy: Policy, b: Book, responses: seq<Script>, k: nat, last: Action)
    requires !b.destroyed && k < |responses| && k < |b.registered| && responses[k] == Script([last])
    requires last in {RemoveAll, DestroyList}
    requires QuietFrom(responses, 0, k) && QuietFrom(responses, k + 1, |responses|)
    ensures
      var after := Performed(policy, b, Notify(responses));
      && after.called == b.called + b.registered[..k + 1]
      && after.destroyed == (last == DestroyList)
      && (last == RemoveAll ==> after.registered == [])
  {
    BusyVisit(policy, b, responses, k);
    OneAction(policy, AtVisit(b, k), last);
    assert b.called + b.registered[..k + 1] + [] == b.called + b.registered[..k + 1];
  }

  /** A loop inside the `k`th callback calls everyone and leaves the outer loop where it was. */
  lemma LoopInVisit(policy: Policy, b: Book, responses: seq<Script>, k: nat)
    requires !b.destroyed && k < |responses| && k < |b.registered| && responses[k] == Script([Notify([])])
    requires QuietFrom(responses, 0, k) && QuietFrom(responses, k + 1, |responses|)
    ensures
      Performed(policy, b, Notify(responses)).called
      == b.called + b.registered[..k + 1] + b.registered + b.registered[k + 1..]
  {
    BusyVisit(policy, b, responses, k);
    OneAction(policy, AtVisit(b, k), Notify([]));
    QuietLoop(policy, AtVisit(b, k));
  }

  /** Removal keeps the others in their order. */
  lemma {:induction false} MinusKeepsOrder(before: seq<Observer>, o: Observer, after: seq<Observer>)
    requires o !in before && o !in after
    ensures Minus(before, o) == before && Minus(before + [o] + after, o) == before + after
    decreases |before| + |after|
  {
    var s := before + [o] + after;
    if after == [] {
      assert s[..|s| - 1] == before && before + after == before;
      if before != [] {
        MinusKeepsOrder(before[..|before| - 1], o, []);
        assert before == before[..|before| - 1] + [before[|before| - 1]];
      }
    } else {
      var front := after[..|after| - 1];
      MinusKeepsOrder(before, o, front);
      assert s[..|s| - 1] == before + [o] + front;
      assert before + front + [after[|after| - 1]] == before + after;
    }
  }

  /** Neither registered nor to be called by a loop under way. */
  ghost predicate Absent(b: Book, o: Observer)
  {
    o !in b.registered && forall i | 0 <= i < |b.pending| :: o !in b.pending[i]
  }

  ghost predicate Adds(script: Script, o: Observer)
  {
    exists i | 0 <= i < |script.actions| :: ActionAdds(script.actions[i], o)
  }

  ghost predicate ActionAdds(action: Action, o: Observer)
  {
    match action
    case Add(x) => x == o
    case Notify(responses) => exists k | 0 <= k < |responses| :: Adds(responses[k], o)
    case _ => false
  }

  /** The callbacks made since `before`, none of them to `o`. */
  ghost predicate NotCalledSince(before: Book, after: Book, o: Observer)
  {
    before.called <= after.called && o !in after.called[|before.called|..]
  }

  lemma NotCalledChain(a: Book, b: Book, c: Book, o: Observer)
    requires NotCalledSince(a, b, o) && NotCalledSince(b, c, o)
    ensures NotCalledSince(a, c, o)
  {
    assert c.called[|a.called|..] == b.called[|a.called|..] + c.called[|b.called|..];
  }

  lemma RemovedIsAbsent(b: Book, o: Observer)
    ensures Absent(Removed(b, o), o) && Absent(Cleared(b), o)
  {
  }

  /** Once removed, alone or with all others, an observer is not called again by any loop at any
      nesting depth, whatever is done later short of adding it. */
  lemma RemovedIsNotCalled(policy: Policy, b: Book, o: Observer, removal: Action, later: Script)
    requires removal in {Remove(o), RemoveAll} && !b.destroyed && !Adds(later, o)
    ensures
      var after := Performed(policy, b, removal);
      after.called == b.called && NotCalledSince(after, Ran(policy, after, later, 0), o)
  {
    hide Ran, Absent;
    RemovedIsAbsent(b, o);
    AbsentInRun(policy, Performed(policy, b, removal), later, 0, o);
  }

  /** An absent observer is not called, and stays absent. */
  lemma {:induction false} AbsentIsNotCalled(policy: Policy, b: Book, action: Action, o: Observer)
    requires Absent(b, o) && !ActionAdds(action, o)
    ensures Absent(Performed(policy, b, action), o) && NotCalledSince(b, Performed(policy, b, action), o)
    decreases action, 1
  {
    if !b.destroyed && action.Notify? {
      AbsentInLoop(policy, LoopOpened(b), action, 0, o);
    }
  }

  lemma {:induction false} AbsentInRun(policy: Policy, b: Book, script: Script, i: nat, o: Observer)
    requires Absent(b, o) && !Adds(script, o) && i <= |script.actions|
    ensures Absent(Ran(policy, b, script, i), o) && NotCalledSince(b, Ran(policy, b, script, i), o)
    decreases script, if i <= |script.actions| then |script.actions| - i else 0
  {
    if i < |script.actions| {
      hide Performed;
      var c := Performed(policy, b, script.actions[i]);
      AbsentIsNotCalled(policy, b, script.actions[i], o);
      AbsentInRun(policy, c, script, i + 1, o);
      NotCalledChain(b, c, Ran(policy, b, script, i), o);
    }
  }

  lemma {:induction false} AbsentInLoop(policy: Policy, b: Book, loop: Action, k: nat, o: Observer)
    requires loop.Notify? && b.pending != [] && k <= |loop.responses| && Absent(b, o) && !ActionAdds(loop, o)
    ensures Absent(Looped(policy, b, loop, k), o) && NotCalledSince(b, Looped(policy, b, loop, k), o)
    decreases loop, 0, if k <= |loop.responses| then |loop.responses| - k else 0,
              if b.pending == [] then 0 else |b.pending[|b.pending| - 1]|
  {
    if !LoopOver(b) {
      hide Ran;
      NextIsAnother(b, o);
      var c := NextCalled(b);
      if k < |loop.responses| {
        var d := Ran(policy, c, loop.responses[k], 0);
        AbsentInRun(policy, c, loop.responses[k], 0, o);
        AbsentInLoop(policy, d, loop, k + 1, o);
        NotCalledChain(b, c, d, o);
        NotCalledChain(b, d, Looped(policy, b, loop, k), o);
      } else {
        AbsentInLoop(policy, c, loop, k, o);
        NotCalledChain(b, c, Looped(policy, b, loop, k), o);
      }
    }
  }

  lemma NextIsAnother(b: Book, o: Observer)
    requires b.pending != [] && !LoopOver(b) && Absent(b, o)
    ensures Absent(NextCalled(b), o) && NotCalledSince(b, NextCalled(b), o)
  {
    var last := b.pending[|b.pending| - 1];
    assert last[0] in last;
  }
}
