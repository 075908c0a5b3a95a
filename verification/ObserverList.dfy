/** base/observer_list.h: a list of observers that may change while it is being
    iterated, by any number of iterators and nested loops. */
module ObserverList {
  import opened ObserverDepiction
  import opened ObserverReference
  import opened ObserverSlots

  /** A step of a program that holds iterators in variables of its own as well. */
  datatype Op =
    | Call(action: Action)
    | BeginInto(id: nat)
    | CopyInto(id: nat, source: nat)
    | Assign(id: nat, source: nat)
    | Advance(id: nat)
    | Drop(id: nat)

  /** Only the calls matter to the book: iterators of the program's own change nobody's turn. */
  ghost function Applied(policy: Policy, b: Book, op: Op): Book
  {
    if op.Call? then Performed(policy, b, op.action) else b
  }

  ghost function AllApplied(policy: Policy, b: Book, ops: seq<Op>): Book
  {
    if ops == [] then b else Applied(policy, AllApplied(policy, b, ops[..|ops| - 1]), ops[|ops| - 1])
  }

  /** The list at one moment. */
  datatype Moment = Moment(slots: seq<Slot>, count: int, iters: map<Name, Iter>, destroyed: bool)

  class ObserverList {
    const policy: Policy
    var slots: seq<Slot>
    var liveIteratorCount: int
    /** Whether the destructor has run, after which every weak pointer to the list is null. */
    var destroyed: bool
    /** Every iterator variable that exists. */
    var iters: map<Name, Iter>
    /** The callbacks the loops have made, in order. */
    var called: seq<Observer>

    ghost predicate Valid()
      reads this
    {
      destroyed || Consistent(policy, slots, liveIteratorCount, iters)
    }

    constructor (policy: Policy)
      ensures Valid() && !destroyed && slots == [] && iters == map[] && this.policy == policy
      ensures called == []
    {
      this.policy := policy;
      slots := [];
      liveIteratorCount := 0;
      destroyed := false;
      iters := map[];
      called := [];
    }

    /** std::find. */
    method Find(s: Slot) returns (i: nat)
      ensures i <= |slots| && s !in slots[..i] && (i < |slots| ==> slots[i] == s)
    {
      i := 0;
      while i < |slots| && slots[i] != s
        invariant i <= |slots| && s !in slots[..i]
      {
        i := i + 1;
      }
    }

    method HasObserver(o: Observer) returns (has: bool)
      ensures has <==> Held(o) in slots
    {
      var i := Find(Held(o));
      has := i < |slots|;
    }

    /** A second registration is refused. */
    method AddObserver(o: Observer)
      requires Valid() && !destroyed
      modifies this`slots
      ensures Valid()
      ensures slots == if Held(o) in old(slots) then old(slots) else old(slots) + [Held(o)]
    {
      var has := HasObserver(o);
      if has {
        return;
      }
      slots := slots + [Held(o)];
    }

    /** Nulls the slot while an iterator is live, and erases it otherwise. */
    method RemoveObserver(o: Observer)
      requires Valid() && !destroyed
      modifies this`slots
      ensures Valid()
      ensures slots == if liveIteratorCount == 0 then Compacted(Without(old(slots), o)) else Without(old(slots), o)
    {
      hide Clamped, BoundNames, Compacted;
      var i := Find(Held(o));
      if i == |slots| {
        WithoutAbsent(slots, o);
        return;
      }
      WithoutPresent(slots, o, i);
      if liveIteratorCount != 0 {
        slots := slots[i := Empty];
      } else {
        NoneBound(iters);
        slots := slots[..i] + slots[i + 1..];
      }
      forall n | n in iters && iters[n].bound
        ensures InRange(policy, slots, iters[n])
      {
        InRangeKept(policy, old(slots), slots, iters[n]);
      }
    }

    method Clear()
      requires Valid() && !destroyed
      modifies this`slots
      ensures Valid()
      ensures slots == if liveIteratorCount == 0 then [] else seq(|old(slots)|, _ => Empty)
    {
      if liveIteratorCount != 0 {
        slots := seq(|slots|, _ => Empty);
      } else {
        NoneBound(iters);
        slots := [];
      }
    }

    /** Erases the empty slots, keeping the order of the others. */
    method Compact()
      modifies this`slots
      ensures slots == Compacted(old(slots))
    {
      var kept := [];
      var i := 0;
      while i < |slots|
        invariant i <= |slots| && slots == old(slots)
        invariant kept == Compacted(slots[..i])
      {
        if slots[i].Held? {
          kept := kept + [slots[i]];
        }
        assert slots[..i + 1][..i] == slots[..i];
        i := i + 1;
      }
      assert slots[..i] == slots;
      slots := kept;
    }

    /** ~ObserverList. */
    method Destroy()
      modifies this`destroyed
      ensures destroyed
    {
      destroyed := true;
    }

    // ----- Iterators -----

    /** Whether `list_` reads as non-null. */
    predicate Live(it: Iter)
      reads this
    {
      it.bound && !destroyed
    }

    function IsEnd(it: Iter): bool
      reads this
    {
      !Live(it) || it.index == Clamped(it.maxIndex, slots)
    }

    method EnsureValidIndex(it: Iter) returns (r: Iter)
      requires it.index <= Clamped(it.maxIndex, slots)
      ensures r == it.(index := FirstHeld(slots, it.index, Clamped(it.maxIndex, slots)))
    {
      var max := Clamped(it.maxIndex, slots);
      var index := it.index;
      while index < max && slots[index].Empty?
        invariant index <= max
        invariant FirstHeld(slots, index, max) == FirstHeld(slots, it.index, max)
      {
        index := index + 1;
      }
      r := it.(index := index);
    }

    /** begin(), into a new variable: an empty list involves no weak pointer. */
    method Begin(n: Name)
      requires Valid() && !destroyed && n !in iters
      modifies this`liveIteratorCount, this`iters
      ensures Valid()
      ensures iters == old(iters)[n :=
        if slots == [] then Iter(false, 0, UpTo(0))
        else Iter(true, FirstHeld(slots, 0, |slots|), if policy == All then NoLimit else UpTo(|slots|))]
    {
      hide FirstHeld, Distinct, NoEmpty, BoundNames;
      if slots == [] {
        NotBound(iters, n);
        BoundAfterUpdate(iters, n, Iter(false, 0, UpTo(0)));
        iters := iters[n := Iter(false, 0, UpTo(0))];
        return;
      }
      var it := Iter(true, 0, if policy == All then NoLimit else UpTo(|slots|));
      it := EnsureValidIndex(it);
      NotBound(iters, n);
      BoundAfterUpdate(iters, n, it);
      liveIteratorCount := liveIteratorCount + 1;
      iters := iters[n := it];
    }

    /** The copy constructor. */
    method CopyIter(n: Name, source: Name)
      requires Valid() && n !in iters && source in iters
      modifies this`liveIteratorCount, this`iters
      ensures Valid() && iters == old(iters)[n := old(iters[source])]
    {
      BoundAfterUpdate(iters, n, iters[source]);
      if Live(iters[source]) {
        liveIteratorCount := liveIteratorCount + 1;
      }
      iters := iters[n := iters[source]];
    }

    /** operator=: the argument is a copy, which takes the old value and is destroyed. */
    method AssignIter(n: Name, source: Name)
      requires Valid() && n in iters && source in iters
      modifies this`slots, this`liveIteratorCount, this`iters
      ensures Valid() && iters == old(iters)[n := old(iters[source])]
      ensures !destroyed && old(liveIteratorCount) != 0 && liveIteratorCount == 0 ==> slots == Compacted(old(slots))
      ensures !(old(liveIteratorCount) != 0 && liveIteratorCount == 0) ==> slots == old(slots)
    {
      hide Clamped, Compacted, Distinct;
      BoundAfterUpdate(iters, n, iters[source]);
      var other := iters[source];
      if Live(other) {
        liveIteratorCount := liveIteratorCount + 1;
      }
      assert iters[n].bound <==> n in BoundNames(iters);
      iters, other := iters[n := other], iters[n];
      if Live(other) {
        liveIteratorCount := liveIteratorCount - 1;
        if liveIteratorCount == 0 {
          NoneBound(iters);
          CompactedDistinct(slots);
          Compact();
        }
      }
    }

    /** operator++, for an iterator that is not at the end. */
    method Increment(n: Name)
      requires Valid() && n in iters
      requires Live(iters[n]) ==> iters[n].index < Clamped(iters[n].maxIndex, slots)
      modifies this`iters
      ensures Valid()
      ensures !Live(old(iters[n])) ==> iters == old(iters)
      ensures Live(old(iters[n])) ==>
        var it := old(iters[n]);
        iters == old(iters)[n := it.(index := FirstHeld(slots, it.index + 1, Clamped(it.maxIndex, slots)))]
    {
      var it := iters[n];
      if Live(it) {
        it := it.(index := it.index + 1);
        it := EnsureValidIndex(it);
        BoundAfterUpdate(iters, n, it);
        assert n in BoundNames(iters) && BoundNames(iters) + {n} == BoundNames(iters);
        iters := iters[n := it];
      }
    }

    /** The destructor; the last bound iterator to go compacts the list. */
    method DestroyIter(n: Name)
      requires Valid() && n in iters
      modifies this`slots, this`liveIteratorCount, this`iters
      ensures Valid() && iters == old(iters) - {n}
      ensures destroyed ==> slots == old(slots)
      ensures !destroyed && old(liveIteratorCount) != 0 && liveIteratorCount == 0 ==> slots == Compacted(old(slots))
      ensures !(old(liveIteratorCount) != 0 && liveIteratorCount == 0) ==> slots == old(slots)
    {
      hide Clamped, Compacted, Distinct;
      BoundAfterRemoval(iters, n);
      var it := iters[n];
      iters := iters - {n};
      if !Live(it) {
        return;
      }
      assert n in BoundNames(old(iters));
      liveIteratorCount := liveIteratorCount - 1;
      if liveIteratorCount == 0 {
        NoneBound(iters);
        CompactedDistinct(slots);
        Compact();
      }
    }

    // ----- Loops and the callbacks they run -----

    /** No loop variable at this nesting depth or deeper exists yet. */
    ghost predicate FreeFrom(depth: nat)
      reads this
    {
      forall d | depth <= d :: Loop(d) !in iters
    }

    /** The list stands for the book while the callbacks of `depth` nested loops run. */
    ghost predicate Shows(b: Book, depth: nat)
      reads this
    {
      && |b.pending| == depth && b.destroyed == destroyed && b.called == called
      && (!destroyed ==> Depicts(slots, iters, depth, b))
    }

    /** The same between two visits of the loop of iterator Loop(depth). */
    ghost predicate ShowsLoop(b: Book, depth: nat)
      reads this
    {
      && |b.pending| == depth + 1 && b.destroyed == destroyed && b.called == called
      && (!destroyed ==> DepictsLoop(slots, iters, depth, b))
    }

    /** A callback does to the list what the reference does to the book. The list stays
        consistent, the iterators of the loops around it are as they were, and while there is one
        the vector only evolves. */
    method Run(script: Script, depth: nat, ghost b: Book)
      requires Valid() && FreeFrom(depth) && Shows(b, depth)
      modifies this
      ensures Shows(Ran(policy, b, script, 0), depth)
      ensures Valid() && iters == old(iters)
      ensures old(destroyed) ==> destroyed
      ensures !destroyed ==> liveIteratorCount == old(liveIteratorCount)
      ensures old(destroyed) || old(liveIteratorCount) != 0 ==> Evolves(old(slots), slots)
      decreases script, 0
    {
      hide BoundNames, Distinct, NoEmpty, InRange, Shows;
      var i := 0;
      ghost var c := b;
      while i < |script.actions|
        invariant i <= |script.actions|
        invariant Shows(c, depth) && Ran(policy, c, script, i) == Ran(policy, b, script, 0)
        invariant Valid() && iters == old(iters)
        invariant old(destroyed) ==> destroyed
        invariant !destroyed ==> liveIteratorCount == old(liveIteratorCount)
        invariant old(destroyed) || old(liveIteratorCount) != 0 ==> Evolves(old(slots), slots)
      {
        Perform(script.actions[i], depth, c);
        c := Performed(policy, c, script.actions[i]);
        i := i + 1;
      }
    }

    /** One action; a destroyed list can no longer be called. */
    method Perform(action: Action, depth: nat, ghost b: Book)
      requires Valid() && FreeFrom(depth) && Shows(b, depth)
      modifies this
      ensures Shows(Performed(policy, b, action), depth)
      ensures Valid() && iters == old(iters)
      ensures old(destroyed) ==> destroyed
      ensures !destroyed ==> liveIteratorCount == old(liveIteratorCount)
      ensures old(destroyed) || old(liveIteratorCount) != 0 ==> Evolves(old(slots), slots)
      decreases action, 3
    {
      hide BoundNames, Distinct, NoEmpty, InRange, Depicts, Looped;
      if destroyed {
        return;
      }
      match action
      case Add(o) =>
        AddDepicts(policy, slots, iters, depth, b, o);
        AddObserver(o);
      case Remove(o) =>
        RemoveDepicts(slots, iters, depth, b, o);
        RemoveObserver(o);
        if liveIteratorCount == 0 {
          NoneBound(iters);
          CompactDepicts(Without(old(slots), o), iters, depth, Removed(b, o));
        }
      case RemoveAll =>
        ClearDepicts(slots, iters, depth, b);
        Clear();
        if liveIteratorCount == 0 {
          NoneBound(iters);
          CompactDepicts(Empties(|old(slots)|), iters, depth, Cleared(b));
          CompactedEmpties(|old(slots)|);
        }
      case DestroyList =>
        Destroy();
      case Notify(_) =>
        var _, _, _ := NotifyObservers(action, depth, b);
    }

    /** The iterator `it`, whose current slot is `at`, has moved on to the next occupied slot. */
    ghost predicate MovedOn(it: Iter, moved: Iter)
      reads this
    {
      && moved.bound && moved.maxIndex == it.maxIndex
      && it.index < moved.index <= Clamped(it.maxIndex, slots)
      && (forall j | it.index < j < moved.index :: slots[j].Empty?)
      && (moved.index < Clamped(it.maxIndex, slots) ==> slots[moved.index].Held?)
    }

    /** A visit whose callback does nothing to the list. */
    method Pass(n: Name)
      requires Valid() && !destroyed && n in iters && !IsEnd(iters[n])
      modifies this`iters
      ensures Valid() && n in iters && iters == old(iters)[n := iters[n]]
      ensures Evolves(slots, slots) && MovedOn(old(iters[n]), iters[n])
    {
      hide BoundNames, Distinct, NoEmpty, FirstHeld;
      assert InRange(policy, slots, iters[n]);
      Increment(n);
    }

    /** The body of a loop at one observer, and the step to the next. */
    method Visit(script: Script, depth: nat, ghost b: Book)
      requires Valid() && !destroyed && FreeFrom(depth + 1) && Loop(depth) in iters && !IsEnd(iters[Loop(depth)])
      requires Shows(b, depth + 1)
      modifies this
      ensures ShowsLoop(Ran(policy, b, script, 0), depth)
      ensures Valid() && Loop(depth) in iters && iters == old(iters)[Loop(depth) := iters[Loop(depth)]]
      ensures Evolves(old(slots), slots) && (!destroyed ==> MovedOn(old(iters[Loop(depth)]), iters[Loop(depth)]))
      decreases script, 1
    {
      hide BoundNames, Distinct, NoEmpty, FirstHeld, Ran, Depicts;
      SomeBound(iters, Loop(depth));
      assert InRange(policy, slots, iters[Loop(depth)]);
      Run(script, depth + 1, b);
      ghost var here := iters;
      Increment(Loop(depth));
      if !destroyed {
        StepDepicts(slots, here, depth, Ran(policy, b, script, 0), iters[Loop(depth)]);
      }
    }

    /** A visit of a loop whose callback does nothing to the list. */
    method PassBy(depth: nat, ghost b: Book)
      requires Valid() && !destroyed && Loop(depth) in iters && !IsEnd(iters[Loop(depth)])
      requires Shows(b, depth + 1)
      modifies this`iters
      ensures ShowsLoop(b, depth)
      ensures Valid() && Loop(depth) in iters && iters == old(iters)[Loop(depth) := iters[Loop(depth)]]
      ensures Evolves(slots, slots) && MovedOn(old(iters[Loop(depth)]), iters[Loop(depth)])
    {
      hide Consistent, Depicts;
      ghost var here := iters;
      Pass(Loop(depth));
      StepDepicts(slots, here, depth, b, iters[Loop(depth)]);
    }

    /** A loop under way on a list that was `start`: what it has seen and visited so far. */
    ghost predicate Looping(start: seq<Slot>, n: Name, seen: seq<Slot>, visits: seq<nat>)
      reads this
    {
      && n in iters
      && visits == Occupied(seen) && SeenBetween(start, seen, slots) && Evolves(start, slots)
      && (if destroyed then
            visits != [] && |seen| == visits[|visits| - 1] + 1
          else
            && iters[n].bound && iters[n].maxIndex == (if policy == All then NoLimit else UpTo(|start|))
            && |seen| == iters[n].index
            && (!IsEnd(iters[n]) ==> iters[n].index < |slots| && slots[iters[n].index].Held?))
    }

    /** One round of a loop: the call, what its callback does, and the step. */
    method Round(loop: Action, k: nat, depth: nat, ghost b: Book) returns (k': nat, ghost c: Book)
      requires loop.Notify? && k <= |loop.responses| && ShowsLoop(b, depth)
      requires Valid() && !destroyed && FreeFrom(depth + 1) && Loop(depth) in iters && !IsEnd(iters[Loop(depth)])
      requires iters[Loop(depth)].index < |slots| && slots[iters[Loop(depth)].index].Held?
      modifies this
      ensures k' == (if k < |loop.responses| then k + 1 else k)
      ensures k == |loop.responses| ==> slots == old(slots) && !destroyed
      ensures ShowsLoop(c, depth) && Looped(policy, b, loop, k) == Looped(policy, c, loop, k')
      ensures Valid() && Loop(depth) in iters && iters == old(iters)[Loop(depth) := iters[Loop(depth)]]
      ensures Evolves(old(slots), slots) && (!destroyed ==> MovedOn(old(iters[Loop(depth)]), iters[Loop(depth)]))
      decreases loop, 0
    {
      hide Consistent, Depicts, DepictsLoop, Evolves, MovedOn, Ran;
      Call(depth, b);
      k', c := k, NextCalled(b);
      if k < |loop.responses| {
        Visit(loop.responses[k], depth, c);
        k', c := k + 1, Ran(policy, c, loop.responses[k], 0);
      } else {
        PassBy(depth, c);
      }
    }

    /** The loop once its iterator exists: visits until the end. */
    method LoopFrom(loop: Action, depth: nat, ghost b: Book)
      returns (visits: seq<nat>, ghost seen: seq<Slot>)
      requires loop.Notify? && Valid() && !destroyed && FreeFrom(depth + 1) && Loop(depth) in iters
      requires Looping(slots, Loop(depth), Empties(iters[Loop(depth)].index), [])
      requires ShowsLoop(b, depth)
      modifies this
      ensures ShowsLoop(Looped(policy, b, loop, 0), depth)
      ensures Valid() && Loop(depth) in iters && iters == old(iters)[Loop(depth) := iters[Loop(depth)]]
      ensures Looping(old(slots), Loop(depth), seen, visits) && IsEnd(iters[Loop(depth)])
      decreases loop, 1
    {
      hide Consistent, Evolves, SeenBetween, Occupied, DepictsLoop, Looped;
      var n := Loop(depth);
      ghost var start := slots;
      visits := [];
      seen := Empties(iters[n].index);
      var k := 0;
      ghost var c := b;
      while !IsEnd(iters[n])
        invariant k <= |loop.responses|
        invariant Valid() && n in iters && iters == old(iters)[n := iters[n]]
        invariant FreeFrom(depth + 1) && Looping(start, n, seen, visits)
        invariant ShowsLoop(c, depth) && Looped(policy, c, loop, k) == Looped(policy, b, loop, 0)
        decreases |loop.responses| - k, if IsEnd(iters[n]) then 0 else 1 + |slots| - iters[n].index
      {
        var at := iters[n].index;
        ghost var before := slots;
        visits := visits + [at];
        k, c := Round(loop, k, depth, c);
        ghost var next := if destroyed then at + 1 else iters[n].index;
        Grown(before, slots);
        VisitAndStep(start, seen, before, slots, next);
        seen := seen + [before[at]] + Empties(next - at - 1);
      }
      AtEnd(depth, c, loop, k);
    }

    lemma AtEnd(depth: nat, b: Book, loop: Action, k: nat)
      requires ShowsLoop(b, depth) && Loop(depth) in iters && IsEnd(iters[Loop(depth)])
      requires loop.Notify? && k <= |loop.responses|
      ensures Looped(policy, b, loop, k) == b
    {
      if !destroyed {
        LoopOverIff(slots, iters, depth, b);
      }
    }

    /** obs.OnEvent(), of the observer the loop is at. */
    method Call(depth: nat, ghost b: Book)
      requires !destroyed && Loop(depth) in iters && !IsEnd(iters[Loop(depth)])
      requires iters[Loop(depth)].index < |slots| && slots[iters[Loop(depth)].index].Held?
      requires ShowsLoop(b, depth)
      modifies this`called
      ensures b.pending != [] && !LoopOver(b) && Shows(NextCalled(b), depth + 1)
    {
      LoopOverIff(slots, iters, depth, b);
      VisitDepicts(slots, iters, depth, b);
      called := called + [slots[iters[Loop(depth)].index].observer];
    }

    /** begin() of a loop. */
    method BeginLoop(depth: nat, ghost b: Book)
      requires Valid() && !destroyed && FreeFrom(depth) && Shows(b, depth)
      modifies this`liveIteratorCount, this`iters
      ensures Valid() && FreeFrom(depth + 1) && Loop(depth) in iters
      ensures iters == old(iters)[Loop(depth) := iters[Loop(depth)]]
      ensures iters[Loop(depth)].bound <==> slots != []
      ensures slots != [] ==>
        ShowsLoop(LoopOpened(b), depth) && Looping(slots, Loop(depth), Empties(iters[Loop(depth)].index), [])
    {
      hide Consistent, FirstHeld, SeenBetween, Occupied, Depicts, DepictsLoop;
      Begin(Loop(depth));
      if slots != [] {
        StartOfLoop(slots, iters[Loop(depth)].index);
        OpenDepicts(slots, old(iters), depth, b, iters[Loop(depth)]);
      }
    }

    /** The destructor of a loop's iterator. */
    method EndLoop(depth: nat, ghost b: Book)
      requires Valid() && Loop(depth) in iters && ShowsLoop(b, depth)
      modifies this`slots, this`liveIteratorCount, this`iters
      ensures Valid() && iters == old(iters) - {Loop(depth)} && Shows(LoopClosed(b), depth)
      ensures slots == if !destroyed && liveIteratorCount == 0 then Compacted(old(slots)) else old(slots)
    {
      hide Distinct, NoEmpty, InRange, Depicts, DepictsLoop, BoundNames, Compacted;
      if !destroyed {
        CloseDepicts(slots, iters, depth, b);
        SomeBound(iters, Loop(depth));
      }
      DestroyIter(Loop(depth));
      if !destroyed && liveIteratorCount == 0 {
        NoneBound(iters);
        CompactDepicts(old(slots), iters, depth, LoopClosed(b));
      }
    }

    lemma SameCount(others: map<Name, Iter>)
      requires Valid() && iters == others
      ensures !destroyed ==> liveIteratorCount == |BoundNames(others)|
    {
    }

    /** for (Observer& obs : list) obs.OnEvent(); */
    method NotifyObservers(loop: Action, depth: nat, ghost b: Book)
      returns (visits: seq<nat>, ghost seen: seq<Slot>, ghost end: seq<Slot>)
      requires loop.Notify? && Valid() && !destroyed && FreeFrom(depth) && Shows(b, depth)
      modifies this
      ensures Shows(Performed(policy, b, loop), depth)
      ensures Valid() && iters == old(iters)
      ensures !destroyed ==> liveIteratorCount == old(liveIteratorCount)
      ensures !destroyed ==> Completed(policy, old(slots), seen, end, visits)
      ensures !destroyed ==> slots == if liveIteratorCount == 0 then Compacted(end) else end
      ensures destroyed ==> visits == Occupied(seen) && visits != [] && |seen| == visits[|visits| - 1] + 1
      ensures destroyed ==> SeenBetween(old(slots), seen, slots) && Evolves(old(slots), slots)
      decreases loop, 2
    {
      hide Consistent, Compacted, SeenBetween, Evolves, Occupied, Depicts, DepictsLoop, Looped;
      SameCount(iters);
      if slots == [] {
        NobodyToCall(b, loop, depth);
      }
      BeginLoop(depth, b);
      if !iters[Loop(depth)].bound {
        visits, seen, end := [], [], [];
        StartOfLoop([], 0);
        CompactedAll([]);
        DestroyIter(Loop(depth));
      } else {
        visits, seen := LoopFrom(loop, depth, LoopOpened(b));
        end := slots;
        if !destroyed {
          Grown(old(slots), end);
        }
        EndLoop(depth, Looped(policy, LoopOpened(b), loop, 0));
      }
      assert iters == old(iters);
      SameCount(old(iters));
    }

    lemma NobodyToCall(b: Book, loop: Action, depth: nat)
      requires loop.Notify? && !destroyed && slots == [] && Shows(b, depth)
      ensures Performed(policy, b, loop) == b
    {
      assert LoopClosed(LoopOpened(b)) == b;
    }

    // ----- Whole runs -----

    ghost function Now(): Moment
      reads this
    {
      Moment(slots, liveIteratorCount, iters, destroyed)
    }

    /** One step of any program; a step that its language would not allow is skipped. */
    method Apply(op: Op, ghost b: Book)
      requires Valid() && FreeFrom(0) && Shows(b, 0)
      modifies this
      ensures Shows(Applied(policy, b, op), 0)
      ensures Valid() && FreeFrom(0)
      ensures !destroyed && old(liveIteratorCount) > 0 && liveIteratorCount > 0 ==> Evolves(old(slots), slots)
    {
      hide Consistent, Names, Compacted, Performed;
      NamesOfCompacted(slots);
      match op
      case Call(action) =>
        Perform(action, 0, b);
      case BeginInto(id) =>
        if !destroyed && Other(id) !in iters {
          Begin(Other(id));
        }
      case CopyInto(id, source) =>
        if Other(id) !in iters && Other(source) in iters {
          CopyIter(Other(id), Other(source));
        }
      case Assign(id, source) =>
        if Other(id) in iters && Other(source) in iters {
          AssignIter(Other(id), Other(source));
        }
      case Advance(id) =>
        if Other(id) in iters && !IsEnd(iters[Other(id)]) {
          Pass(Other(id));
        }
      case Drop(id) =>
        if Other(id) in iters {
          DestroyIter(Other(id));
        }
    }

    /** Every run from a new list: each state on the way is consistent until the list is
        destroyed, and between two states with a live iterator the vector only evolves. */
    method ApplyAll(ops: seq<Op>, ghost b: Book) returns (ghost trace: seq<Moment>)
      requires Valid() && FreeFrom(0) && Shows(b, 0)
      modifies this
      ensures Shows(AllApplied(policy, b, ops), 0)
      ensures Valid() && FreeFrom(0)
      ensures |trace| == |ops| + 1 && trace[0] == old(Now()) && trace[|ops|] == Now()
      ensures forall i | 0 <= i <= |ops| ::
        trace[i].destroyed || Consistent(policy, trace[i].slots, trace[i].count, trace[i].iters)
      ensures forall i | 0 <= i < |ops| && !trace[i + 1].destroyed && trace[i].count > 0 && trace[i + 1].count > 0 ::
        Evolves(trace[i].slots, trace[i + 1].slots)
    {
      hide Consistent, Evolves, Shows, Applied;
      trace := [Now()];
      assert ops[..0] == [];
      for k := 0 to |ops|
        invariant Valid() && FreeFrom(0) && Shows(AllApplied(policy, b, ops[..k]), 0)
        invariant |trace| == k + 1 && trace[0] == old(Now()) && trace[k] == Now()
        invariant forall i | 0 <= i <= k ::
          trace[i].destroyed || Consistent(policy, trace[i].slots, trace[i].count, trace[i].iters)
        invariant forall i | 0 <= i < k && !trace[i + 1].destroyed && trace[i].count > 0 && trace[i + 1].count > 0 ::
          Evolves(trace[i].slots, trace[i + 1].slots)
      {
        assert ops[..k + 1][..k] == ops[..k];
        Apply(ops[k], AllApplied(policy, b, ops[..k]));
        trace := trace + [Now()];
      }
      assert ops[..|ops|] == ops;
    }
  }

  /** Any program, from a new list on: the callbacks made are those of the reference. */
  method RunProgram(policy: Policy, program: seq<Op>) returns (list: ObserverList)
    ensures fresh(list) && list.Valid() && list.policy == policy
    ensures var b := AllApplied(policy, Book([], [], false, []), program);
            list.called == b.called && list.destroyed == b.destroyed &&
            (!b.destroyed ==> Names(list.slots) == b.registered)
  {
    hide AllApplied;
    list := new ObserverList(policy);
    var _ := list.ApplyAll(program, Book([], [], false, []));
  }
}
