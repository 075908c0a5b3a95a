/** How the vector and the iterators of base/observer_list.h stand for a book of who is
    registered and who is still to be called, and how every operation on the one is the
    operation on the other. */
module ObserverDepiction {
  import opened ObserverReference
  import opened ObserverSlots

  /** The observers in the vector, in order. */
  function Names(slots: seq<Slot>): (r: seq<Observer>)
    ensures forall o :: o in r <==> Held(o) in slots
  {
    if slots == [] then []
    else
      var front := Names(slots[..|slots| - 1]);
      assert slots == slots[..|slots| - 1] + [slots[|slots| - 1]];
      if slots[|slots| - 1].Held? then front + [slots[|slots| - 1].observer] else front
  }

  lemma NamesOfOneMore(slots: seq<Slot>, s: Slot)
    ensures Names(slots + [s]) == Names(slots) + if s.Held? then [s.observer] else []
  {
    assert (slots + [s])[..|slots|] == slots;
  }

  lemma {:induction false} NamesConcat(a: seq<Slot>, b: seq<Slot>)
    ensures Names(a + b) == Names(a) + Names(b)
    decreases |b|
  {
    if b == [] {
      assert a + b == a;
    } else {
      var front, last := b[..|b| - 1], b[|b| - 1];
      NamesConcat(a, front);
      assert a + b == (a + front) + [last] && b == front + [last];
      NamesOfOneMore(a + front, last);
      NamesOfOneMore(front, last);
    }
  }

  lemma {:induction false} NamesOfCompacted(slots: seq<Slot>)
    ensures Names(Compacted(slots)) == Names(slots)
  {
    if slots != [] {
      var front, last := slots[..|slots| - 1], slots[|slots| - 1];
      NamesOfCompacted(front);
      NamesOfOneMore(Compacted(front), last);
    }
  }

  lemma {:induction false} NamesOfWithout(slots: seq<Slot>, o: Observer)
    ensures Names(Without(slots, o)) == Minus(Names(slots), o)
  {
    if slots == [] {
      assert Without(slots, o) == [];
    } else {
      var front, last := slots[..|slots| - 1], slots[|slots| - 1];
      NamesOfWithout(front, o);
      var w := if last == Held(o) then Empty else last;
      assert Without(slots, o) == Without(front, o) + [w];
      NamesOfOneMore(Without(front, o), w);
      if last.Held? {
        MinusOfOneMore(Names(front), last.observer, o);
      }
    }
  }

  lemma MinusOfOneMore(s: seq<Observer>, x: Observer, o: Observer)
    ensures Minus(s + [x], o) == if x == o then Minus(s, o) else Minus(s, o) + [x]
  {
    assert (s + [x])[..|s|] == s;
  }

  lemma {:induction false} NamesOfEmpty(slots: seq<Slot>)
    requires forall j | 0 <= j < |slots| :: slots[j].Empty?
    ensures Names(slots) == []
  {
    if slots != [] {
      NamesOfEmpty(slots[..|slots| - 1]);
    }
  }

  // ----- One iterator -----

  /** Whom an iterator comes to from slot `from` on, as the vector is. */
  ghost function Ahead(slots: seq<Slot>, it: Iter, from: nat): seq<Observer>
    requires from <= Clamped(it.maxIndex, slots)
  {
    Names(slots[from..Clamped(it.maxIndex, slots)])
  }

  /** A loop whose callback is running, and whom it has still to call. */
  ghost predicate AtVisit(slots: seq<Slot>, it: Iter, pending: seq<Observer>)
  {
    it.bound && it.index < Clamped(it.maxIndex, slots) && pending == Ahead(slots, it, it.index + 1)
  }

  lemma AtVisitAfterAdd(policy: Policy, slots: seq<Slot>, it: Iter, pending: seq<Observer>, o: Observer)
    requires AtVisit(slots, it, pending) && InRange(policy, slots, it)
    ensures AtVisit(slots + [Held(o)], it, if policy == All then pending + [o] else pending)
  {
    var from := it.index + 1;
    if policy == All {
      assert (slots + [Held(o)])[from..|slots| + 1] == slots[from..|slots|] + [Held(o)];
      NamesOfOneMore(slots[from..|slots|], Held(o));
    } else {
      assert (slots + [Held(o)])[from..it.maxIndex.count] == slots[from..it.maxIndex.count];
    }
  }

  lemma AtVisitAfterRemove(slots: seq<Slot>, it: Iter, pending: seq<Observer>, o: Observer)
    requires AtVisit(slots, it, pending)
    ensures AtVisit(Without(slots, o), it, Minus(pending, o))
  {
    var from, to := it.index + 1, Clamped(it.maxIndex, slots);
    assert Without(slots, o)[from..to] == Without(slots[from..to], o);
    NamesOfWithout(slots[from..to], o);
  }

  lemma AtVisitAfterClear(slots: seq<Slot>, it: Iter, pending: seq<Observer>)
    requires AtVisit(slots, it, pending)
    ensures AtVisit(Empties(|slots|), it, [])
  {
    NamesOfEmpty(Empties(|slots|)[it.index + 1..Clamped(it.maxIndex, slots)]);
  }

  /** The next occupied slot is the next one to be called. */
  lemma NextAhead(slots: seq<Slot>, it: Iter)
    requires it.index < Clamped(it.maxIndex, slots) && slots[it.index].Held?
    ensures Ahead(slots, it, it.index) == [slots[it.index].observer] + Ahead(slots, it, it.index + 1)
  {
    var i, to := it.index, Clamped(it.maxIndex, slots);
    assert slots[i..to] == [slots[i]] + slots[i + 1..to];
    NamesConcat([slots[i]], slots[i + 1..to]);
    assert [slots[i]] == [] + [slots[i]];
    NamesOfOneMore([], slots[i]);
  }

  /** Empty slots are nobody's. */
  lemma SkippedAhead(slots: seq<Slot>, it: Iter, from: nat, next: nat)
    requires from <= next <= Clamped(it.maxIndex, slots) && forall j | from <= j < next :: slots[j].Empty?
    ensures Ahead(slots, it, from) == Ahead(slots, it, next)
  {
    var to := Clamped(it.maxIndex, slots);
    assert slots[from..to] == slots[from..next] + slots[next..to];
    NamesConcat(slots[from..next], slots[next..to]);
    NamesOfEmpty(slots[from..next]);
  }

  // ----- The list -----

  /** The list stands for the book, while the callbacks of `depth` nested loops run. */
  ghost predicate Depicts(slots: seq<Slot>, iters: map<Name, Iter>, depth: nat, b: Book)
  {
    && b.registered == Names(slots)
    && |b.pending| == depth
    && forall d | 0 <= d < depth :: Loop(d) in iters && AtVisit(slots, iters[Loop(d)], b.pending[d])
  }

  lemma AddDepicts(policy: Policy, slots: seq<Slot>, iters: map<Name, Iter>, depth: nat, b: Book, o: Observer)
    requires Depicts(slots, iters, depth, b)
    requires forall n | n in iters && iters[n].bound :: InRange(policy, slots, iters[n])
    ensures Depicts(if Held(o) in slots then slots else slots + [Held(o)], iters, depth, Added(policy, b, o))
  {
    if Held(o) !in slots {
      NamesOfOneMore(slots, Held(o));
      forall d | 0 <= d < depth
        ensures AtVisit(slots + [Held(o)], iters[Loop(d)], Added(policy, b, o).pending[d])
      {
        AtVisitAfterAdd(policy, slots, iters[Loop(d)], b.pending[d], o);
      }
    }
  }

  lemma RemoveDepicts(slots: seq<Slot>, iters: map<Name, Iter>, depth: nat, b: Book, o: Observer)
    requires Depicts(slots, iters, depth, b)
    ensures Depicts(Without(slots, o), iters, depth, Removed(b, o))
  {
    NamesOfWithout(slots, o);
    forall d | 0 <= d < depth
      ensures AtVisit(Without(slots, o), iters[Loop(d)], Removed(b, o).pending[d])
    {
      AtVisitAfterRemove(slots, iters[Loop(d)], b.pending[d], o);
    }
  }

  lemma ClearDepicts(slots: seq<Slot>, iters: map<Name, Iter>, depth: nat, b: Book)
    requires Depicts(slots, iters, depth, b)
    ensures Depicts(Empties(|slots|), iters, depth, Cleared(b))
  {
    NamesOfEmpty(Empties(|slots|));
    forall d | 0 <= d < depth
      ensures AtVisit(Empties(|slots|), iters[Loop(d)], Cleared(b).pending[d])
    {
      AtVisitAfterClear(slots, iters[Loop(d)], b.pending[d]);
    }
  }

  lemma LoopIsBound(slots: seq<Slot>, iters: map<Name, Iter>, depth: nat, b: Book, d: nat)
    requires Depicts(slots, iters, depth, b) && d < depth
    ensures Loop(d) in iters && iters[Loop(d)].bound
  {
  }

  /** Without a bound iterator no loop is under way, and compaction changes nothing that matters. */
  lemma CompactDepicts(slots: seq<Slot>, iters: map<Name, Iter>, depth: nat, b: Book)
    requires Depicts(slots, iters, depth, b) && forall n | n in iters :: !iters[n].bound
    ensures Depicts(Compacted(slots), iters, depth, b)
  {
    if depth > 0 {
      LoopIsBound(slots, iters, depth, b, 0);
    }
    NamesOfCompacted(slots);
  }

  lemma CompactedEmpties(n: nat)
    ensures Compacted(Empties(n)) == []
  {
    if n > 0 {
      assert Empties(n)[..n - 1] == Empties(n - 1);
      CompactedEmpties(n - 1);
    }
  }

  /** Between two visits of the loop of iterator Loop(depth). */
  ghost predicate DepictsLoop(slots: seq<Slot>, iters: map<Name, Iter>, depth: nat, b: Book)
  {
    && b.pending != [] && Depicts(slots, iters, depth, LoopClosed(b))
    && Loop(depth) in iters && iters[Loop(depth)].bound
    && var it := iters[Loop(depth)];
       && it.index <= Clamped(it.maxIndex, slots)
       && (it.index < Clamped(it.maxIndex, slots) ==> slots[it.index].Held?)
       && b.pending[depth] == Ahead(slots, it, it.index)
  }

  /** The loop ends when nobody is left to call. */
  lemma LoopOverIff(slots: seq<Slot>, iters: map<Name, Iter>, depth: nat, b: Book)
    requires DepictsLoop(slots, iters, depth, b) && !b.destroyed
    ensures LoopOver(b) <==> iters[Loop(depth)].index == Clamped(iters[Loop(depth)].maxIndex, slots)
  {
    var it := iters[Loop(depth)];
    if it.index < Clamped(it.maxIndex, slots) {
      NextAhead(slots, it);
    } else {
      assert slots[it.index..Clamped(it.maxIndex, slots)] == [];
    }
  }

  lemma VisitDepicts(slots: seq<Slot>, iters: map<Name, Iter>, depth: nat, b: Book)
    requires DepictsLoop(slots, iters, depth, b) && !LoopOver(b)
    requires iters[Loop(depth)].index < Clamped(iters[Loop(depth)].maxIndex, slots)
    ensures b.pending[depth][0] == slots[iters[Loop(depth)].index].observer
    ensures Depicts(slots, iters, depth + 1, NextCalled(b))
  {
    NextAhead(slots, iters[Loop(depth)]);
  }

  /** The iterator has moved past the visited slot, to the next occupied one. */
  lemma StepDepicts(slots: seq<Slot>, iters: map<Name, Iter>, depth: nat, b: Book, moved: Iter)
    requires Depicts(slots, iters, depth + 1, b)
    requires
      var it := iters[Loop(depth)];
      && moved.bound && moved.maxIndex == it.maxIndex
      && it.index < moved.index <= Clamped(it.maxIndex, slots)
      && (forall j | it.index < j < moved.index :: slots[j].Empty?)
      && (moved.index < Clamped(it.maxIndex, slots) ==> slots[moved.index].Held?)
    ensures DepictsLoop(slots, iters[Loop(depth) := moved], depth, b)
  {
    SkippedAhead(slots, iters[Loop(depth)], iters[Loop(depth)].index + 1, moved.index);
  }

  /** A loop begins with everyone registered. */
  lemma OpenDepicts(slots: seq<Slot>, iters: map<Name, Iter>, depth: nat, b: Book, it: Iter)
    requires Depicts(slots, iters, depth, b) && Loop(depth) !in iters
    requires it.bound && Clamped(it.maxIndex, slots) == |slots| && it.index <= |slots|
    requires forall j | 0 <= j < it.index :: slots[j].Empty?
    requires it.index < |slots| ==> slots[it.index].Held?
    ensures DepictsLoop(slots, iters[Loop(depth) := it], depth, LoopOpened(b))
  {
    assert LoopClosed(LoopOpened(b)) == b;
    SkippedAhead(slots, it, 0, it.index);
    assert slots[0..|slots|] == slots;
  }

  lemma CloseDepicts(slots: seq<Slot>, iters: map<Name, Iter>, depth: nat, b: Book)
    requires DepictsLoop(slots, iters, depth, b)
    ensures iters[Loop(depth)].bound && Depicts(slots, iters - {Loop(depth)}, depth, LoopClosed(b))
  {
  }
}
