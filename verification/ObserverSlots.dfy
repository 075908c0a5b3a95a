/** base/observer_list.h: the vector of observers, the iterators over it and what one loop sees,
    as values. */
module ObserverSlots {
  import opened ObserverReference

  /** An element of `observers_`: an observer, or the null that a removal leaves behind
      while an iterator is live. */
  datatype Slot = Empty | Held(observer: Observer)

  /** `max_index_`: the largest size_t under ALL, the size at the start otherwise. */
  datatype Limit = NoLimit | UpTo(count: nat)

  /** An iterator by the name of its variable: a loop's own, by nesting depth, or any other. */
  datatype Name = Loop(depth: nat) | Other(id: nat)

  /** `bound` says that `list_` was set; the pointer is weak, so it still reads as null once
      the list is destroyed. */
  datatype Iter = Iter(bound: bool, index: nat, maxIndex: Limit)

  // ----- Slots -----

  ghost predicate Distinct(slots: seq<Slot>)
  {
    forall i, j | 0 <= i < j < |slots| :: slots[i].Held? ==> slots[i] != slots[j]
  }

  ghost predicate NoEmpty(slots: seq<Slot>)
  {
    Empty !in slots
  }

  function Compacted(slots: seq<Slot>): (c: seq<Slot>)
    ensures NoEmpty(c) && |c| <= |slots|
    ensures forall s | s in c :: s in slots
    ensures forall s | s in slots && s.Held? :: s in c
  {
    if slots == [] then []
    else
      var front := Compacted(slots[..|slots| - 1]);
      assert slots == slots[..|slots| - 1] + [slots[|slots| - 1]];
      if slots[|slots| - 1].Empty? then front else front + [slots[|slots| - 1]]
  }

  lemma {:induction false} CompactedDistinct(slots: seq<Slot>)
    requires Distinct(slots)
    ensures Distinct(Compacted(slots))
  {
    if slots != [] {
      var front, last := slots[..|slots| - 1], slots[|slots| - 1];
      CompactedDistinct(front);
      assert last.Held? ==> last !in front;
    }
  }

  /** The first occupied slot of [from..to), or `to`. */
  function FirstHeld(slots: seq<Slot>, from: nat, to: nat): (i: nat)
    requires from <= to <= |slots|
    ensures from <= i <= to
    ensures forall j | from <= j < i :: slots[j].Empty?
    ensures i < to ==> slots[i].Held?
    decreases if from <= to then to - from else 0
  {
    if from == to || slots[from].Held? then from else FirstHeld(slots, from + 1, to)
  }

  /** What may happen to the vector while an iterator is live: it never shrinks, and a
      slot keeps its observer or loses it for good. */
  ghost predicate Evolves(before: seq<Slot>, after: seq<Slot>)
  {
    && |before| <= |after|
    && forall j | 0 <= j < |before| :: after[j] == before[j] || after[j].Empty?
  }

  /** The vector with the slot of `o` nulled. */
  function Without(slots: seq<Slot>, o: Observer): (w: seq<Slot>)
    ensures |w| == |slots|
    ensures forall i | 0 <= i < |slots| :: w[i] == if slots[i] == Held(o) then Empty else slots[i]
  {
    seq(|slots|, i requires 0 <= i < |slots| => if slots[i] == Held(o) then Empty else slots[i])
  }

  lemma {:induction false} CompactedAll(slots: seq<Slot>)
    requires NoEmpty(slots)
    ensures Compacted(slots) == slots
  {
    if slots != [] {
      var front := slots[..|slots| - 1];
      assert slots == front + [slots[|slots| - 1]];
      CompactedAll(front);
    }
  }

  lemma {:induction false} CompactedConcat(a: seq<Slot>, b: seq<Slot>)
    ensures Compacted(a + b) == Compacted(a) + Compacted(b)
  {
    if b == [] {
      assert a + b == a;
    } else {
      CompactedConcat(a, b[..|b| - 1]);
      assert (a + b)[..|a + b| - 1] == a + b[..|b| - 1];
    }
  }

  lemma WithoutAbsent(slots: seq<Slot>, o: Observer)
    requires Held(o) !in slots
    ensures Without(slots, o) == slots
    ensures NoEmpty(slots) ==> Compacted(slots) == slots
  {
    if NoEmpty(slots) {
      CompactedAll(slots);
    }
  }

  lemma WithoutPresent(slots: seq<Slot>, o: Observer, i: nat)
    requires i < |slots| && slots[i] == Held(o) && Distinct(slots)
    ensures Without(slots, o) == slots[i := Empty]
    ensures NoEmpty(slots) ==> Compacted(Without(slots, o)) == slots[..i] + slots[i + 1..]
  {
    assert Without(slots, o) == slots[i := Empty];
    if NoEmpty(slots) {
      hide Distinct;
      assert slots[i := Empty] == slots[..i] + [Empty] + slots[i + 1..];
      CompactedConcat(slots[..i] + [Empty], slots[i + 1..]);
      CompactedConcat(slots[..i], [Empty]);
      assert Compacted([Empty]) == [] by { assert [Empty][..0] == []; }
      CompactedAll(slots[..i]);
      CompactedAll(slots[i + 1..]);
    }
  }

  /** clamped_max_index(). */
  function Clamped(limit: Limit, slots: seq<Slot>): (n: nat)
    ensures n <= |slots|
  {
    match limit
    case NoLimit => |slots|
    case UpTo(n) => if n <= |slots| then n else |slots|
  }

  /** An iterator's two indices fit the list it is bound to. */
  ghost predicate InRange(policy: Policy, slots: seq<Slot>, it: Iter)
  {
    && it.index <= Clamped(it.maxIndex, slots)
    && (if policy == All then it.maxIndex == NoLimit else it.maxIndex.UpTo? && it.maxIndex.count <= |slots|)
  }

  lemma InRangeKept(policy: Policy, before: seq<Slot>, after: seq<Slot>, it: Iter)
    requires InRange(policy, before, it) && |before| <= |after|
    ensures InRange(policy, after, it)
  {
  }

  // ----- Iterators -----

  function BoundNames(iters: map<Name, Iter>): set<Name>
  {
    set n | n in iters && iters[n].bound
  }

  lemma NoneBound(iters: map<Name, Iter>)
    requires |BoundNames(iters)| == 0
    ensures forall n | n in iters :: !iters[n].bound
  {
    forall n | n in iters
      ensures !iters[n].bound
    {
      assert n !in BoundNames(iters);
    }
  }

  lemma SomeBound(iters: map<Name, Iter>, n: Name)
    requires n in iters && iters[n].bound
    ensures |BoundNames(iters)| > 0
  {
    assert n in BoundNames(iters);
  }

  lemma NotBound(iters: map<Name, Iter>, n: Name)
    requires n !in iters
    ensures n !in BoundNames(iters) && BoundNames(iters) - {n} == BoundNames(iters)
  {
  }

  lemma BoundAfterUpdate(iters: map<Name, Iter>, n: Name, it: Iter)
    ensures BoundNames(iters[n := it]) == if it.bound then BoundNames(iters) + {n} else BoundNames(iters) - {n}
  {
  }

  lemma BoundAfterRemoval(iters: map<Name, Iter>, n: Name)
    ensures BoundNames(iters - {n}) == BoundNames(iters) - {n}
  {
  }

  /** The count is that of the bound iterators, no observer has two slots, a list without
      iterators has no empty slot, and no iterator is past its end. */
  ghost predicate Consistent(policy: Policy, slots: seq<Slot>, count: int, iters: map<Name, Iter>)
  {
    && count == |BoundNames(iters)|
    && Distinct(slots)
    && (count == 0 ==> NoEmpty(slots))
    && forall n | n in iters && iters[n].bound :: InRange(policy, slots, iters[n])
  }

  // ----- What one loop saw -----

  /** The occupied positions, in order. */
  function Occupied(seen: seq<Slot>): (p: seq<nat>)
    ensures forall k | 0 <= k < |p| :: p[k] < |seen| && seen[p[k]].Held?
    ensures forall k, l | 0 <= k < l < |p| :: p[k] < p[l]
    ensures forall j | 0 <= j < |seen| && seen[j].Held? :: j in p
    ensures |p| <= |seen|
  {
    if seen == [] then []
    else
      var front := Occupied(seen[..|seen| - 1]);
      if seen[|seen| - 1].Held? then front + [|seen| - 1] else front
  }

  lemma OccupiedExtends(seen: seq<Slot>, s: Slot, skipped: nat)
    ensures Occupied(seen + [s] + Empties(skipped)) == Occupied(seen) + (if s.Held? then [|seen|] else [])
    decreases skipped
  {
    var all := seen + [s] + Empties(skipped);
    if skipped == 0 {
      assert all[..|all| - 1] == seen;
    } else {
      assert all[..|all| - 1] == seen + [s] + Empties(skipped - 1);
      OccupiedExtends(seen, s, skipped - 1);
    }
  }

  lemma OccupiedEmpties(n: nat)
    ensures Occupied(Empties(n)) == []
  {
    if n > 0 {
      assert Empties(n)[..n - 1] == Empties(n - 1);
      OccupiedEmpties(n - 1);
    }
  }

  function Empties(n: nat): (e: seq<Slot>)
    ensures |e| == n
  {
    seq(n, _ => Empty)
  }

  /** `seen[j]` is what slot `j` held when the iterator came to it, between the vector at the
      start of the loop and the vector now. */
  ghost predicate SeenBetween(start: seq<Slot>, seen: seq<Slot>, now: seq<Slot>)
  {
    && |seen| <= |now|
    && forall j | 0 <= j < |seen| ::
         && (j < |start| ==> seen[j] == start[j] || seen[j].Empty?)
         && (now[j] == seen[j] || now[j].Empty?)
  }

  lemma StartOfLoop(start: seq<Slot>, first: nat)
    requires first <= |start| && forall j | 0 <= j < first :: start[j].Empty?
    ensures SeenBetween(start, Empties(first), start) && Evolves(start, start) && Occupied(Empties(first)) == []
  {
    OccupiedEmpties(first);
  }

  lemma Grown(before: seq<Slot>, after: seq<Slot>)
    requires Evolves(before, after)
    ensures |before| <= |after|
  {
  }

  /** One visit, at the slot after those seen, and the step to the next occupied slot. */
  lemma VisitAndStep(start: seq<Slot>, seen: seq<Slot>, before: seq<Slot>, after: seq<Slot>, next: nat)
    requires Evolves(start, before) && SeenBetween(start, seen, before) && Evolves(before, after)
    requires |seen| < |before| && before[|seen|].Held?
    requires |seen| < next <= |after| && forall j | |seen| < j < next :: after[j].Empty?
    ensures
      var seen' := seen + [before[|seen|]] + Empties(next - |seen| - 1);
      && Evolves(start, after) && SeenBetween(start, seen', after)
      && Occupied(seen') == Occupied(seen) + [|seen|] && |seen'| == next
  {
    OccupiedExtends(seen, before[|seen|], next - |seen| - 1);
  }

  /** A finished loop: it came to every slot below its bound, once and in order, and visited
      exactly the occupied ones. The bound is the size at the start under EXISTING_ONLY and
      the size at the end under ALL, except that a list empty at the start is not visited. */
  ghost predicate Completed(policy: Policy, start: seq<Slot>, seen: seq<Slot>, end: seq<Slot>, visits: seq<nat>)
  {
    && Evolves(start, end)
    && SeenBetween(start, seen, end)
    && visits == Occupied(seen)
    && |seen| == if policy == All && start != [] then |end| else |start|
  }

  /** An observer that was there when the loop began and when it ended was visited, at one
      place in the order of visits. */
  lemma StayingIsVisitedOnce(policy: Policy, start: seq<Slot>, seen: seq<Slot>, end: seq<Slot>,
                             visits: seq<nat>, j: nat)
    requires Completed(policy, start, seen, end, visits)
    requires j < |start| && start[j].Held? && end[j].Held?
    ensures seen[j] == start[j]
    ensures exists k {:trigger visits[k]} | 0 <= k < |visits| ::
      visits[k] == j && forall l | 0 <= l < |visits| && l != k :: visits[l] != j
  {
    assert j < |seen| && seen[j].Held?;
    assert j in visits;
    var k :| 0 <= k < |visits| && visits[k] == j;
    forall l | 0 <= l < |visits| && l != k
      ensures visits[l] != j
    {
      if l < k {
        assert visits[l] < visits[k];
      } else {
        assert visits[k] < visits[l];
      }
    }
  }

  /** Under ALL, an observer added during the loop and still there at its end was visited. */
  lemma AddedIsVisitedUnderAll(start: seq<Slot>, seen: seq<Slot>, end: seq<Slot>, visits: seq<nat>, j: nat)
    requires Completed(All, start, seen, end, visits)
    requires start != [] && |start| <= j < |end| && end[j].Held?
    ensures j in visits && seen[j] == end[j]
  {
  }

  /** Under EXISTING_ONLY, a visit is of a slot that existed at the start. */
  lemma OnlyExistingVisited(start: seq<Slot>, seen: seq<Slot>, end: seq<Slot>, visits: seq<nat>)
    requires Completed(ExistingOnly, start, seen, end, visits)
    ensures |visits| <= |start|
    ensures forall v | v in visits :: v < |start| && start[v].Held? && seen[v] == start[v]
  {
  }
}
