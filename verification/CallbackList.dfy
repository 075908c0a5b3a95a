/** base/callback_list.h: a std::list of callbacks that may change while callbacks run. */
module CallbackList {
  import opened CallbackReference

  /** A list iterator: at a node, or end(), where it stays when nodes are appended. */
  datatype Position = At(id: nat) | End

  // ----- Nodes -----

  /** In registration order. */
  ghost predicate Ordered(nodes: seq<Node>)
  {
    forall i, j | 0 <= i < j < |nodes| :: nodes[i].id < nodes[j].id
  }

  lemma {:induction false} LiveNodesOrdered(nodes: seq<Node>)
    requires Ordered(nodes)
    ensures Ordered(LiveNodes(nodes))
  {
    if nodes != [] {
      var front, last := nodes[..|nodes| - 1], nodes[|nodes| - 1];
      LiveNodesOrdered(front);
      forall n | n in LiveNodes(front)
        ensures n.id < last.id
      {
        assert n in front;
      }
    }
  }

  /** The index of a position. */
  function IndexOf(nodes: seq<Node>, p: Position): (i: nat)
    ensures i <= |nodes|
    ensures i < |nodes| ==> p == At(nodes[i].id)
    ensures p.At? ==> forall j | 0 <= j < i :: nodes[j].id != p.id
  {
    if p.End? then |nodes| else IndexOfId(nodes, p.id)
  }

  function IndexOfId(nodes: seq<Node>, id: nat): (i: nat)
    ensures i <= |nodes|
    ensures i < |nodes| ==> nodes[i].id == id
    ensures forall j | 0 <= j < i :: nodes[j].id != id
  {
    if nodes == [] || nodes[0].id == id then 0 else 1 + IndexOfId(nodes[1..], id)
  }

  function PositionAt(nodes: seq<Node>, i: nat): Position
  {
    if i < |nodes| then At(nodes[i].id) else End
  }

  lemma IndexAtPosition(nodes: seq<Node>, i: nat)
    requires Ordered(nodes) && i <= |nodes|
    ensures IndexOf(nodes, PositionAt(nodes, i)) == i
  {
    hide IndexOfId;
  }

  /** The first live node from `i` on, or the length. */
  function FirstLive(nodes: seq<Node>, i: nat): (r: nat)
    requires i <= |nodes|
    ensures i <= r <= |nodes| && (r < |nodes| ==> nodes[r].live)
    ensures forall j | i <= j < r :: !nodes[j].live
    decreases if i <= |nodes| then |nodes| - i else 0
  {
    if i == |nodes| || nodes[i].live then i else FirstLive(nodes, i + 1)
  }

  /** What may happen while an iterator is active: nodes are appended, and a callback is nulled. */
  ghost predicate Evolves(before: seq<Node>, after: seq<Node>)
  {
    && |before| <= |after|
    && forall i | 0 <= i < |before| :: after[i].id == before[i].id && (after[i].live ==> before[i].live)
  }

  lemma EvolvesKeepsIndex(before: seq<Node>, after: seq<Node>, p: Position)
    requires Evolves(before, after) && Ordered(after) && p.At? && IndexOf(before, p) < |before|
    ensures IndexOf(after, p) == IndexOf(before, p)
  {
    hide IndexOfId;
    var i := IndexOf(before, p);
    IndexAtPosition(after, i);
  }

  /** An iterator position that is still in the list. */
  ghost predicate PointsInto(nodes: seq<Node>, p: Position)
  {
    p.At? ==> IndexOf(nodes, p) < |nodes|
  }

  /** The subscriptions are those of the live nodes. */
  ghost predicate Subscribed(nodes: seq<Node>, subscriptions: set<nat>)
  {
    && (forall i | 0 <= i < |nodes| :: nodes[i].live <==> nodes[i].id in subscriptions)
    && (forall id | id in subscriptions :: IndexOfId(nodes, id) < |nodes|)
  }

  // ----- The list as a book -----

  /** The nodes an iterator has still before it. */
  function Rest(nodes: seq<Node>, p: Position): seq<Node>
  {
    nodes[IndexOf(nodes, p)..]
  }

  /** The list stands for the book while the callbacks of `depth` nested passes run. */
  ghost predicate Depicts(nodes: seq<Node>, iters: map<nat, Position>, depth: nat, b: Book)
  {
    && b.nodes == nodes && |b.pending| == depth
    && (forall d: nat :: d in iters <==> d < depth)
    && forall d | 0 <= d < depth :: b.pending[d] == Rest(nodes, iters[d])
  }

  lemma RegisterDepicts(nodes: seq<Node>, iters: map<nat, Position>, depth: nat, b: Book)
    requires Depicts(nodes, iters, depth, b) && Ordered(nodes + [Node(b.nextId, true)])
    requires forall d | d in iters :: PointsInto(nodes, iters[d])
    ensures Depicts(nodes + [Node(b.nextId, true)], iters, depth, Registered(b))
  {
    hide IndexOf;
    forall d | 0 <= d < depth
      ensures Registered(b).pending[d] == Rest(nodes + [Node(b.nextId, true)], iters[d])
    {
      RestAfterAppend(nodes, Node(b.nextId, true), iters[d]);
    }
  }

  lemma RestAfterAppend(nodes: seq<Node>, node: Node, p: Position)
    requires Ordered(nodes + [node]) && PointsInto(nodes, p)
    ensures Rest(nodes + [node], p) == if Rest(nodes, p) == [] then [] else Rest(nodes, p) + [node]
  {
    hide IndexOfId;
    if p.At? {
      IndexOfIdIs(nodes + [node], p.id, IndexOf(nodes, p));
    }
  }

  lemma UnsubscribeDepicts(nodes: seq<Node>, iters: map<nat, Position>, depth: nat, b: Book, id: nat)
    requires Depicts(nodes, iters, depth, b) && Ordered(nodes)
    requires forall d | d in iters :: PointsInto(nodes, iters[d])
    ensures
      Depicts(if depth == 0 then LiveNodes(Nulled(nodes, id)) else Nulled(nodes, id), iters, depth, Unsubscribed(b, id))
  {
    hide IndexOf, Nulled, LiveNodes;
    forall d | 0 <= d < depth
      ensures Unsubscribed(b, id).pending[d] == Rest(Nulled(nodes, id), iters[d])
    {
      RestAfterNulled(nodes, id, iters[d]);
    }
  }

  lemma RestAfterNulled(nodes: seq<Node>, id: nat, p: Position)
    requires Ordered(nodes) && PointsInto(nodes, p)
    ensures Rest(Nulled(nodes, id), p) == Nulled(Rest(nodes, p), id)
  {
    hide IndexOfId;
    if p.At? {
      IndexOfIdIs(Nulled(nodes, id), p.id, IndexOf(nodes, p));
    }
  }

  lemma OpenDepicts(nodes: seq<Node>, iters: map<nat, Position>, depth: nat, b: Book)
    requires Depicts(nodes, iters, depth, b) && Ordered(nodes)
    ensures Depicts(nodes, iters[depth := PositionAt(nodes, 0)], depth + 1, PassOpened(b))
  {
    hide IndexOf;
    IndexAtPosition(nodes, 0);
  }

  lemma CloseDepicts(nodes: seq<Node>, iters: map<nat, Position>, depth: nat, b: Book)
    requires Depicts(nodes, iters, depth + 1, b)
    ensures Depicts(if depth == 0 then LiveNodes(nodes) else nodes, iters - {depth}, depth, PassClosed(b))
  {
    hide IndexOf, LiveNodes;
  }

  lemma NoneLive(nodes: seq<Node>)
    ensures LiveNodes(nodes[..0]) == [] && AllLive(nodes[..0])
  {
  }

  lemma LiveNodesStep(nodes: seq<Node>, i: nat)
    requires i < |nodes|
    ensures LiveNodes(nodes[..i + 1]) == if nodes[i].live then LiveNodes(nodes[..i]) + [nodes[i]] else LiveNodes(nodes[..i])
    ensures AllLive(nodes[..i + 1]) <==> AllLive(nodes[..i]) && nodes[i].live
  {
    assert nodes[..i + 1][..i] == nodes[..i];
    assert nodes[..i + 1] == nodes[..i] + [nodes[i]];
  }

  lemma {:induction false} LiveNodesLength(nodes: seq<Node>)
    ensures |LiveNodes(nodes)| <= |nodes| && (|LiveNodes(nodes)| < |nodes| <==> !AllLive(nodes))
  {
    if nodes != [] {
      var n := |nodes| - 1;
      LiveNodesLength(nodes[..n]);
      LiveNodesStep(nodes, n);
      assert nodes[..n + 1] == nodes;
    }
  }

  /** When the removal callback is due, after a pass and after a subscription. */
  lemma ClosedNodes(nodes: seq<Node>, iters: map<nat, Position>, depth: nat, b: Book)
    requires Depicts(nodes, iters, depth + 1, b)
    ensures Erases(b, PassClosed(b)) <==> depth == 0 && !AllLive(nodes) && b.removal != []
    ensures PassClosed(b).removal == b.removal && PassClosed(b).ran == b.ran && PassClosed(b).nextId == b.nextId
    ensures |PassClosed(b).pending| == depth
  {
    hide LiveNodes, IndexOf, AllLive;
    LiveNodesLength(nodes);
  }

  lemma UnsubscribedNodes(nodes: seq<Node>, iters: map<nat, Position>, depth: nat, b: Book, id: nat)
    requires Depicts(nodes, iters, depth, b) && Subscription(b, id)
    ensures Erases(b, Unsubscribed(b, id)) <==> depth == 0 && b.removal != []
  {
    hide LiveNodes, IndexOf;
    LiveNodesLength(Nulled(nodes, id));
    var i :| 0 <= i < |nodes| && nodes[i] == Node(id, true);
    assert !Nulled(nodes, id)[i].live;
  }

  lemma {:induction false} SkipNullIs(nodes: seq<Node>, i: nat)
    requires i <= |nodes|
    ensures SkipNull(nodes[i..]) == nodes[FirstLive(nodes, i)..]
    decreases if i <= |nodes| then |nodes| - i else 0
  {
    if i < |nodes| && !nodes[i].live {
      SkipNullIs(nodes, i + 1);
      assert nodes[i..][1..] == nodes[i + 1..];
    }
  }

  lemma DepictedPasses(nodes: seq<Node>, iters: map<nat, Position>, depth: nat, b: Book)
    requires Depicts(nodes, iters, depth, b)
    ensures b.nodes == nodes && |b.pending| == depth && forall d: nat | d < depth :: d in iters
  {
  }

  lemma MoveDepicts(nodes: seq<Node>, iters: map<nat, Position>, depth: nat, b: Book, p: Position, c: Book)
    requires Depicts(nodes, iters, depth + 1, b) && |b.pending| == depth + 1
    requires c.nodes == b.nodes && c.pending == b.pending[depth := Rest(nodes, p)]
    ensures Depicts(nodes, iters[depth := p], depth + 1, c)
  {
    hide IndexOf;
  }

  lemma RestAtPosition(nodes: seq<Node>, i: nat)
    requires Ordered(nodes)
    ensures Rest(nodes, PositionAt(nodes, i)) == if i <= |nodes| then nodes[i..] else []
  {
    hide IndexOfId;
    if i < |nodes| {
      IndexAtPosition(nodes, i);
    }
  }

  lemma ReachIs(nodes: seq<Node>, iters: map<nat, Position>, depth: nat, b: Book)
    requires Depicts(nodes, iters, depth + 1, b)
    ensures Reach(b) == nodes[FirstLive(nodes, IndexOf(nodes, iters[depth]))..]
  {
    hide IndexOf, FirstLive;
    SkipNullIs(nodes, IndexOf(nodes, iters[depth]));
  }

  lemma StepIs(nodes: seq<Node>, b: Book, i: nat)
    requires b.pending != [] && i <= |nodes| && Reach(b) == nodes[i..]
    ensures
      var c := Stepped(b);
      && c.nodes == b.nodes && c.nextId == b.nextId && c.removal == b.removal
      && c.pending == b.pending[|b.pending| - 1 := if i < |nodes| then nodes[i + 1..] else []]
      && c.ran == b.ran + if i < |nodes| then [nodes[i].id] else []
  {
    hide Reach;
    if i < |nodes| {
      assert nodes[i..][1..] == nodes[i + 1..];
    } else {
      assert b.ran + [] == b.ran;
    }
  }

  /** GetNext as the step of the innermost pass. */
  lemma NextDepicts(nodes: seq<Node>, iters: map<nat, Position>, depth: nat, b: Book, i: nat)
    requires Depicts(nodes, iters, depth + 1, b) && Ordered(nodes)
    requires i == FirstLive(nodes, IndexOf(nodes, iters[depth]))
    ensures (Reach(b) != [] <==> i < |nodes|) && |Stepped(b).pending| == depth + 1
    ensures Stepped(b).ran == b.ran + (if i < |nodes| then [nodes[i].id] else []) && Stepped(b).nextId == b.nextId
    ensures Stepped(b).removal == b.removal
    ensures Depicts(nodes, iters[depth := PositionAt(nodes, i + 1)], depth + 1, Stepped(b))
  {
    hide IndexOf, FirstLive, Ordered, Reach, Stepped, Depicts, PositionAt, Rest;
    DepictedPasses(nodes, iters, depth + 1, b);
    ReachIs(nodes, iters, depth, b);
    StepIs(nodes, b, i);
    RestAtPosition(nodes, i + 1);
    MoveDepicts(nodes, iters, depth, b, PositionAt(nodes, i + 1), Stepped(b));
  }

  /** At rest the list holds exactly the callbacks that are subscribed, in registration order. */
  lemma AtRest(nodes: seq<Node>, subscriptions: set<nat>)
    requires AllLive(nodes) && Ordered(nodes) && Subscribed(nodes, subscriptions)
    ensures forall id :: id in Ids(nodes) <==> id in subscriptions
    ensures forall i, j | 0 <= i < j < |nodes| :: Ids(nodes)[i] < Ids(nodes)[j]
  {
    hide IndexOfId;
    forall id | id in subscriptions
      ensures id in Ids(nodes)
    {
      assert Ids(nodes)[IndexOfId(nodes, id)] == id;
    }
  }

  // ----- What one pass saw -----

  /** The callbacks that ran, in order. */
  function LiveIds(seen: seq<Node>): (r: seq<nat>)
  {
    if seen == [] then []
    else LiveIds(seen[..|seen| - 1]) + if seen[|seen| - 1].live then [seen[|seen| - 1].id] else []
  }

  lemma {:induction false} LiveIdsAre(seen: seq<Node>)
    requires Ordered(seen)
    ensures forall k, l | 0 <= k < l < |LiveIds(seen)| :: LiveIds(seen)[k] < LiveIds(seen)[l]
    ensures forall id | id in LiveIds(seen) :: exists j | 0 <= j < |seen| :: seen[j] == Node(id, true)
    ensures forall j | 0 <= j < |seen| && seen[j].live :: seen[j].id in LiveIds(seen)
  {
    if seen != [] {
      var front, last := seen[..|seen| - 1], seen[|seen| - 1];
      LiveIdsAre(front);
      var ids := LiveIds(front);
      forall id | id in ids
        ensures id < last.id && exists j | 0 <= j < |seen| :: seen[j] == Node(id, true)
      {
        var j :| 0 <= j < |front| && front[j] == Node(id, true);
        assert seen[j] == Node(id, true);
      }
      forall j | 0 <= j < |seen| && seen[j].live
        ensures seen[j].id in LiveIds(seen)
      {
        if j < |front| {
          assert front[j] == seen[j];
        }
      }
      assert forall k | 0 <= k < |ids| :: ids[k] in ids;
      if last.live {
        assert seen[|front|] == Node(last.id, true);
      }
    }
  }

  lemma {:induction false} LiveIdsSkip(seen: seq<Node>, more: seq<Node>)
    requires forall i | 0 <= i < |more| :: !more[i].live
    ensures LiveIds(seen + more) == LiveIds(seen)
    decreases |more|
  {
    if more == [] {
      assert seen + more == seen;
    } else {
      LiveIdsSkip(seen, more[..|more| - 1]);
      assert (seen + more)[..|seen + more| - 1] == seen + more[..|more| - 1];
    }
  }

  /** `seen[j]` is node `j` as it was when the pass came to it. */
  ghost predicate SeenBetween(start: seq<Node>, seen: seq<Node>, now: seq<Node>)
  {
    && |seen| <= |now|
    && forall j | 0 <= j < |seen| ::
         && seen[j].id == now[j].id && (now[j].live ==> seen[j].live)
         && (j < |start| ==> seen[j].live ==> start[j].live)
  }

  /** A finished pass: it came to every node there was at its start, and to some that were
      appended, in order, and ran exactly the callbacks that were still there. */
  ghost predicate Completed(start: seq<Node>, seen: seq<Node>, end: seq<Node>, ran: seq<nat>)
  {
    && Ordered(end) && Evolves(start, end) && SeenBetween(start, seen, end)
    && |start| <= |seen| && ran == LiveIds(seen)
  }

  /** A callback registered before the pass runs in it if and only if it is still there when its
      turn comes, once, and in registration order with respect to every other. */
  lemma RegisteredRunsIffStillThere(start: seq<Node>, seen: seq<Node>, end: seq<Node>, ran: seq<nat>, j: nat)
    requires Completed(start, seen, end, ran) && j < |start|
    ensures start[j].id in ran <==> seen[j].live
    ensures (end[j].live ==> seen[j].live) && (seen[j].live ==> start[j].live)
    ensures forall k, l | 0 <= k < l < |ran| :: ran[k] < ran[l]
  {
    hide LiveIds, Evolves;
    SeenOrdered(seen, end);
    LiveIdsAre(seen);
    SameId(start, end, j);
  }

  lemma SameId(before: seq<Node>, after: seq<Node>, j: nat)
    requires Evolves(before, after) && j < |before|
    ensures j < |after| && after[j].id == before[j].id
  {
  }

  lemma SeenOrdered(seen: seq<Node>, end: seq<Node>)
    requires Ordered(end) && |seen| <= |end| && forall j | 0 <= j < |seen| :: seen[j].id == end[j].id
    ensures Ordered(seen)
  {
  }

  // ----- The list -----

  class CallbackList {
    var nodes: seq<Node>
    var activeIterators: nat
    /** The next registration's number. */
    var nextId: nat
    /** The Subscription objects that exist, by the number of their callback. */
    var subscriptions: set<nat>
    /** What the removal callback does each time it runs from now on; after that it does nothing. */
    var removal: seq<Script>
    /** The active iterators, by nesting depth. */
    var iters: map<nat, Position>
    /** The callbacks that have run, in order. */
    var log: seq<nat>

    ghost predicate Valid()
      reads this
    {
      && activeIterators == |iters|
      && Ordered(nodes) && (forall i | 0 <= i < |nodes| :: nodes[i].id < nextId)
      && Subscribed(nodes, subscriptions)
      && (activeIterators == 0 ==> AllLive(nodes))
      && forall d | d in iters :: PointsInto(nodes, iters[d])
    }

    constructor (removal: seq<Script>)
      ensures Valid() && nodes == [] && iters == map[] && subscriptions == {} && log == [] && nextId == 0
      ensures this.removal == removal
    {
      nodes := [];
      activeIterators := 0;
      nextId := 0;
      subscriptions := {};
      this.removal := removal;
      iters := map[];
      log := [];
    }

    method Add() returns (id: nat)
      requires Valid()
      modifies this`nodes, this`nextId, this`subscriptions
      ensures Valid() && nodes == old(nodes) + [Node(id, true)]
      ensures id == old(nextId) && nextId == id + 1 && subscriptions == old(subscriptions) + {id}
    {
      id := nextId;
      AppendKeeps(nodes, subscriptions, id);
      forall d | d in iters
        ensures PointsInto(nodes + [Node(id, true)], iters[d])
      {
        AppendKeepsPosition(nodes, Node(id, true), iters[d]);
      }
      nodes := nodes + [Node(id, true)];
      nextId := nextId + 1;
      subscriptions := subscriptions + {id};
    }

    /** The node of a destroyed Subscription: nulled while an iterator is active, and erased
        otherwise. */
    method Forget(id: nat)
      requires Valid() && id in subscriptions
      modifies this`nodes, this`subscriptions
      ensures Valid() && subscriptions == old(subscriptions) - {id}
      ensures activeIterators > 0 ==> nodes == Nulled(old(nodes), id)
      ensures activeIterators == 0 ==> nodes == LiveNodes(Nulled(old(nodes), id)) && |nodes| < |old(nodes)|
    {
      hide IndexOfId, LiveNodes, Ordered, Subscribed;
      SubscribedIndex(nodes, subscriptions, id);
      var i := IndexOfId(nodes, id);
      NulledIs(nodes, subscriptions, id, i);
      if activeIterators > 0 {
        nodes := nodes[i := Node(id, false)];
        forall d | d in iters
          ensures PointsInto(nodes, iters[d])
        {
          NulledKeepsPosition(old(nodes), id, iters[d]);
        }
      } else {
        nodes := nodes[..i] + nodes[i + 1..];
        assert iters == map[];
      }
      subscriptions := subscriptions - {id};
    }

    /** Compact: erases the null callbacks, and says if there were any. */
    method Compact() returns (updated: bool)
      modifies this`nodes
      ensures nodes == LiveNodes(old(nodes)) && updated == !AllLive(old(nodes))
    {
      hide LiveNodes, AllLive;
      var kept := [];
      updated := false;
      var i := 0;
      NoneLive(nodes);
      while i < |nodes|
        invariant i <= |nodes| && nodes == old(nodes) && kept == LiveNodes(nodes[..i]) && updated == !AllLive(nodes[..i])
      {
        LiveNodesStep(nodes, i);
        if nodes[i].live {
          kept := kept + [nodes[i]];
        } else {
          updated := true;
        }
        i := i + 1;
      }
      assert nodes[..i] == nodes;
      nodes := kept;
    }

    /** GetIterator. */
    method GetIterator(d: nat)
      requires Valid() && d !in iters
      modifies this`activeIterators, this`iters
      ensures Valid() && iters == old(iters)[d := PositionAt(nodes, 0)]
    {
      hide IndexOfId;
      IndexAtPosition(nodes, 0);
      activeIterators := activeIterators + 1;
      iters := iters[d := PositionAt(nodes, 0)];
    }

    /** GetNext: skips null callbacks, and steps past the one it returns. */
    method GetNext(d: nat) returns (found: bool, id: nat)
      requires Valid() && d in iters
      modifies this`iters
      ensures Valid()
      ensures
        var i := FirstLive(nodes, IndexOf(nodes, old(iters[d])));
        && found == (i < |nodes|)
        && (found ==> id == nodes[i].id)
        && iters == old(iters)[d := PositionAt(nodes, i + 1)]
    {
      hide IndexOf, Subscribed, AllLive, Ordered;
      var i := IndexOf(nodes, iters[d]);
      while i < |nodes| && !nodes[i].live
        invariant i <= |nodes|
        invariant FirstLive(nodes, i) == FirstLive(nodes, IndexOf(nodes, iters[d]))
      {
        i := i + 1;
      }
      found, id := false, 0;
      if i < |nodes| {
        found, id := true, nodes[i].id;
        IndexAtPosition(nodes, i + 1);
      }
      assert PointsInto(nodes, PositionAt(nodes, i + 1));
      assert (iters[d := PositionAt(nodes, i + 1)]).Keys == iters.Keys;
      iters := iters[d := PositionAt(nodes, i + 1)];
    }

    /** ~Iterator; the last one compacts the list. */
    method DestroyIterator(d: nat) returns (updated: bool)
      requires Valid() && d in iters
      modifies this`nodes, this`activeIterators, this`iters
      ensures Valid() && iters == old(iters) - {d}
      ensures nodes == if activeIterators == 0 then LiveNodes(old(nodes)) else old(nodes)
      ensures updated == (activeIterators == 0 && !AllLive(old(nodes)))
    {
      hide IndexOfId, LiveNodes;
      updated := false;
      assert iters.Keys - {d} == (iters - {d}).Keys;
      iters := iters - {d};
      activeIterators := activeIterators - 1;
      if activeIterators == 0 {
        assert iters == map[];
        LiveNodesOrdered(nodes);
        LiveNodesSubscribed(nodes, subscriptions);
        updated := Compact();
      }
    }

    // ----- Passes and the callbacks they run -----

    /** The list stands for the book while the callbacks of `depth` nested passes run. */
    ghost predicate Shows(b: Book, depth: nat)
      reads this
    {
      && b.ran == log && b.nextId == nextId && b.removal == removal && |b.pending| == depth
      && Depicts(nodes, iters, depth, b)
    }

    /** A callback does to the list what the reference does to the book. The iterators around it
        are as they were, none of them at an erased node, and while there is one the list only
        evolves. */
    method Run(script: Script, depth: nat, ghost b: Book)
      requires Valid() && Shows(b, depth)
      modifies this
      ensures Shows(Ran(b, script, 0), depth)
      ensures Valid() && iters == old(iters)
      ensures |removal| <= |old(removal)| && (activeIterators > 0 ==> Evolves(old(nodes), nodes))
      decreases |removal|, script, 0
    {
      hide Ordered, Subscribed, AllLive, PointsInto, Shows, Performed;
      var i := 0;
      ghost var c := b;
      while i < |script.actions|
        invariant i <= |script.actions|
        invariant Shows(c, depth) && Ran(c, script, i) == Ran(b, script, 0)
        invariant Valid() && iters == old(iters)
        invariant |removal| <= |old(removal)| && (activeIterators > 0 ==> Evolves(old(nodes), nodes))
      {
        Perform(script.actions[i], depth, c);
        c := Performed(c, script.actions[i]);
        i := i + 1;
      }
    }

    method Perform(action: Action, depth: nat, ghost b: Book)
      requires Valid() && Shows(b, depth)
      modifies this
      ensures Shows(Performed(b, action), depth)
      ensures Valid() && iters == old(iters)
      ensures |removal| <= |old(removal)| && (activeIterators > 0 ==> Evolves(old(nodes), nodes))
      decreases |removal|, action, 3
    {
      hide Ordered, Subscribed, AllLive, PointsInto, Depicts, Passed, LiveNodes, RemovalRan;
      match action
      case Register =>
        var _ := Add();
        RegisterDepicts(old(nodes), iters, depth, b);
      case Unsubscribe(id) =>
        SubscriptionIs(b, depth, id);
        if id in subscriptions {
          Unsubscribe(action, depth, b);
        }
      case Notify(_) =>
        var _, _, _ := NotifyAll(action, depth, b);
    }

    /** ~Subscription: the node goes, and if it is erased the removal callback runs. */
    method Unsubscribe(action: Action, depth: nat, ghost b: Book)
      requires Valid() && Shows(b, depth) && action.Unsubscribe? && action.id in subscriptions
      modifies this
      ensures Shows(Performed(b, action), depth)
      ensures Valid() && iters == old(iters)
      ensures |removal| <= |old(removal)| && (activeIterators > 0 ==> Evolves(old(nodes), nodes))
      decreases |removal|, action, 2
    {
      hide Ordered, Subscribed, AllLive, PointsInto, Depicts, LiveNodes, RemovalRan;
      var id := action.id;
      SubscriptionIs(b, depth, id);
      UnsubscribeDepicts(nodes, iters, depth, b, id);
      NoIterators(b, depth);
      UnsubscribedNodes(nodes, iters, depth, b, id);
      Forget(id);
      if activeIterators == 0 && removal != [] {
        RemovalCallback(Unsubscribed(b, id));
      }
    }

    /** removal_callback_.Run(): it may register, unsubscribe and notify like any other. */
    method RemovalCallback(ghost b: Book)
      requires Valid() && Shows(b, 0) && removal != []
      modifies this
      ensures Shows(RemovalRan(b), 0)
      ensures Valid() && iters == old(iters) && |removal| < |old(removal)|
      decreases |removal| - 1
    {
      hide Ran, Ordered, Subscribed, AllLive, PointsInto;
      var script := removal[0];
      removal := removal[1..];
      Run(script, 0, b.(removal := b.removal[1..]));
    }

    lemma SubscriptionIs(b: Book, depth: nat, id: nat)
      requires Valid() && Shows(b, depth)
      ensures id in subscriptions <==> Subscription(b, id)
    {
      hide IndexOfId;
      if id in subscriptions {
        SubscribedIndex(nodes, subscriptions, id);
        assert nodes[IndexOfId(nodes, id)] in nodes;
      }
    }

    lemma NoIterators(b: Book, depth: nat)
      requires Valid() && Shows(b, depth)
      ensures activeIterators == 0 <==> depth == 0
    {
      if depth == 0 {
        assert iters.Keys == {};
      } else {
        assert 0 in iters.Keys;
      }
    }

    /** A pass under way: what it has seen, up to its iterator, or up to where the list ended when
        the iterator reached the end. */
    ghost predicate Passing(start: seq<Node>, d: nat, seen: seq<Node>)
      reads this`nodes, this`iters
    {
      && d in iters
      && SeenBetween(start, seen, nodes) && Evolves(start, nodes)
      && (if iters[d].At? then IndexOf(nodes, iters[d]) == |seen| else |start| <= |seen|)
    }

    /** GetNext as a step of a pass. */
    method Advance(d: nat, ghost start: seq<Node>, ghost seen: seq<Node>)
      returns (found: bool, id: nat, ghost seen': seq<Node>)
      requires Valid() && Passing(start, d, seen)
      modifies this`iters
      ensures
        var i := FirstLive(nodes, IndexOf(nodes, old(iters[d])));
        && found == (i < |nodes|)
        && (found ==> id == nodes[i].id)
        && iters == old(iters)[d := PositionAt(nodes, i + 1)]
      ensures Valid() && Passing(start, d, seen')
      ensures LiveIds(seen') == LiveIds(seen) + if found then [id] else []
      ensures if found then old(iters[d]).At? else iters[d].End?
      ensures found && iters[d].At? ==> IndexOf(nodes, iters[d]) > IndexOf(nodes, old(iters[d]))
    {
      hide LiveIds, IndexOf, Subscribed, AllLive, FirstLive, SeenBetween, Evolves, Ordered;
      var p := iters[d];
      ghost var i := FirstLive(nodes, IndexOf(nodes, p));
      found, id := GetNext(d);
      if p.End? {
        seen' := seen;
        NothingAtEnd(nodes, seen);
      } else {
        seen' := seen + nodes[|seen|..if i < |nodes| then i + 1 else i];
        SeenUpTo(start, seen, nodes, i);
        if found {
          IndexAtPosition(nodes, i + 1);
        }
      }
    }

    /** GetNext and the call of what it finds. */
    method Call(d: nat, ghost start: seq<Node>, ghost seen: seq<Node>, ghost b: Book)
      returns (found: bool, id: nat, ghost seen': seq<Node>)
      requires Valid() && d in iters && Passing(start, d, seen) && Shows(b, d + 1)
      modifies this`iters, this`log
      ensures found <==> Reach(b) != []
      ensures Shows(Stepped(b), d + 1)
      ensures Valid() && Passing(start, d, seen') && iters == old(iters)[d := iters[d]]
      ensures LiveIds(seen') == LiveIds(seen) + if found then [id] else []
      ensures if found then old(iters[d]).At? else iters[d].End?
      ensures found && iters[d].At? ==> IndexOf(nodes, iters[d]) > IndexOf(nodes, old(iters[d]))
    {
      hide LiveIds, IndexOf, Subscribed, AllLive, FirstLive, Passing, Ordered, PositionAt, Depicts, PointsInto;
      hide Reach, Stepped;
      NextDepicts(nodes, iters, d, b, FirstLive(nodes, IndexOf(nodes, iters[d])));
      found, id, seen' := Advance(d, start, seen);
      if found {
        log := log + [id];
      }
      assert b.ran + [] == b.ran;
    }

    /** A callback run inside a pass leaves the pass where it is. */
    method RunInPass(script: Script, d: nat, ghost start: seq<Node>, ghost seen: seq<Node>, ghost b: Book)
      requires Valid() && Passing(start, d, seen) && Shows(b, d + 1)
      modifies this
      ensures Shows(Ran(b, script, 0), d + 1)
      ensures Valid() && iters == old(iters) && Passing(start, d, seen) && |removal| <= |old(removal)|
      decreases |removal|, script, 1
    {
      hide IndexOfId, Subscribed, AllLive, Shows, Ran;
      var p := iters[d];
      assert d in iters.Keys && activeIterators > 0;
      assert PointsInto(nodes, p);
      ghost var before := nodes;
      Run(script, d + 1, b);
      if p.At? {
        EvolvesKeepsIndex(before, nodes, p);
      }
    }

    /** One round of a pass: what the callback just found does, and the step to the next. */
    method PassRound(loop: Action, k: nat, d: nat, ghost start: seq<Node>, ghost seen: seq<Node>, ghost b: Book)
      returns (found: bool, id: nat, k': nat, ghost seen': seq<Node>, ghost c: Book)
      requires loop.Notify? && k <= |loop.responses| && Valid() && d in iters
      requires Passing(start, d, seen) && Shows(b, d + 1)
      modifies this
      ensures k' == (if k < |loop.responses| then k + 1 else k)
      ensures Shows(c, d + 1) && Continued(b, loop, k, true) == Continued(c, loop, k', found)
      ensures Valid() && d in iters && iters == old(iters)[d := iters[d]] && Passing(start, d, seen')
      ensures |removal| <= |old(removal)| && (k == |loop.responses| ==> nodes == old(nodes))
      ensures LiveIds(seen') == LiveIds(seen) + if found then [id] else []
      ensures if found then old(iters[d]).At? else iters[d].End?
      ensures k == |loop.responses| && found && iters[d].At? ==> IndexOf(nodes, iters[d]) > IndexOf(nodes, old(iters[d]))
      decreases |removal|, loop, 0
    {
      hide Passing, Ordered, Subscribed, AllLive, PointsInto, IndexOf, LiveIds, Depicts, Reach, Stepped, Passed, Ran;
      k', c := k, b;
      if k < |loop.responses| {
        RunInPass(loop.responses[k], d, start, seen, c);
        k', c := k + 1, Ran(c, loop.responses[k], 0);
      }
      PassedStep(c, loop, k');
      found, id, seen' := Call(d, start, seen, c);
      c := Stepped(c);
    }

    /** The loop of Notify once its iterator exists. */
    method PassFrom(loop: Action, d: nat, ghost b: Book) returns (ran: seq<nat>, ghost seen: seq<Node>)
      requires loop.Notify? && Valid() && d in iters && Shows(b, d + 1)
      requires iters[d] == PositionAt(nodes, 0)
      modifies this
      ensures Shows(Passed(b, loop, 0), d + 1)
      ensures Valid() && d in iters && iters == old(iters)[d := iters[d]]
      ensures Completed(old(nodes), seen, nodes, ran) && |removal| <= |old(removal)|
      decreases |removal|, loop, 1
    {
      hide Passing, Ordered, Subscribed, AllLive, PointsInto, IndexOf, LiveIds, Completed, Depicts;
      hide Reach, Stepped, Passed;
      ghost var start := nodes;
      ran, seen := [], [];
      var found, id;
      PassBegins(d);
      found, id, seen := Call(d, start, seen, b);
      ghost var c := Stepped(b);
      PassedStep(b, loop, 0);
      var k := 0;
      while found
        invariant k <= |loop.responses| && |removal| <= |old(removal)|
        invariant Shows(c, d + 1) && Passed(b, loop, 0) == Continued(c, loop, k, found)
        invariant Valid() && d in iters && iters == old(iters)[d := iters[d]]
        invariant Passing(start, d, seen)
        invariant LiveIds(seen) == ran + if found then [id] else []
        invariant !found ==> iters[d].End?
        decreases |loop.responses| - k,
                  if !found then 0 else 1 + if iters[d].At? then 1 + |nodes| - IndexOf(nodes, iters[d]) else 0
      {
        ran := ran + [id];
        ghost var reached := iters[d];
        found, id, k, seen, c := PassRound(loop, k, d, start, seen, c);
        UpdatedTwice(old(iters), d, reached, iters[d]);
      }
      assert ran + [] == ran;
      PassEnds(start, d, seen);
    }

    lemma PassBegins(d: nat)
      requires Valid() && d in iters && iters[d] == PositionAt(nodes, 0)
      ensures Passing(nodes, d, []) && LiveIds([]) == []
    {
      StartOfPass(nodes);
    }

    lemma PassEnds(start: seq<Node>, d: nat, seen: seq<Node>)
      requires d in iters && iters[d].End? && Valid() && Passing(start, d, seen)
      ensures Completed(start, seen, nodes, LiveIds(seen))
    {
    }

    /** Notify. */
    method NotifyAll(loop: Action, depth: nat, ghost b: Book)
      returns (ran: seq<nat>, ghost seen: seq<Node>, ghost end: seq<Node>)
      requires loop.Notify? && Valid() && Shows(b, depth)
      modifies this
      ensures Shows(Performed(b, loop), depth)
      ensures Valid() && iters == old(iters)
      ensures Completed(old(nodes), seen, end, ran)
      ensures |removal| <= |old(removal)| && (activeIterators > 0 ==> nodes == end && Evolves(old(nodes), nodes))
      decreases |removal|, loop, 2
    {
      hide Completed, Ordered, Subscribed, AllLive, PointsInto, LiveNodes, PositionAt, Depicts, Passed, RemovalRan;
      NotUnderWay(b, depth);
      NoIterators(b, depth);
      OpenDepicts(nodes, iters, depth, b);
      GetIterator(depth);
      ran, seen := PassFrom(loop, depth, PassOpened(b));
      end := nodes;
      ghost var c := Passed(PassOpened(b), loop, 0);
      UpdatedThenRemoved(old(iters), depth, PositionAt(old(nodes), 0), iters[depth]);
      CloseDepicts(nodes, iters, depth, c);
      ClosedNodes(nodes, iters, depth, c);
      CompletedEvolves(old(nodes), seen, end, ran);
      var updated := DestroyIterator(depth);
      if updated && removal != [] {
        RemovalCallback(PassClosed(c));
      }
    }

    lemma NotUnderWay(b: Book, depth: nat)
      requires Shows(b, depth)
      ensures depth !in iters
    {
    }
  }

  /** What is left of a pass that has just found a callback, or none. */
  ghost function Continued(b: Book, pass: Action, k: nat, found: bool): Book
    requires pass.Notify? && b.pending != [] && k <= |pass.responses|
  {
    if !found then b
    else if k < |pass.responses| then Passed(Ran(b, pass.responses[k], 0), pass, k + 1)
    else Passed(b, pass, k)
  }

  lemma PassedStep(b: Book, pass: Action, k: nat)
    requires pass.Notify? && b.pending != [] && k <= |pass.responses|
    ensures |Stepped(b).pending| == |b.pending|
    ensures Passed(b, pass, k) == Continued(Stepped(b), pass, k, Reach(b) != [])
  {
  }

  lemma UpdatedThenRemoved(m: map<nat, Position>, d: nat, p: Position, q: Position)
    requires d !in m
    ensures m[d := p][d := q] - {d} == m
  {
  }

  lemma UpdatedTwice(m: map<nat, Position>, d: nat, p: Position, q: Position)
    ensures m[d := p][d := q] == m[d := q]
  {
  }

  lemma StartOfPass(nodes: seq<Node>)
    requires Ordered(nodes)
    ensures SeenBetween(nodes, [], nodes) && Evolves(nodes, nodes) && LiveIds([]) == []
    ensures PositionAt(nodes, 0).At? ==> IndexOf(nodes, PositionAt(nodes, 0)) == 0
  {
    IndexAtPosition(nodes, 0);
  }

  lemma CompletedEvolves(start: seq<Node>, seen: seq<Node>, end: seq<Node>, ran: seq<nat>)
    requires Completed(start, seen, end, ran)
    ensures Evolves(start, end)
  {
  }

  lemma LiveIdsLast(seen: seq<Node>, node: Node)
    ensures LiveIds(seen + [node]) == LiveIds(seen) + if node.live then [node.id] else []
  {
    assert (seen + [node])[..|seen|] == seen;
  }

  lemma NothingAtEnd(nodes: seq<Node>, seen: seq<Node>)
    ensures FirstLive(nodes, IndexOf(nodes, End)) == |nodes| && LiveIds(seen) + [] == LiveIds(seen)
  {
  }

  /** What GetNext passes over, with the callback it finds. */
  lemma SeenUpTo(start: seq<Node>, seen: seq<Node>, nodes: seq<Node>, i: nat)
    requires SeenBetween(start, seen, nodes) && Evolves(start, nodes) && |seen| <= |nodes| && i == FirstLive(nodes, |seen|)
    ensures
      var seen' := seen + nodes[|seen|..if i < |nodes| then i + 1 else i];
      && SeenBetween(start, seen', nodes)
      && LiveIds(seen') == LiveIds(seen) + (if i < |nodes| then [nodes[i].id] else [])
      && |seen'| == (if i < |nodes| then i + 1 else |nodes|) && |start| <= |nodes|
  {
    hide LiveIds, SeenBetween, FirstLive;
    var skipped := nodes[|seen|..i];
    LiveIdsSkip(seen, skipped);
    SeenMore(start, seen, nodes, if i < |nodes| then i + 1 else i);
    if i < |nodes| {
      LiveIdsLast(seen + skipped, nodes[i]);
      assert seen + nodes[|seen|..i + 1] == seen + skipped + [nodes[i]];
    } else {
      assert LiveIds(seen) + [] == LiveIds(seen);
    }
  }

  lemma SeenMore(start: seq<Node>, seen: seq<Node>, now: seq<Node>, n: nat)
    requires SeenBetween(start, seen, now) && Evolves(start, now) && |seen| <= n <= |now|
    ensures SeenBetween(start, seen + now[|seen|..n], now)
  {
  }

  lemma IndexOfIdIs(nodes: seq<Node>, id: nat, i: nat)
    requires Ordered(nodes) && i < |nodes| && nodes[i].id == id
    ensures IndexOfId(nodes, id) == i
  {
    hide IndexOfId;
    var f := IndexOfId(nodes, id);
  }

  lemma AppendKeeps(nodes: seq<Node>, subscriptions: set<nat>, id: nat)
    requires Ordered(nodes) && Subscribed(nodes, subscriptions) && forall i | 0 <= i < |nodes| :: nodes[i].id < id
    ensures var r := nodes + [Node(id, true)];
            Ordered(r) && Subscribed(r, subscriptions + {id}) && (AllLive(nodes) ==> AllLive(r))
  {
    hide IndexOfId;
    var r := nodes + [Node(id, true)];
    forall x | x in subscriptions + {id}
      ensures IndexOfId(r, x) < |r|
    {
      IndexOfIdIs(r, x, if x == id then |nodes| else IndexOfId(nodes, x));
    }
  }

  lemma AppendKeepsPosition(nodes: seq<Node>, node: Node, p: Position)
    requires Ordered(nodes + [node]) && PointsInto(nodes, p)
    ensures PointsInto(nodes + [node], p)
  {
    hide IndexOfId;
    if p.At? {
      IndexOfIdIs(nodes + [node], p.id, IndexOf(nodes, p));
    }
  }

  lemma NulledKeepsPosition(nodes: seq<Node>, id: nat, p: Position)
    requires Ordered(nodes) && PointsInto(nodes, p)
    ensures PointsInto(Nulled(nodes, id), p)
  {
    hide IndexOfId;
    if p.At? {
      IndexOfIdIs(Nulled(nodes, id), p.id, IndexOf(nodes, p));
    }
  }

  lemma {:induction false} LiveNodesConcat(a: seq<Node>, b: seq<Node>)
    ensures LiveNodes(a + b) == LiveNodes(a) + LiveNodes(b)
    decreases |b|
  {
    if b == [] {
      assert a + b == a;
    } else {
      LiveNodesConcat(a, b[..|b| - 1]);
      assert (a + b)[..|a + b| - 1] == a + b[..|b| - 1];
    }
  }

  lemma LiveNodesSubscribed(nodes: seq<Node>, subscriptions: set<nat>)
    requires Ordered(nodes) && Subscribed(nodes, subscriptions)
    ensures Subscribed(LiveNodes(nodes), subscriptions)
  {
    hide IndexOfId;
    var r := LiveNodes(nodes);
    LiveNodesOrdered(nodes);
    forall i | 0 <= i < |r|
      ensures r[i].live <==> r[i].id in subscriptions
    {
      assert r[i] in r;
      var j :| 0 <= j < |nodes| && nodes[j] == r[i];
    }
    forall id | id in subscriptions
      ensures IndexOfId(r, id) < |r|
    {
      var j := IndexOfId(nodes, id);
      assert nodes[j] in nodes;
      var i :| 0 <= i < |r| && r[i] == nodes[j];
      IndexOfIdIs(r, id, i);
    }
  }

  lemma SubscribedIndex(nodes: seq<Node>, subscriptions: set<nat>, id: nat)
    requires Subscribed(nodes, subscriptions) && id in subscriptions
    ensures IndexOfId(nodes, id) < |nodes|
  {
  }

  /** Unsubscribing, in both forms. */
  lemma NulledIs(nodes: seq<Node>, subscriptions: set<nat>, id: nat, i: nat)
    requires Ordered(nodes) && Subscribed(nodes, subscriptions) && i < |nodes| && nodes[i].id == id
    ensures var r := Nulled(nodes, id);
            && r == nodes[i := Node(id, false)] && Ordered(r) && Subscribed(r, subscriptions - {id})
            && Ordered(LiveNodes(r)) && Subscribed(LiveNodes(r), subscriptions - {id})
            && (AllLive(nodes) ==> LiveNodes(r) == nodes[..i] + nodes[i + 1..])
  {
    hide IndexOfId, LiveNodes;
    var r := Nulled(nodes, id);
    assert r == nodes[i := Node(id, false)];
    forall x | x in subscriptions - {id}
      ensures IndexOfId(r, x) < |r|
    {
      IndexOfIdIs(r, x, IndexOfId(nodes, x));
    }
    LiveNodesOrdered(r);
    LiveNodesSubscribed(r, subscriptions - {id});
    if AllLive(nodes) {
      ErasedOne(nodes, id, i);
    }
  }

  lemma ErasedOne(nodes: seq<Node>, id: nat, i: nat)
    requires AllLive(nodes) && i < |nodes|
    ensures LiveNodes(nodes[i := Node(id, false)]) == nodes[..i] + nodes[i + 1..]
  {
    var dead := [Node(id, false)];
    assert LiveNodes(dead) == [] by { assert dead[..0] == []; }
    var a, b := nodes[..i], nodes[i + 1..];
    assert AllLive(a) && AllLive(b);
    assert nodes[i := Node(id, false)] == a + dead + b;
    hide LiveNodes, AllLive;
    LiveNodesConcat(a + dead, b);
    LiveNodesConcat(a, dead);
    LiveNodesAll(a);
    LiveNodesAll(b);
    assert a + [] == a;
  }

  /** Any program and any removal callback, from a new list on: the callbacks that run are those of
      the reference, and the list then holds exactly the subscribed ones. */
  method RunProgram(program: Script, removal: seq<Script>) returns (list: CallbackList)
    ensures fresh(list) && list.Valid() && list.iters == map[]
    ensures var b := Ran(Book([], [], 0, [], removal), program, 0);
            list.log == b.ran && list.nodes == b.nodes
    ensures forall id :: id in Ids(list.nodes) <==> id in list.subscriptions
    ensures forall i, j | 0 <= i < j < |list.nodes| :: Ids(list.nodes)[i] < Ids(list.nodes)[j]
  {
    hide Ran;
    list := new CallbackList(removal);
    list.Run(program, 0, Book([], [], 0, [], removal));
    AtRest(list.nodes, list.subscriptions);
  }
}
