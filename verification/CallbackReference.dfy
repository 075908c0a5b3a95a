/** What base/callback_list.h does, without counts, iterators or positions: which callbacks are in
    the list, which nodes each pass under way has still before it, and what has run. */
module CallbackReference {

  /** A list node: the callback registered under `id`, or the null one left of it. */
  datatype Node = Node(id: nat, live: bool)

  /** What a callback does to the list, in order. */
  datatype Script = Script(actions: seq<Action>)

  /** A nested pass says what each callback it runs does; later ones do nothing. */
  datatype Action =
    | Register
    | Unsubscribe(id: nat)
    | Notify(responses: seq<Script>)

  predicate AllLive(nodes: seq<Node>)
  {
    forall i | 0 <= i < |nodes| :: nodes[i].live
  }

  function LiveNodes(nodes: seq<Node>): (r: seq<Node>)
    ensures AllLive(r)
    ensures forall n | n in r :: n in nodes
    ensures forall n | n in nodes && n.live :: n in r
  {
    if nodes == [] then []
    else
      var front := LiveNodes(nodes[..|nodes| - 1]);
      assert nodes == nodes[..|nodes| - 1] + [nodes[|nodes| - 1]];
      if nodes[|nodes| - 1].live then front + [nodes[|nodes| - 1]] else front
  }

  /** The list with one callback nulled. */
  function Nulled(nodes: seq<Node>, id: nat): (r: seq<Node>)
    ensures |r| == |nodes|
    ensures forall i | 0 <= i < |nodes| :: r[i] == if nodes[i].id == id then Node(id, false) else nodes[i]
  {
    seq(|nodes|, i requires 0 <= i < |nodes| => if nodes[i].id == id then Node(id, false) else nodes[i])
  }

  /** `pending` has one entry per pass under way, the outermost first; `removal` says what the
      removal callback does each time it runs from now on, and after that it does nothing. */
  datatype Book = Book(nodes: seq<Node>, pending: seq<seq<Node>>, nextId: nat, ran: seq<nat>, removal: seq<Script>)

  /** Null callbacks stay in the list while a pass is under way. */
  function Settled(b: Book): Book
  {
    if b.pending == [] then b.(nodes := LiveNodes(b.nodes)) else b
  }

  /** A new callback comes into reach of the passes that have a node left before them, be it a
      null one. */
  function Registered(b: Book): Book
  {
    var node := Node(b.nextId, true);
    b.(nodes := b.nodes + [node], nextId := b.nextId + 1,
       pending := seq(|b.pending|, i requires 0 <= i < |b.pending| =>
                    if b.pending[i] == [] then [] else b.pending[i] + [node]))
  }

  predicate Subscription(b: Book, id: nat)
  {
    Node(id, true) in b.nodes
  }

  function Unsubscribed(b: Book, id: nat): Book
  {
    Settled(b.(nodes := Nulled(b.nodes, id),
               pending := seq(|b.pending|, i requires 0 <= i < |b.pending| => Nulled(b.pending[i], id))))
  }

  /** Past the null callbacks. */
  function SkipNull(nodes: seq<Node>): (r: seq<Node>)
    ensures r == [] || r[0].live
    ensures |r| <= |nodes| && r == nodes[|nodes| - |r|..]
  {
    if nodes == [] || nodes[0].live then nodes else SkipNull(nodes[1..])
  }

  function PassOpened(b: Book): Book
  {
    b.(pending := b.pending + [b.nodes])
  }

  function PassClosed(b: Book): Book
    requires b.pending != []
  {
    Settled(b.(pending := b.pending[..|b.pending| - 1]))
  }

  /** What the innermost pass comes to next. */
  function Reach(b: Book): seq<Node>
    requires b.pending != []
  {
    SkipNull(b.pending[|b.pending| - 1])
  }

  /** The innermost pass runs the next callback, and is already past it. */
  function NextRun(b: Book): Book
    requires b.pending != [] && Reach(b) != []
  {
    b.(pending := b.pending[|b.pending| - 1 := Reach(b)[1..]], ran := b.ran + [Reach(b)[0].id])
  }

  function PassOver(b: Book): Book
    requires b.pending != []
  {
    b.(pending := b.pending[|b.pending| - 1 := []])
  }

  /** The innermost pass looks for the next callback. */
  function Stepped(b: Book): Book
    requires b.pending != []
  {
    if Reach(b) != [] then NextRun(b) else PassOver(b)
  }

  /** After the actions of a callback from the `i`th on. */
  function Ran(b: Book, script: Script, i: nat): (r: Book)
    requires i <= |script.actions|
    ensures |r.pending| == |b.pending| && |r.removal| <= |b.removal|
    decreases |b.removal|, script, if i <= |script.actions| then |script.actions| - i else 0
  {
    if i == |script.actions| then b else Ran(Performed(b, script.actions[i]), script, i + 1)
  }

  /** After the removal callback. */
  function RemovalRan(b: Book): (r: Book)
    requires b.removal != []
    ensures |r.pending| == |b.pending| && |r.removal| < |b.removal|
    decreases if b.removal == [] then 0 else |b.removal| - 1
  {
    Ran(b.(removal := b.removal[1..]), b.removal[0], 0)
  }

  /** A callback has gone from the list: not just nulled, with no pass under way. */
  predicate Erases(b: Book, after: Book)
  {
    after.pending == [] && |after.nodes| < |b.nodes| && after.removal != []
  }

  /** After one action; there is only one Subscription object to destroy per callback. The removal
      callback runs once callbacks have gone from the list. */
  function Performed(b: Book, action: Action): (r: Book)
    ensures |r.pending| == |b.pending| && |r.removal| <= |b.removal|
    decreases |b.removal|, action, 1
  {
    match action
    case Register => Registered(b)
    case Unsubscribe(id) =>
      if !Subscription(b, id) then b
      else
        var c := Unsubscribed(b, id);
        if Erases(b, c) then RemovalRan(c) else c
    case Notify(_) =>
      var end := Passed(PassOpened(b), action, 0);
      var c := PassClosed(end);
      if Erases(end, c) then RemovalRan(c) else c
  }

  /** After the rest of a pass whose next callback is its `k`th. */
  function Passed(b: Book, pass: Action, k: nat): (r: Book)
    requires pass.Notify? && b.pending != [] && k <= |pass.responses|
    ensures |r.pending| == |b.pending| && |r.removal| <= |b.removal|
    decreases |b.removal|, pass, 0, if k <= |pass.responses| then |pass.responses| - k else 0,
              if b.pending == [] then 0 else |b.pending[|b.pending| - 1]|
  {
    if Reach(b) == [] then PassOver(b)
    else if k < |pass.responses| then Passed(Ran(NextRun(b), pass.responses[k], 0), pass, k + 1)
    else Passed(NextRun(b), pass, k)
  }

  // ----- What the book promises -----

  function Ids(nodes: seq<Node>): (r: seq<nat>)
    ensures |r| == |nodes| && forall i | 0 <= i < |nodes| :: r[i] == nodes[i].id
  {
    seq(|nodes|, i requires 0 <= i < |nodes| => nodes[i].id)
  }

  /** A pass during which nothing happens runs every callback, in order, and changes nothing else. */
  lemma QuietPass(b: Book)
    requires AllLive(b.nodes)
    ensures Performed(b, Notify([])) == b.(ran := b.ran + Ids(b.nodes))
  {
    hide LiveNodes, Ids, Passed, Ran, RemovalRan;
    var started := PassOpened(b);
    QuietToTheEnd(started, Notify([]), 0);
    LiveNodesAll(b.nodes);
    assert AllRun(started).pending[..|b.pending|] == b.pending;
  }

  lemma {:induction false} LiveNodesAll(nodes: seq<Node>)
    requires AllLive(nodes)
    ensures LiveNodes(nodes) == nodes
  {
    if nodes != [] {
      LiveNodesAll(nodes[..|nodes| - 1]);
      assert nodes == nodes[..|nodes| - 1] + [nodes[|nodes| - 1]];
    }
  }

  lemma {:induction false} LiveNodesSplit(before: seq<Node>, after: seq<Node>)
    ensures LiveNodes(before + after) == LiveNodes(before) + LiveNodes(after)
    decreases |after|
  {
    if after == [] {
      assert before + after == before;
    } else {
      var front := after[..|after| - 1];
      LiveNodesSplit(before, front);
      assert (before + after)[..|before + after| - 1] == before + front;
    }
  }

  lemma LiveNodesFirst(nodes: seq<Node>)
    requires nodes != []
    ensures LiveNodes(nodes) == (if nodes[0].live then [nodes[0]] else []) + LiveNodes(nodes[1..])
  {
    LiveNodesSplit(nodes[..1], nodes[1..]);
    assert nodes == nodes[..1] + nodes[1..];
    assert nodes[..1][..0] == [];
  }

  /** Destroying a subscription takes its node out and keeps the others in their order. */
  lemma NulledAway(before: seq<Node>, id: nat, after: seq<Node>)
    requires AllLive(before) && AllLive(after) && id !in Ids(before) && id !in Ids(after)
    ensures LiveNodes(Nulled(before + [Node(id, true)] + after, id)) == before + after
  {
    hide LiveNodes, Ids, AllLive;
    NulledMiddle(before, id, after);
    hide Nulled;
    var rest := [Node(id, false)] + after;
    LiveNodesSplit(before, rest);
    LiveNodesFirst(rest);
    assert rest[1..] == after;
    LiveNodesAll(before);
    LiveNodesAll(after);
  }

  lemma NulledMiddle(before: seq<Node>, id: nat, after: seq<Node>)
    requires id !in Ids(before) && id !in Ids(after)
    ensures Nulled(before + [Node(id, true)] + after, id) == before + ([Node(id, false)] + after)
  {
    hide Ids;
    NulledAnother(before, id);
    NulledAnother(after, id);
    var nodes, r := before + [Node(id, true)] + after, before + ([Node(id, false)] + after);
    forall i | 0 <= i < |nodes|
      ensures Nulled(nodes, id)[i] == r[i]
    {
      if i < |before| {
        assert Nulled(before, id)[i] == before[i];
      } else if i > |before| {
        assert Nulled(after, id)[i - |before| - 1] == after[i - |before| - 1];
      }
    }
  }

  lemma NulledAnother(nodes: seq<Node>, id: nat)
    requires id !in Ids(nodes)
    ensures Nulled(nodes, id) == nodes
  {
    forall i | 0 <= i < |nodes|
      ensures Nulled(nodes, id)[i] == nodes[i]
    {
      assert Ids(nodes)[i] in Ids(nodes);
    }
  }

  ghost predicate QuietFrom(responses: seq<Script>, from: nat, to: nat)
  {
    forall j | from <= j < to && j < |responses| :: responses[j] == Script([])
  }

  /** `b` after the innermost pass has run the next `n` callbacks, none of them null, and they have
      done nothing. */
  function AfterQuietRuns(b: Book, n: nat): Book
    requires b.pending != [] && n <= |b.pending[|b.pending| - 1]|
  {
    var last := |b.pending| - 1;
    b.(pending := b.pending[last := b.pending[last][n..]], ran := b.ran + Ids(b.pending[last][..n]))
  }

  lemma NextOfLive(b: Book)
    requires b.pending != [] && b.pending[|b.pending| - 1] != [] && b.pending[|b.pending| - 1][0].live
    ensures
      var last := |b.pending| - 1;
      && Reach(b) == b.pending[last]
      && NextRun(b) == b.(pending := b.pending[last := b.pending[last][1..]], ran := b.ran + [b.pending[last][0].id])
  {
  }

  lemma OneMoreQuietRun(b: Book, n: nat)
    requires b.pending != [] && 0 < n <= |b.pending[|b.pending| - 1]| && b.pending[|b.pending| - 1][0].live
    ensures Reach(b) != [] && AfterQuietRuns(NextRun(b), n - 1) == AfterQuietRuns(b, n)
  {
    NextOfLive(b);
    var last := |b.pending| - 1;
    var left := b.pending[last];
    assert left[1..][n - 1..] == left[n..];
    assert b.ran + [left[0].id] + Ids(left[1..][..n - 1]) == b.ran + Ids(left[..n]);
    assert b.pending[last := left[1..]][last := left[n..]] == b.pending[last := left[n..]];
  }

  lemma PassedNext(b: Book, pass: Action, k: nat)
    requires pass.Notify? && b.pending != [] && k <= |pass.responses| && Reach(b) != []
    ensures
      Passed(b, pass, k)
      == if k < |pass.responses| then Passed(Ran(NextRun(b), pass.responses[k], 0), pass, k + 1)
         else Passed(NextRun(b), pass, k)
  {
    hide Ran, Reach;
  }

  lemma NothingRan(b: Book)
    ensures Ran(b, Script([]), 0) == b
  {
  }

  lemma NoQuietRuns(b: Book)
    requires b.pending != []
    ensures AfterQuietRuns(b, 0) == b
  {
    var last := |b.pending| - 1;
    assert b.pending[last][0..] == b.pending[last] && b.pending[last := b.pending[last]] == b.pending;
    assert Ids(b.pending[last][..0]) == [] && b.ran + [] == b.ran;
  }

  lemma {:induction false} QuietRuns(b: Book, pass: Action, j: nat, k: nat)
    requires pass.Notify? && b.pending != [] && j <= k <= |pass.responses| && QuietFrom(pass.responses, j, k)
    requires k - j <= |b.pending[|b.pending| - 1]| && AllLive(b.pending[|b.pending| - 1])
    ensures Passed(b, pass, j) == Passed(AfterQuietRuns(b, k - j), pass, k)
    decreases k - j
  {
    hide Passed, Ran, Reach, NextRun, Ids;
    if j == k {
      NoQuietRuns(b);
    } else {
      OneMoreQuietRun(b, k - j);
      NextOfLive(b);
      PassedNext(b, pass, j);
      assert pass.responses[j] == Script([]);
      NothingRan(NextRun(b));
      hide AfterQuietRuns;
      QuietRuns(NextRun(b), pass, j + 1, k);
    }
  }

  /** The rest of a pass in which nothing more happens: null callbacks are passed over. */
  lemma {:induction false} QuietToTheEnd(b: Book, pass: Action, k: nat)
    requires pass.Notify? && b.pending != [] && k <= |pass.responses|
    requires QuietFrom(pass.responses, k, |pass.responses|)
    ensures Passed(b, pass, k) == AllRun(b)
    decreases if b.pending == [] then 0 else |b.pending[|b.pending| - 1]|
  {
    hide Ran, Reach, NextRun;
    var last := |b.pending| - 1;
    var left := b.pending[last];
    if left == [] {
      NothingLeft(b);
    } else if left[0].live {
      FirstRun(b);
      NextOfLive(b);
      PassedNext(b, pass, k);
      var c := NextRun(b);
      NothingRan(c);
      hide Passed, AllRun;
      if k < |pass.responses| {
        assert pass.responses[k] == Script([]);
        QuietToTheEnd(c, pass, k + 1);
      } else {
        QuietToTheEnd(c, pass, k);
      }
    } else {
      NullPassedOver(b, pass, k);
      FirstNull(b);
      hide Passed, AllRun;
      QuietToTheEnd(WithoutFirst(b), pass, k);
    }
  }

  /** `b` after the innermost pass has run all that is left before it. */
  function AllRun(b: Book): Book
    requires b.pending != []
  {
    var last := |b.pending| - 1;
    b.(pending := b.pending[last := []], ran := b.ran + Ids(LiveNodes(b.pending[last])))
  }

  function WithoutFirst(b: Book): Book
    requires b.pending != [] && b.pending[|b.pending| - 1] != []
  {
    var last := |b.pending| - 1;
    b.(pending := b.pending[last := b.pending[last][1..]])
  }

  lemma NothingLeft(b: Book)
    requires b.pending != [] && b.pending[|b.pending| - 1] == []
    ensures Reach(b) == [] && AllRun(b) == PassOver(b)
  {
    assert b.ran + [] == b.ran;
  }

  lemma FirstRun(b: Book)
    requires b.pending != [] && b.pending[|b.pending| - 1] != [] && b.pending[|b.pending| - 1][0].live
    ensures Reach(b) != [] && AllRun(NextRun(b)) == AllRun(b)
  {
    NextOfLive(b);
    hide NextRun, Reach, LiveNodes, Ids;
    var last := |b.pending| - 1;
    var left := b.pending[last];
    LiveNodesFirst(left);
    IdsOfBoth(b.ran, [left[0]], LiveNodes(left[1..]));
    assert Ids([left[0]]) == [left[0].id];
    assert b.pending[last := left[1..]][last := []] == b.pending[last := []];
  }

  lemma FirstNull(b: Book)
    requires b.pending != [] && b.pending[|b.pending| - 1] != [] && !b.pending[|b.pending| - 1][0].live
    ensures AllRun(WithoutFirst(b)) == AllRun(b)
  {
    hide LiveNodes;
    var last := |b.pending| - 1;
    var left := b.pending[last];
    LiveNodesFirst(left);
    assert b.pending[last := left[1..]][last := []] == b.pending[last := []];
  }

  lemma NullPassedOver(b: Book, pass: Action, k: nat)
    requires pass.Notify? && b.pending != [] && k <= |pass.responses|
    requires b.pending[|b.pending| - 1] != [] && !b.pending[|b.pending| - 1][0].live
    ensures Passed(b, pass, k) == Passed(WithoutFirst(b), pass, k)
  {
    NullOutOfReach(b);
    hide Reach, NextRun, PassOver, WithoutFirst, Ran;
    if Reach(b) != [] {
      PassedNext(b, pass, k);
      PassedNext(WithoutFirst(b), pass, k);
    }
  }

  lemma NullOutOfReach(b: Book)
    requires b.pending != [] && b.pending[|b.pending| - 1] != [] && !b.pending[|b.pending| - 1][0].live
    ensures Reach(b) == Reach(WithoutFirst(b)) && PassOver(b) == PassOver(WithoutFirst(b))
    ensures Reach(b) != [] ==> NextRun(b) == NextRun(WithoutFirst(b))
  {
    var last, c := |b.pending| - 1, WithoutFirst(b);
    assert Reach(b) == Reach(c);
    assert c.pending[last := []] == b.pending[last := []];
    if Reach(b) != [] {
      assert c.pending[last := Reach(b)[1..]] == b.pending[last := Reach(b)[1..]];
    }
  }

  /** The book while the `k`th callback of a new pass runs, the earlier ones having done nothing. */
  function AtRun(b: Book, k: nat): Book
    requires k < |b.nodes|
  {
    b.(pending := b.pending + [b.nodes[k + 1..]], ran := b.ran + Ids(b.nodes[..k + 1]))
  }

  /** The end of a pass whose other callbacks do nothing. */
  function RestRun(b: Book): Book
    requires b.pending != []
  {
    var last := |b.pending| - 1;
    b.(pending := b.pending[..last], ran := b.ran + Ids(LiveNodes(b.pending[last])))
  }

  /** A pass in which only the `k`th callback does anything; `end` is the list when it is over and
      null callbacks have not yet been erased. */
  lemma BusyRun(b: Book, responses: seq<Script>, k: nat)
    requires AllLive(b.nodes) && k < |responses| && k < |b.nodes|
    requires QuietFrom(responses, 0, k) && QuietFrom(responses, k + 1, |responses|)
    ensures
      var end := RestRun(Ran(AtRun(b, k), responses[k], 0));
      var settled := Settled(end);
      Performed(b, Notify(responses)) == if Erases(end, settled) then RemovalRan(settled) else settled
  {
    hide Ran, RemovalRan, Passed, LiveNodes, Ids, AtRun;
    ReachesRun(b, responses, k);
    var after := Ran(AtRun(b, k), responses[k], 0);
    QuietToTheEnd(after, Notify(responses), k + 1);
    var last := |after.pending| - 1;
    assert after.pending[last := []][..last] == after.pending[..last];
  }

  lemma ReachesRun(b: Book, responses: seq<Script>, k: nat)
    requires AllLive(b.nodes) && k < |responses| && k < |b.nodes| && QuietFrom(responses, 0, k)
    ensures
      Passed(PassOpened(b), Notify(responses), 0)
      == Passed(Ran(AtRun(b, k), responses[k], 0), Notify(responses), k + 1)
  {
    hide Ran, Passed, Reach, NextRun;
    var started := PassOpened(b);
    QuietRuns(started, Notify(responses), 0, k);
    ComesTo(b, k);
    PassedNext(AfterQuietRuns(started, k), Notify(responses), k);
  }

  lemma ComesTo(b: Book, k: nat)
    requires AllLive(b.nodes) && k < |b.nodes|
    ensures
      var before := AfterQuietRuns(PassOpened(b), k);
      Reach(before) != [] && NextRun(before) == AtRun(b, k)
  {
    hide Reach, NextRun;
    var started := PassOpened(b);
    var last := |b.pending|;
    NextOfLive(AfterQuietRuns(started, k));
    assert b.nodes[k..][1..] == b.nodes[k + 1..];
    assert b.ran + Ids(b.nodes[..k]) + [b.nodes[k].id] == b.ran + Ids(b.nodes[..k + 1]);
    assert started.pending[last := b.nodes[k..]][last := b.nodes[k + 1..]] == b.pending + [b.nodes[k + 1..]];
  }

  lemma OneAction(b: Book, action: Action)
    ensures Ran(b, Script([action]), 0) == Performed(b, action)
  {
    hide Performed;
    var script := Script([action]);
    assert script.actions[0] == action;
    assert Ran(b, script, 0) == Ran(Performed(b, action), script, 1);
  }

  /** A callback's actions happen one after the other. */
  lemma RanInOrder(b: Book, first: Action, rest: seq<Action>)
    ensures Ran(b, Script([first] + rest), 0) == Ran(Performed(b, first), Script(rest), 0)
  {
    hide Performed;
    var script := Script([first] + rest);
    assert script.actions[0] == first;
    RanFromLater(Performed(b, first), first, rest, 0);
  }

  lemma {:induction false} RanFromLater(b: Book, first: Action, rest: seq<Action>, i: nat)
    requires i <= |rest|
    ensures Ran(b, Script([first] + rest), i + 1) == Ran(b, Script(rest), i)
    decreases |rest| - i
  {
    hide Performed;
    if i < |rest| {
      assert ([first] + rest)[i + 1] == rest[i];
      RanFromLater(Performed(b, rest[i]), first, rest, i + 1);
    }
  }

  /** The outcome of a pass from rest that has left `c`, with `left` still before it. */
  function PassOutcome(c: Book, left: seq<Node>): Book
  {
    var settled := c.(pending := [], nodes := LiveNodes(c.nodes), ran := c.ran + Ids(LiveNodes(left)));
    if |settled.nodes| < |c.nodes| then RemovalRanOnce(settled) else settled
  }

  lemma BusyWithOneAction(b: Book, responses: seq<Script>, k: nat, action: Action, c: Book, left: seq<Node>)
    requires b.pending == [] && AllLive(b.nodes)
    requires k < |responses| && k < |b.nodes| && responses[k] == Script([action])
    requires QuietFrom(responses, 0, k) && QuietFrom(responses, k + 1, |responses|)
    requires c == Performed(AtRun(b, k), action) && c.pending == [left]
    ensures Performed(b, Notify(responses)) == PassOutcome(c, left)
  {
    BusyRun(b, responses, k);
    OneAction(AtRun(b, k), action);
    hide LiveNodes, Ran, Performed, AtRun, Ids;
    assert c.pending[..0] == [];
  }

  /** With no pass under way: the list is `before`, the subscribed callback and `after`. */
  ghost predicate AtRest(b: Book, before: seq<Node>, id: nat, after: seq<Node>)
  {
    && b.pending == [] && b.nodes == before + [Node(id, true)] + after
    && AllLive(b.nodes) && id !in Ids(before) && id !in Ids(after)
  }

  lemma AtRestErases(b: Book, before: seq<Node>, id: nat, after: seq<Node>)
    requires AtRest(b, before, id, after)
    ensures LiveNodes(Nulled(b.nodes, id)) == before + after && |before + after| < |b.nodes|
  {
    assert AllLive(before) by {
      assert forall i | 0 <= i < |before| :: before[i] == b.nodes[i];
    }
    assert AllLive(after) by {
      assert forall i | 0 <= i < |after| :: after[i] == b.nodes[|before| + 1 + i];
    }
    NulledAway(before, id, after);
  }

  /** The removal callback has run once on a list that is now `b`. */
  function RemovalRanOnce(b: Book): Book
  {
    if b.removal == [] then b else Ran(b.(removal := b.removal[1..]), b.removal[0], 0)
  }

  /** A subscription destroyed with no pass under way: the node is erased at once and the removal
      callback runs once, whatever it does. */
  lemma UnsubscribeAtRest(b: Book, before: seq<Node>, id: nat, after: seq<Node>)
    requires AtRest(b, before, id, after)
    ensures
      var end := Performed(b, Unsubscribe(id));
      && end == RemovalRanOnce(b.(nodes := before + after))
      && (b.removal != [] ==> |end.removal| < |b.removal|)
  {
    AtRestErases(b, before, id, after);
    hide LiveNodes, Nulled, Ran;
    assert b.nodes[|before|] == Node(id, true);
    assert Unsubscribed(b, id) == b.(nodes := before + after);
  }

  /** A subscription destroyed by the `k`th callback of a pass: a callback the pass has not come to
      does not run, all others do, and when the pass is over the node is erased and the removal
      callback runs once. */
  lemma UnsubscribeInRun(b: Book, responses: seq<Script>, k: nat, before: seq<Node>, id: nat, after: seq<Node>)
    requires AtRest(b, before, id, after)
    requires k < |responses| && k < |b.nodes| && responses[k] == Script([Unsubscribe(id)])
    requires QuietFrom(responses, 0, k) && QuietFrom(responses, k + 1, |responses|)
    ensures
      var end := Performed(b, Notify(responses));
      var ran := if k < |before| then before + after else b.nodes;
      && end == RemovalRanOnce(b.(nodes := before + after, ran := b.ran + Ids(ran)))
      && (b.removal != [] ==> |end.removal| < |b.removal|)
  {
    UnsubscribedMid(b, k, before, id, after);
    var left := Nulled(b.nodes[k + 1..], id);
    var c := AtRun(b, k).(nodes := Nulled(b.nodes, id), pending := [left]);
    BusyWithOneAction(b, responses, k, Unsubscribe(id), c, left);
    AtRestErases(b, before, id, after);
    RestAfterUnsubscribe(b, k, before, id, after);
    hide LiveNodes, Nulled, Ran, Ids, Performed, AllLive, QuietFrom;
    assert |c.nodes| == |b.nodes|;
  }

  lemma UnsubscribedMid(b: Book, k: nat, before: seq<Node>, id: nat, after: seq<Node>)
    requires AtRest(b, before, id, after) && k < |b.nodes|
    ensures
      Performed(AtRun(b, k), Unsubscribe(id))
      == AtRun(b, k).(nodes := Nulled(b.nodes, id), pending := [Nulled(b.nodes[k + 1..], id)])
  {
    hide LiveNodes, Nulled, Ids;
    assert b.nodes[|before|] == Node(id, true);
  }

  lemma RestAfterUnsubscribe(b: Book, k: nat, before: seq<Node>, id: nat, after: seq<Node>)
    requires AtRest(b, before, id, after) && k < |b.nodes|
    ensures
      b.ran + Ids(b.nodes[..k + 1]) + Ids(LiveNodes(Nulled(b.nodes[k + 1..], id)))
      == b.ran + Ids(if k < |before| then before + after else b.nodes)
  {
    hide LiveNodes, Nulled, Ids, AllLive;
    if k < |before| {
      LaterAround(b, k, before, id, after);
      RunAround(b.ran, b.nodes[..k + 1], before[k + 1..], id, after);
      assert b.nodes[k + 1..] == before[k + 1..] + [Node(id, true)] + after;
      assert b.nodes[..k + 1] + (before[k + 1..] + after) == before + after;
    } else {
      var later := b.nodes[k + 1..];
      LaterAnother(b, k, before, id, after);
      NulledAnother(later, id);
      LiveNodesAll(later);
      IdsOfBoth(b.ran, b.nodes[..k + 1], later);
      assert b.nodes[..k + 1] + later == b.nodes;
    }
  }

  lemma RunAround(ran: seq<nat>, done: seq<Node>, before: seq<Node>, id: nat, after: seq<Node>)
    requires AllLive(before) && AllLive(after) && id !in Ids(before) && id !in Ids(after)
    ensures
      ran + Ids(done) + Ids(LiveNodes(Nulled(before + [Node(id, true)] + after, id)))
      == ran + Ids(done + (before + after))
  {
    hide LiveNodes, Nulled, Ids, AllLive;
    NulledAway(before, id, after);
    IdsOfBoth(ran, done, before + after);
  }

  lemma IdsOfBoth(ran: seq<nat>, first: seq<Node>, second: seq<Node>)
    ensures ran + Ids(first) + Ids(second) == ran + Ids(first + second)
  {
  }

  lemma LaterAround(b: Book, k: nat, before: seq<Node>, id: nat, after: seq<Node>)
    requires AtRest(b, before, id, after) && k < |before|
    ensures AllLive(before[k + 1..]) && AllLive(after) && id !in Ids(before[k + 1..])
  {
    var later := before[k + 1..];
    assert forall i | 0 <= i < |later| :: later[i] == b.nodes[k + 1 + i];
    assert forall i | 0 <= i < |after| :: after[i] == b.nodes[|before| + 1 + i];
    assert Ids(later) == Ids(before)[k + 1..];
  }

  lemma LaterAnother(b: Book, k: nat, before: seq<Node>, id: nat, after: seq<Node>)
    requires AtRest(b, before, id, after) && |before| <= k < |b.nodes|
    ensures AllLive(b.nodes[k + 1..]) && id !in Ids(b.nodes[k + 1..])
  {
    var later := after[k - |before|..];
    assert b.nodes[k + 1..] == later;
    assert Ids(later) == Ids(after)[k - |before|..];
  }

  /** During a pass the removal callback does not run. */
  lemma UnsubscribeInPass(b: Book, id: nat)
    requires b.pending != []
    ensures Performed(b, Unsubscribe(id)).removal == b.removal
  {
  }

  /** A callback registered by the `k`th callback of a pass is run last by the same pass, unless it
      was the last callback that registered it: then the pass was already past the end. */
  lemma RegisterInRun(b: Book, responses: seq<Script>, k: nat)
    requires b.pending == [] && AllLive(b.nodes)
    requires k < |responses| && k < |b.nodes| && responses[k] == Script([Register])
    requires QuietFrom(responses, 0, k) && QuietFrom(responses, k + 1, |responses|)
    ensures
      Performed(b, Notify(responses))
      == b.(nodes := b.nodes + [Node(b.nextId, true)], nextId := b.nextId + 1,
            ran := b.ran + Ids(b.nodes) + if k + 1 < |b.nodes| then [b.nextId] else [])
  {
    hide LiveNodes, Ran, Ids, Performed, RemovalRan;
    var node, later := Node(b.nextId, true), b.nodes[k + 1..];
    var left := if later == [] then [] else later + [node];
    var c := AtRun(b, k).(nodes := b.nodes + [node], nextId := b.nextId + 1, pending := [left]);
    RegisteredMid(b, k);
    BusyWithOneAction(b, responses, k, Register, c, left);
    LiveNodesAll(c.nodes);
    LiveNodesAll(left);
    RanWithRegistered(b, k, left);
  }

  lemma RegisteredMid(b: Book, k: nat)
    requires b.pending == [] && k < |b.nodes|
    ensures
      var node, later := Node(b.nextId, true), b.nodes[k + 1..];
      var left := if later == [] then [] else later + [node];
      Performed(AtRun(b, k), Register)
      == AtRun(b, k).(nodes := b.nodes + [node], nextId := b.nextId + 1, pending := [left])
  {
  }

  lemma RanWithRegistered(b: Book, k: nat, left: seq<Node>)
    requires k < |b.nodes|
    requires left == if k + 1 < |b.nodes| then b.nodes[k + 1..] + [Node(b.nextId, true)] else []
    ensures
      b.ran + Ids(b.nodes[..k + 1]) + Ids(left)
      == b.ran + Ids(b.nodes) + if k + 1 < |b.nodes| then [b.nextId] else []
  {
    IdsOfBoth(b.ran, b.nodes[..k + 1], left);
    if k + 1 < |b.nodes| {
      assert b.nodes[..k + 1] + left == b.nodes + [Node(b.nextId, true)];
      IdsOfBoth(b.ran, b.nodes, [Node(b.nextId, true)]);
      assert Ids([Node(b.nextId, true)]) == [b.nextId];
    } else {
      assert b.nodes[..k + 1] + left == b.nodes;
    }
  }

  /** A pass inside the `k`th callback runs everything and leaves the outer one where it was. */
  lemma PassInRun(b: Book, responses: seq<Script>, k: nat)
    requires b.pending == [] && AllLive(b.nodes)
    requires k < |responses| && k < |b.nodes| && responses[k] == Script([Notify([])])
    requires QuietFrom(responses, 0, k) && QuietFrom(responses, k + 1, |responses|)
    ensures
      Performed(b, Notify(responses))
      == b.(ran := b.ran + Ids(b.nodes[..k + 1]) + Ids(b.nodes) + Ids(b.nodes[k + 1..]))
  {
    hide LiveNodes, Ran, Ids, Performed, RemovalRan;
    var mid, left := AtRun(b, k), b.nodes[k + 1..];
    QuietPass(mid);
    BusyWithOneAction(b, responses, k, Notify([]), mid.(ran := mid.ran + Ids(b.nodes)), left);
    LiveNodesAll(b.nodes);
    LiveNodesAll(left);
  }

  /** Of a number that was given out, and not in the list or before any pass, except as null. */
  ghost predicate Gone(b: Book, id: nat)
  {
    id < b.nextId && GoneFrom(b.nodes, id) && forall i | 0 <= i < |b.pending| :: GoneFrom(b.pending[i], id)
  }

  ghost predicate GoneFrom(nodes: seq<Node>, id: nat)
  {
    Node(id, true) !in nodes
  }

  /** The callbacks run since `before`, not `id` among them. */
  ghost predicate NotRunSince(before: Book, after: Book, id: nat)
  {
    before.ran <= after.ran && id !in after.ran[|before.ran|..]
  }

  lemma NotRunChain(a: Book, b: Book, c: Book, id: nat)
    requires NotRunSince(a, b, id) && NotRunSince(b, c, id)
    ensures NotRunSince(a, c, id)
  {
    assert c.ran[|a.ran|..] == b.ran[|a.ran|..] + c.ran[|b.ran|..];
  }

  lemma UnsubscribedIsGone(b: Book, id: nat)
    requires id < b.nextId
    ensures Gone(Unsubscribed(b, id), id)
  {
    assert GoneFrom(Nulled(b.nodes, id), id);
  }

  /** Once its subscription is destroyed a callback does not run again, in any pass at any nesting
      depth, whatever the removal callback and everything later do. */
  lemma UnsubscribedIsNotRun(b: Book, id: nat, later: Script)
    requires Subscription(b, id) && id < b.nextId
    ensures
      var after := Performed(b, Unsubscribe(id));
      NotRunSince(b, after, id) && NotRunSince(after, Ran(after, later, 0), id)
  {
    hide RemovalRan, Ran, Gone;
    UnsubscribedIsGone(b, id);
    var c, after := Unsubscribed(b, id), Performed(b, Unsubscribe(id));
    if Erases(b, c) {
      GoneAfterRemoval(c, id);
    }
    GoneInRun(after, later, 0, id);
  }

  /** A callback that is gone does not run, and stays gone. */
  lemma {:induction false} GoneDoesNotRun(b: Book, action: Action, id: nat)
    requires Gone(b, id)
    ensures Gone(Performed(b, action), id) && NotRunSince(b, Performed(b, action), id)
    decreases |b.removal|, action, 1
  {
    match action
    case Register =>
    case Unsubscribe(x) =>
      StaysGone(b, x, id);
      hide RemovalRan, Gone, Unsubscribed;
      var c := Unsubscribed(b, x);
      if Erases(b, c) {
        GoneAfterRemoval(c, id);
      }
    case Notify(_) =>
      hide RemovalRan, Passed, Gone, PassClosed;
      assert Gone(PassOpened(b), id) by { OpenedStaysGone(b, id); }
      GoneInPass(PassOpened(b), action, 0, id);
      var end := Passed(PassOpened(b), action, 0);
      ClosedStaysGone(end, id);
      var c := PassClosed(end);
      NotRunChain(b, end, c, id);
      if Erases(end, c) {
        GoneAfterRemoval(c, id);
        NotRunChain(b, c, RemovalRan(c), id);
      }
  }

  lemma {:induction false} GoneAfterRemoval(b: Book, id: nat)
    requires b.removal != [] && Gone(b, id)
    ensures Gone(RemovalRan(b), id) && NotRunSince(b, RemovalRan(b), id)
    decreases if b.removal == [] then 0 else |b.removal| - 1
  {
    hide Ran;
    GoneInRun(b.(removal := b.removal[1..]), b.removal[0], 0, id);
  }

  lemma OpenedStaysGone(b: Book, id: nat)
    requires Gone(b, id)
    ensures Gone(PassOpened(b), id)
  {
  }

  lemma ClosedStaysGone(b: Book, id: nat)
    requires b.pending != [] && Gone(b, id)
    ensures Gone(PassClosed(b), id) && NotRunSince(b, PassClosed(b), id)
  {
    hide LiveNodes;
  }

  lemma StaysGone(b: Book, x: nat, id: nat)
    requires Gone(b, id)
    ensures Gone(Unsubscribed(b, x), id) && NotRunSince(b, Unsubscribed(b, x), id)
  {
    forall nodes: seq<Node> | GoneFrom(nodes, id)
      ensures GoneFrom(Nulled(nodes, x), id)
    {
      NulledStaysGone(nodes, x, id);
    }
  }

  lemma NulledStaysGone(nodes: seq<Node>, x: nat, id: nat)
    requires GoneFrom(nodes, id)
    ensures GoneFrom(Nulled(nodes, x), id)
  {
    forall i | 0 <= i < |nodes|
      ensures Nulled(nodes, x)[i] != Node(id, true)
    {
      assert nodes[i] in nodes;
    }
  }

  lemma {:induction false} GoneInRun(b: Book, script: Script, i: nat, id: nat)
    requires Gone(b, id) && i <= |script.actions|
    ensures Gone(Ran(b, script, i), id) && NotRunSince(b, Ran(b, script, i), id)
    decreases |b.removal|, script, if i <= |script.actions| then |script.actions| - i else 0
  {
    if i < |script.actions| {
      hide Performed;
      var c := Performed(b, script.actions[i]);
      GoneDoesNotRun(b, script.actions[i], id);
      GoneInRun(c, script, i + 1, id);
      NotRunChain(b, c, Ran(b, script, i), id);
    }
  }

  lemma {:induction false} GoneInPass(b: Book, pass: Action, k: nat, id: nat)
    requires pass.Notify? && b.pending != [] && k <= |pass.responses| && Gone(b, id)
    ensures Gone(Passed(b, pass, k), id) && NotRunSince(b, Passed(b, pass, k), id)
    decreases |b.removal|, pass, 0, if k <= |pass.responses| then |pass.responses| - k else 0,
              if b.pending == [] then 0 else |b.pending[|b.pending| - 1]|
  {
    if Reach(b) != [] {
      hide Ran, Reach, Gone;
      NextIsAnother(b, id);
      var c := NextRun(b);
      if k < |pass.responses| {
        var d := Ran(c, pass.responses[k], 0);
        GoneInRun(c, pass.responses[k], 0, id);
        GoneInPass(d, pass, k + 1, id);
        NotRunChain(b, c, d, id);
        NotRunChain(b, d, Passed(b, pass, k), id);
      } else {
        GoneInPass(c, pass, k, id);
        NotRunChain(b, c, Passed(b, pass, k), id);
      }
    }
  }

  lemma NextIsAnother(b: Book, id: nat)
    requires b.pending != [] && Reach(b) != [] && Gone(b, id)
    ensures Gone(NextRun(b), id) && NotRunSince(b, NextRun(b), id)
    ensures |NextRun(b).pending[|b.pending| - 1]| < |b.pending[|b.pending| - 1]|
  {
    hide SkipNull, Nulled, LiveNodes;
    var last, reach := b.pending[|b.pending| - 1], Reach(b);
    GoneFromReach(last, reach, id);
    forall i | 0 <= i < |b.pending|
      ensures GoneFrom(NextRun(b).pending[i], id)
    {
    }
  }

  lemma GoneFromReach(nodes: seq<Node>, reach: seq<Node>, id: nat)
    requires 0 < |reach| <= |nodes| && reach == nodes[|nodes| - |reach|..] && reach[0].live && GoneFrom(nodes, id)
    ensures reach[0].id != id && GoneFrom(reach[1..], id)
  {
    assert reach[0] in nodes;
    assert forall n | n in reach[1..] :: n in nodes;
  }
}
