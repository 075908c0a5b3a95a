/** Lazy instances that create one another, under one exit manager, on one thread
    (base/lazy_instance.h, base/lazy_instance_helpers.h and .cc, base/at_exit.cc). */
module AtExit {

  type Instance = nat

  /** The word of an instance: 0, the creating mark, or a pointer. */
  datatype Word = Empty | Creating | Created

  /** A call of Pointer(). If it constructs the instance, the constructor makes the calls of
      `body`, in order. */
  datatype Access = Access(instance: Instance, body: seq<Access>)

  /** No constructor in `a` asks for an instance whose own construction it is part of. */
  predicate Nests(a: Access, creating: set<Instance>)
    decreases a
  {
    a.instance !in creating && forall b | b in a.body :: Nests(b, creating + {a.instance})
  }

  /** How a call ends: it spins for ever on an instance that is still being created, or the
      constructions up to then have completed in this order. */
  datatype Outcome = Spins | Done(completed: seq<Instance>)

  /** A call of Pointer() after `completed`, inside the constructors of `creating`: what is not
      there yet completes after everything its constructor called for. */
  function Finish(a: Access, completed: seq<Instance>, creating: set<Instance>): Outcome
    decreases a, |a.body| + 1
  {
    if a.instance in completed then Done(completed)
    else if a.instance in creating then Spins
    else
      match FinishBody(a, |a.body|, completed, creating + {a.instance})
      case Spins => Spins
      case Done(c) => Done(c + [a.instance])
  }

  /** The first `k` calls of a constructor. */
  function FinishBody(a: Access, k: nat, completed: seq<Instance>, creating: set<Instance>): Outcome
    requires k <= |a.body|
    decreases a, k
  {
    if k == 0 then Done(completed)
    else
      match FinishBody(a, k - 1, completed, creating)
      case Spins => Spins
      case Done(c) => Finish(a.body[k - 1], c, creating)
  }

  /** A construction: the instance and one that its constructor called for. */
  datatype Use = Use(user: Instance, used: Instance)

  /** What every constructor that a call runs calls for, at any nesting depth. */
  ghost function Uses(a: Access, completed: seq<Instance>, creating: set<Instance>): set<Use>
    decreases a, |a.body| + 1
  {
    if a.instance in completed || a.instance in creating then {}
    else
      UsesInBody(a, |a.body|, completed, creating + {a.instance})
      + set k | 0 <= k < |a.body| :: Use(a.instance, a.body[k].instance)
  }

  /** The same for the first `k` calls of a constructor, or of a program. */
  ghost function UsesInBody(a: Access, k: nat, completed: seq<Instance>, creating: set<Instance>): set<Use>
    requires k <= |a.body|
    decreases a, k
  {
    if k == 0 then {}
    else
      UsesInBody(a, k - 1, completed, creating)
      + match FinishBody(a, k - 1, completed, creating)
        case Spins => {}
        case Done(c) => Uses(a.body[k - 1], c, creating)
  }

  /** A constructor that is spun on never completes its body. */
  lemma {:induction false} SpinsOn(a: Access, j: nat, k: nat, completed: seq<Instance>, creating: set<Instance>)
    requires j <= k <= |a.body| && FinishBody(a, j, completed, creating).Spins?
    ensures FinishBody(a, k, completed, creating).Spins?
    decreases k
  {
    if j < k {
      SpinsOn(a, j, k - 1, completed, creating);
    }
  }

  /** Where no constructor asks for an instance it is part of, nothing spins. */
  lemma {:induction false} NestedFinishes(a: Access, completed: seq<Instance>, creating: set<Instance>)
    requires Nests(a, creating)
    ensures Finish(a, completed, creating).Done?
    decreases a, |a.body| + 1
  {
    NestedBodyFinishes(a, |a.body|, completed, creating + {a.instance});
  }

  lemma {:induction false} NestedBodyFinishes(a: Access, k: nat, completed: seq<Instance>, creating: set<Instance>)
    requires k <= |a.body| && forall b | b in a.body :: Nests(b, creating)
    ensures FinishBody(a, k, completed, creating).Done?
    decreases a, k
  {
    if k > 0 {
      NestedBodyFinishes(a, k - 1, completed, creating);
      assert a.body[k - 1] in a.body;
      NestedFinishes(a.body[k - 1], FinishBody(a, k - 1, completed, creating).completed, creating);
    }
  }

  function InstancesOf(calls: seq<Access>): (r: seq<Instance>)
    ensures |r| == |calls| && forall i | 0 <= i < |calls| :: r[i] == calls[i].instance
  {
    seq(|calls|, i requires 0 <= i < |calls| => calls[i].instance)
  }

  /** Calls for new instances whose constructors call for nothing complete in the order of the calls. */
  lemma {:induction false} LeavesInOrder(a: Access, k: nat, completed: seq<Instance>, creating: set<Instance>)
    requires k <= |a.body| && Distinct(completed + InstancesOf(a.body))
    requires forall i | 0 <= i < |a.body| :: a.body[i].body == [] && a.body[i].instance !in creating
    ensures FinishBody(a, k, completed, creating) == Done(completed + InstancesOf(a.body[..k]))
    decreases k
  {
    if k == 0 {
      assert completed + InstancesOf(a.body[..0]) == completed;
    } else {
      LeavesInOrder(a, k - 1, completed, creating);
      var c, leaf := completed + InstancesOf(a.body[..k - 1]), a.body[k - 1];
      assert leaf.instance !in c by { NewLeaf(a, k, completed); }
      assert Finish(leaf, c, creating) == Done(c + [leaf.instance]);
      assert c + [leaf.instance] == completed + InstancesOf(a.body[..k]);
    }
  }

  lemma NewLeaf(a: Access, k: nat, completed: seq<Instance>)
    requires 0 < k <= |a.body| && Distinct(completed + InstancesOf(a.body))
    ensures a.body[k - 1].instance !in completed + InstancesOf(a.body[..k - 1])
  {
    var all, c := completed + InstancesOf(a.body), completed + InstancesOf(a.body[..k - 1]);
    assert all[|c|] == a.body[k - 1].instance;
    assert forall i | 0 <= i < |c| :: c[i] == all[i];
  }

  /** A constructor that first asks for its own instance, or for one it is part of, spins. */
  lemma OwnInstanceSpins(a: Access, completed: seq<Instance>, creating: set<Instance>)
    requires a.instance !in completed && a.instance !in creating && a.body != []
    requires a.body[0].instance in creating + {a.instance} && a.body[0].instance !in completed
    ensures Finish(a, completed, creating) == Spins
  {
    assert FinishBody(a, 1, completed, creating + {a.instance}).Spins?;
    SpinsOn(a, 1, |a.body|, completed, creating + {a.instance});
  }

  // ----- Sequences of instances -----

  ghost predicate Distinct(s: seq<Instance>)
  {
    forall i, j | 0 <= i < j < |s| :: s[i] != s[j]
  }

  function Only(s: seq<Instance>, keep: set<Instance>): (r: seq<Instance>)
    ensures forall x :: x in r <==> x in s && x in keep
  {
    if s == [] then []
    else
      var front, last := Only(s[..|s| - 1], keep), s[|s| - 1];
      assert s == s[..|s| - 1] + [last];
      if last in keep then front + [last] else front
  }

  function Reversed(s: seq<Instance>): (r: seq<Instance>)
    ensures |r| == |s| && forall i | 0 <= i < |s| :: r[i] == s[|s| - 1 - i]
  {
    seq(|s|, i requires 0 <= i < |s| => s[|s| - 1 - i])
  }

  /** `x` comes before `y`. */
  ghost predicate Before(s: seq<Instance>, x: Instance, y: Instance)
  {
    exists i, j | 0 <= i < j < |s| :: s[i] == x && s[j] == y
  }

  lemma {:induction false} OnlyKeepsOrder(s: seq<Instance>, keep: set<Instance>, x: Instance, y: Instance)
    requires Before(s, x, y) && x in keep && y in keep
    ensures Before(Only(s, keep), x, y)
  {
    var i, j :| 0 <= i < j < |s| && s[i] == x && s[j] == y;
    var front, last := s[..|s| - 1], s[|s| - 1];
    var kept := Only(front, keep);
    if j < |front| {
      assert front[i] == x && front[j] == y;
      OnlyKeepsOrder(front, keep, x, y);
      var k, l :| 0 <= k < l < |kept| && kept[k] == x && kept[l] == y;
      assert Only(s, keep)[k] == x && Only(s, keep)[l] == y;
    } else {
      assert front[i] == x;
      assert x in kept;
      var k :| 0 <= k < |kept| && kept[k] == x;
      assert Only(s, keep)[k] == x && Only(s, keep)[|kept|] == y;
    }
  }

  lemma {:induction false} OnlyDistinct(s: seq<Instance>, keep: set<Instance>)
    requires Distinct(s)
    ensures Distinct(Only(s, keep))
  {
    if s != [] {
      var front, last := s[..|s| - 1], s[|s| - 1];
      OnlyDistinct(front, keep);
      assert last !in front;
    }
  }

  lemma ReversedOrder(s: seq<Instance>, x: Instance, y: Instance)
    requires Before(s, x, y)
    ensures Before(Reversed(s), y, x)
  {
    var i, j :| 0 <= i < j < |s| && s[i] == x && s[j] == y;
    var r := Reversed(s);
    assert r[|s| - 1 - j] == y && r[|s| - 1 - i] == x;
  }

  lemma BeforeExtends(s: seq<Instance>, more: seq<Instance>, x: Instance, y: Instance)
    requires Before(s, x, y) && s <= more
    ensures Before(more, x, y)
  {
    var i, j :| 0 <= i < j < |s| && s[i] == x && s[j] == y;
    assert more[i] == x && more[j] == y;
  }

  /** Completed constructions stay, and everything called for is among them. */
  lemma {:induction false} FinishContains(a: Access, completed: seq<Instance>, creating: set<Instance>)
    requires Finish(a, completed, creating).Done?
    ensures completed <= Finish(a, completed, creating).completed && a.instance in Finish(a, completed, creating).completed
    decreases a, |a.body| + 1
  {
    if a.instance !in completed {
      BodyContains(a, |a.body|, completed, creating + {a.instance});
    }
  }

  lemma {:induction false} BodyContains(a: Access, k: nat, completed: seq<Instance>, creating: set<Instance>)
    requires k <= |a.body| && FinishBody(a, k, completed, creating).Done?
    ensures
      var c := FinishBody(a, k, completed, creating).completed;
      completed <= c && forall j | 0 <= j < k :: a.body[j].instance in c
    decreases a, k
  {
    if k > 0 {
      var front := FinishBody(a, k - 1, completed, creating).completed;
      BodyContains(a, k - 1, completed, creating);
      FinishContains(a.body[k - 1], front, creating);
      hide Finish;
      Kept(front, FinishBody(a, k, completed, creating).completed);
    }
  }

  lemma Kept(s: seq<Instance>, more: seq<Instance>)
    requires s <= more
    ensures forall x | x in s :: x in more
  {
  }

  /** An instance completes after every instance its constructor called for. */
  lemma CompletesAfterItsBody(a: Access, k: nat, completed: seq<Instance>, creating: set<Instance>)
    requires k < |a.body| && a.instance !in completed && Finish(a, completed, creating).Done?
    ensures Before(Finish(a, completed, creating).completed, a.body[k].instance, a.instance)
  {
    BodyContains(a, |a.body|, completed, creating + {a.instance});
    var c := FinishBody(a, |a.body|, completed, creating + {a.instance}).completed;
    var i :| 0 <= i < |c| && c[i] == a.body[k].instance;
    assert (c + [a.instance])[i] == a.body[k].instance && (c + [a.instance])[|c|] == a.instance;
  }

  /** At any nesting depth, what a constructor called for completed before the instance did. */
  lemma {:induction false} UsedCompletesFirst(a: Access, completed: seq<Instance>, creating: set<Instance>, use: Use)
    requires Finish(a, completed, creating).Done? && use in Uses(a, completed, creating)
    ensures Before(Finish(a, completed, creating).completed, use.used, use.user)
    decreases a, |a.body| + 1
  {
    hide Before, UsesInBody, FinishBody;
    var inner := creating + {a.instance};
    if use in UsesInBody(a, |a.body|, completed, inner) {
      UsedInBodyCompletesFirst(a, |a.body|, completed, inner, use);
      var c := FinishBody(a, |a.body|, completed, inner).completed;
      BeforeExtends(c, c + [a.instance], use.used, use.user);
    } else {
      var k :| 0 <= k < |a.body| && use == Use(a.instance, a.body[k].instance);
      CompletesAfterItsBody(a, k, completed, creating);
    }
  }

  lemma {:induction false} UsedInBodyCompletesFirst(a: Access, k: nat, completed: seq<Instance>, creating: set<Instance>, use: Use)
    requires k <= |a.body| && FinishBody(a, k, completed, creating).Done? && use in UsesInBody(a, k, completed, creating)
    ensures Before(FinishBody(a, k, completed, creating).completed, use.used, use.user)
    decreases a, k
  {
    hide Before, Uses, Finish;
    var front := FinishBody(a, k - 1, completed, creating).completed;
    if use in UsesInBody(a, k - 1, completed, creating) {
      UsedInBodyCompletesFirst(a, k - 1, completed, creating, use);
      FinishContains(a.body[k - 1], front, creating);
      BeforeExtends(front, FinishBody(a, k, completed, creating).completed, use.used, use.user);
    } else {
      UsedCompletesFirst(a.body[k - 1], front, creating, use);
    }
  }

  /** Instances of which each constructor called for the next. */
  ghost predicate Chain(uses: set<Use>, chain: seq<Instance>)
  {
    |chain| >= 2 && forall k | 0 <= k < |chain| - 1 :: Use(chain[k], chain[k + 1]) in uses
  }

  lemma BeforeTransitive(s: seq<Instance>, x: Instance, y: Instance, z: Instance)
    requires Distinct(s) && Before(s, x, y) && Before(s, y, z)
    ensures Before(s, x, z)
  {
    var i, j :| 0 <= i < j < |s| && s[i] == x && s[j] == y;
    var k, l :| 0 <= k < l < |s| && s[k] == y && s[l] == z;
    assert j == k;
  }

  /** What was called for through others completed first as well. */
  lemma {:induction false} ChainCompletesFirst(uses: set<Use>, completed: seq<Instance>, chain: seq<Instance>)
    requires Distinct(completed) && Chain(uses, chain)
    requires forall use | use in uses :: Before(completed, use.used, use.user)
    ensures Before(completed, chain[|chain| - 1], chain[0])
    decreases |chain|
  {
    hide Before, Distinct;
    assert Use(chain[0], chain[1]) in uses;
    if |chain| > 2 {
      var tail := chain[1..];
      assert forall k | 0 <= k < |tail| - 1 :: Use(tail[k], tail[k + 1]) == Use(chain[k + 1], chain[k + 2]);
      ChainCompletesFirst(uses, completed, tail);
      BeforeTransitive(completed, chain[|chain| - 1], chain[1], chain[0]);
    }
  }

  /** A call that constructs its instance uses what the constructor calls for. */
  lemma {:induction false} CallUses(a: Access, j: nat, k: nat, completed: seq<Instance>, creating: set<Instance>, i: nat)
    requires j < k <= |a.body| && FinishBody(a, j, completed, creating).Done? && i < |a.body[j].body|
    requires a.body[j].instance !in FinishBody(a, j, completed, creating).completed && a.body[j].instance !in creating
    ensures Use(a.body[j].instance, a.body[j].body[i].instance) in UsesInBody(a, k, completed, creating)
    decreases k
  {
    if j < k - 1 {
      CallUses(a, j, k - 1, completed, creating, i);
    }
  }

  // ----- The state -----

  function WordIn(words: map<Instance, Word>, i: Instance): Word
  {
    if i in words then words[i] else Empty
  }

  /** The created instances are those whose construction completed. */
  ghost predicate WordsMatch(words: map<Instance, Word>, completed: seq<Instance>)
  {
    && Distinct(completed)
    && forall i | i in words || i in completed :: WordIn(words, i) == Created <==> i in completed
  }

  lemma EmptyIsNew(words: map<Instance, Word>, completed: seq<Instance>, i: Instance)
    requires WordsMatch(words, completed) && WordIn(words, i) == Empty
    ensures i !in completed
  {
  }

  lemma OnlyLast(s: seq<Instance>, keep: set<Instance>, x: Instance)
    ensures Only(s + [x], keep) == Only(s, keep) + if x in keep then [x] else []
  {
    assert (s + [x])[..|s|] == s;
  }

  // ----- The process -----

  class Process {
    /** The instances with the DestructorAtExit traits; the others are leaky. */
    const registering: set<Instance>
    /** The words that are not 0. */
    var words: map<Instance, Word>
    /** The manager's stack of destructors; the top is last. */
    var stack: seq<Instance>
    var processing: bool
    /** The destructors that have run, in order. */
    var destroyed: seq<Instance>

    /** The constructions, in the order in which they completed. */
    ghost var completed: seq<Instance>

    ghost predicate Valid()
      reads this
    {
      && WordsMatch(words, completed)
      && stack == Only(completed, registering)
    }

    constructor (registering: set<Instance>)
      ensures Valid() && completed == [] && destroyed == [] && words == map[]
      ensures this.registering == registering && !processing
    {
      this.registering := registering;
      words := map[];
      stack := [];
      processing := false;
      destroyed := [];
      completed := [];
    }

    /** The instances under construction are as they were; created ones stay. */
    twostate predicate KeepsCreating()
      reads this
    {
      forall i :: (WordIn(words, i) == Creating <==> WordIn(old(words), i) == Creating)
               && (WordIn(old(words), i) == Created ==> WordIn(words, i) == Created)
    }

    /** The instances under construction. */
    ghost predicate AreCreating(creating: set<Instance>)
      reads this
    {
      forall i :: WordIn(words, i) == Creating <==> i in creating
    }

    /** Pointer(), with everything the constructors do. `done` is false when a constructor asks
        for an instance that is still being created, on which the call spins for ever. */
    method Pointer(a: Access, ghost creating: set<Instance>) returns (done: bool)
      requires Valid() && !processing && AreCreating(creating)
      modifies this`words, this`stack, this`completed
      ensures Valid() && old(completed) <= completed
      ensures done == Finish(a, old(completed), creating).Done?
      ensures done ==> completed == Finish(a, old(completed), creating).completed
      ensures done ==> a.instance in completed && KeepsCreating()
      decreases a, 2
    {
      hide Only;
      match WordIn(words, a.instance)
      case Created => return true;
      case Creating => return false;
      case Empty =>
        done := Construct(a, creating);
    }

    /** The winner's part: the creator, and CompleteLazyInstance. */
    method Construct(a: Access, ghost creating: set<Instance>) returns (done: bool)
      requires Valid() && !processing && AreCreating(creating) && WordIn(words, a.instance) == Empty
      modifies this`words, this`stack, this`completed
      ensures Valid() && old(completed) <= completed
      ensures done == Finish(a, old(completed), creating).Done?
      ensures done ==> completed == Finish(a, old(completed), creating).completed
      ensures done ==> a.instance in completed && KeepsCreating()
      decreases a, 1
    {
      hide Only, WordsMatch, FinishBody;
      EmptyIsNew(words, completed, a.instance);
      StartCreation(a.instance);
      label started:
      done := RunConstructor(a, creating + {a.instance});
      if done {
        CompleteLazyInstance(a.instance);
        forall i
          ensures (WordIn(words, i) == Creating <==> WordIn(old(words), i) == Creating)
               && (WordIn(old(words), i) == Created ==> WordIn(words, i) == Created)
        {
          if i != a.instance {
            assert WordIn(old@started(words), i) == WordIn(old(words), i);
          }
        }
      }
    }

    /** The constructor of an instance whose word is marked. */
    method RunConstructor(a: Access, ghost creating: set<Instance>) returns (done: bool)
      requires Valid() && !processing && AreCreating(creating) && a.instance in creating
      modifies this`words, this`stack, this`completed
      ensures Valid() && old(completed) <= completed
      ensures done == FinishBody(a, |a.body|, old(completed), creating).Done?
      ensures done ==> completed == FinishBody(a, |a.body|, old(completed), creating).completed
      ensures done ==> KeepsCreating()
      decreases a, 0
    {
      hide Only, WordsMatch, Finish;
      var k := 0;
      while k < |a.body|
        invariant k <= |a.body| && Valid() && old(completed) <= completed
        invariant KeepsCreating() && AreCreating(creating)
        invariant FinishBody(a, k, old(completed), creating) == Done(completed)
      {
        done := Pointer(a.body[k], creating);
        if !done {
          SpinsOn(a, k + 1, |a.body|, old(completed), creating);
          return false;
        }
        k := k + 1;
      }
      return true;
    }

    /** The swap from 0 to the creating mark. */
    method StartCreation(i: Instance)
      requires Valid() && WordIn(words, i) == Empty
      modifies this`words
      ensures Valid() && words == old(words)[i := Creating]
    {
      assert i !in completed;
      words := words[i := Creating];
    }

    /** CompleteLazyInstance: publishes the instance and registers its destructor. */
    method CompleteLazyInstance(i: Instance)
      requires Valid() && !processing && WordIn(words, i) == Creating
      modifies this`words, this`stack, this`completed
      ensures Valid() && completed == old(completed) + [i] && words == old(words)[i := Created]
    {
      hide Only;
      assert i !in completed;
      words := words[i := Created];
      OnlyLast(completed, registering, i);
      assert stack + [] == stack;
      if i in registering {
        RegisterTask(i);
      }
      completed := completed + [i];
    }

    /** RegisterTask on the only manager. */
    method RegisterTask(i: Instance)
      requires !processing
      modifies this`stack
      ensures stack == old(stack) + [i]
    {
      stack := stack + [i];
    }

    /** OnExit: the destructor of an instance that exists, and the word back to 0. */
    method OnExit(i: Instance)
      requires WordIn(words, i) == Created
      modifies this`words, this`destroyed
      ensures destroyed == old(destroyed) + [i] && words == old(words) - {i}
    {
      destroyed := destroyed + [i];
      words := words - {i};
    }

    /** ProcessCallbacksNow, for destructors that register nothing: each runs once, the last
        registered first. */
    method ProcessCallbacksNow()
      requires Valid()
      modifies this`words, this`stack, this`processing, this`destroyed
      ensures processing && stack == []
      ensures destroyed == old(destroyed) + Reversed(old(stack))
      ensures forall i :: WordIn(words, i) == if i in old(stack) then Empty else WordIn(old(words), i)
    {
      hide Only;
      var tasks := stack;
      stack := [];
      processing := true;
      OnlyDistinct(completed, registering);
      OnlyAmong(completed, registering);
      ghost var all := tasks;
      while tasks != []
        invariant tasks <= all && processing && stack == []
        invariant destroyed == old(destroyed) + Reversed(all)[..|all| - |tasks|]
        invariant forall i :: WordIn(words, i) == if i in all && i !in tasks then Empty else WordIn(old(words), i)
        decreases |tasks|
      {
        var top := tasks[|tasks| - 1];
        assert all[|tasks| - 1] == top && top in all;
        OnExit(top);
        ghost var r, k := Reversed(all), |all| - |tasks|;
        assert r[k] == top && r[..k + 1] == r[..k] + [top];
        TopOnce(all, tasks);
        tasks := tasks[..|tasks| - 1];
      }
      assert Reversed(all)[..|all|] == Reversed(all);
    }
  }

  lemma OnlyAmong(s: seq<Instance>, keep: set<Instance>)
    ensures forall x | x in Only(s, keep) :: x in s
  {
  }

  /** Taking the top off a stack of distinct elements takes just that element. */
  lemma TopOnce(all: seq<Instance>, tasks: seq<Instance>)
    requires Distinct(all) && tasks <= all && tasks != []
    ensures forall x :: x in tasks[..|tasks| - 1] <==> x in tasks && x != tasks[|tasks| - 1]
  {
    assert forall k | 0 <= k < |tasks| :: tasks[k] == all[k];
    assert tasks == tasks[..|tasks| - 1] + [tasks[|tasks| - 1]];
  }

  /** Destructors run in reverse order of completion: an instance goes before any instance that its
      constructor created or used. */
  lemma DestroyedBeforeWhatItUses(completed: seq<Instance>, registering: set<Instance>, i: Instance, u: Instance)
    requires Before(completed, u, i) && i in registering && u in registering
    ensures Before(Reversed(Only(completed, registering)), i, u)
  {
    hide Before;
    OnlyKeepsOrder(completed, registering, u, i);
    ReversedOrder(Only(completed, registering), u, i);
  }

  lemma ReversedKeeps(s: seq<Instance>)
    requires Distinct(s)
    ensures Distinct(Reversed(s)) && forall x :: x in Reversed(s) <==> x in s
  {
    var r := Reversed(s);
    forall x | x in s
      ensures x in r
    {
      var i :| 0 <= i < |s| && s[i] == x;
      assert r[|s| - 1 - i] == x;
    }
  }

  /** The calls of a program, with any nesting of creations. */
  method RunCalls(registering: set<Instance>, calls: seq<Access>) returns (p: Process, done: bool)
    ensures fresh(p) && p.Valid() && !p.processing && p.destroyed == [] && p.registering == registering
    ensures done == FinishBody(Access(0, calls), |calls|, [], {}).Done?
    ensures done ==> FinishBody(Access(0, calls), |calls|, [], {}) == Done(p.completed) && p.AreCreating({})
    ensures done ==> forall k | 0 <= k < |calls| :: calls[k].instance in p.completed
  {
    hide Only, Finish, WordsMatch;
    p := new Process(registering);
    ghost var program := Access(0, calls);
    var k := 0;
    while k < |calls|
      invariant k <= |calls| && fresh(p) && p.Valid() && !p.processing && p.destroyed == [] && p.registering == registering
      invariant p.AreCreating({}) && FinishBody(program, k, [], {}) == Done(p.completed)
      invariant forall j | 0 <= j < k :: calls[j].instance in p.completed
    {
      done := p.Pointer(calls[k], {});
      if !done {
        SpinsOn(program, k + 1, |calls|, [], {});
        return;
      }
      k := k + 1;
    }
    done := true;
  }

  /** A whole life: any calls, and then the exit. Every registered instance that was constructed is
      destroyed once, in reverse order of completion, and its word is 0 again. */
  method RunAndExit(registering: set<Instance>, calls: seq<Access>) returns (p: Process, done: bool)
    ensures fresh(p)
    ensures done == FinishBody(Access(0, calls), |calls|, [], {}).Done?
    ensures done ==> FinishBody(Access(0, calls), |calls|, [], {}) == Done(p.completed)
    ensures done ==> p.destroyed == Reversed(Only(p.completed, registering)) && Distinct(p.destroyed)
    ensures done ==> forall i :: i in p.destroyed <==> i in p.completed && i in registering
    ensures done ==> forall i :: WordIn(p.words, i) == if i in p.completed && i !in registering then Created else Empty
    ensures done ==> forall k | 0 <= k < |calls| :: calls[k].instance in p.completed
    ensures done ==> forall use | use in UsesInBody(Access(0, calls), |calls|, [], {})
                                  && use.user in registering && use.used in registering ::
      Before(p.destroyed, use.user, use.used)
    ensures done ==> forall chain | Chain(UsesInBody(Access(0, calls), |calls|, [], {}), chain)
                                    && chain[0] in registering && chain[|chain| - 1] in registering ::
      Before(p.destroyed, chain[0], chain[|chain| - 1])
  {
    hide Only, FinishBody, Before, UsesInBody;
    p, done := RunCalls(registering, calls);
    if !done {
      return;
    }
    p.ProcessCallbacksNow();
    ghost var stack := Only(p.completed, registering);
    assert p.destroyed == Reversed(stack);
    OnlyDistinct(p.completed, registering);
    ReversedKeeps(stack);
    ghost var uses := UsesInBody(Access(0, calls), |calls|, [], {});
    forall use | use in uses
      ensures Before(p.completed, use.used, use.user)
      ensures use.user in registering && use.used in registering ==> Before(p.destroyed, use.user, use.used)
    {
      UsedInBodyCompletesFirst(Access(0, calls), |calls|, [], {}, use);
      if use.user in registering && use.used in registering {
        DestroyedBeforeWhatItUses(p.completed, registering, use.user, use.used);
      }
    }
    forall chain | Chain(uses, chain) && chain[0] in registering && chain[|chain| - 1] in registering
      ensures Before(p.destroyed, chain[0], chain[|chain| - 1])
    {
      ChainCompletesFirst(uses, p.completed, chain);
      DestroyedBeforeWhatItUses(p.completed, registering, chain[0], chain[|chain| - 1]);
    }
  }
}
