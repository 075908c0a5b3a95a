/** Which registration decides a feature, and when printed overrides are read back. */
module FeatureListLaws {
  import opened OrderedMap
  import opened FeatureList
  import opened Optional
  import opened Text

  // ----- The first registration decides -----

  /** The position of the first registration of a name, or the number of registrations. */
  function FirstNamed(rs: seq<Registration>, name: string): (i: nat)
    ensures i <= |rs| && (i < |rs| ==> rs[i].name == name)
    ensures forall j | 0 <= j < i :: rs[j].name != name
  {
    if rs == [] || rs[0].name == name then 0 else 1 + FirstNamed(rs[1..], name)
  }

  lemma FirstNamedIs(rs: seq<Registration>, name: string, i: nat)
    requires i <= |rs| && (i < |rs| ==> rs[i].name == name) && forall j | 0 <= j < i :: rs[j].name != name
    ensures FirstNamed(rs, name) == i
  {
    hide FirstNamed;
    var f := FirstNamed(rs, name);
  }

  function OverrideOf(r: Registration): Override
  {
    Override(r.state, r.trial, r.trial.Some?)
  }

  lemma {:induction false} FirstRegistrationStays(rs: seq<Registration>, name: string)
    ensures var o := RegisteredAll([], rs);
            && Sorted(o)
            && (name in AsMap(o) <==> FirstNamed(rs, name) < |rs|)
            && (name in AsMap(o) ==> AsMap(o)[name] == OverrideOf(rs[FirstNamed(rs, name)]))
    decreases |rs|
  {
    hide FirstNamed, Inserted, Sorted;
    if rs == [] {
      EmptySorted();
    } else {
      var front, last := rs[..|rs| - 1], rs[|rs| - 1];
      FirstRegistrationStays(front, name);
      var o := RegisteredAll([], front);
      InsertedIsInsert(o, last.name, OverrideOf(last));
      var i := FirstNamed(front, name);
      if i < |front| || last.name == name {
        FirstNamedIs(rs, name, i);
      } else {
        FirstNamedIs(rs, name, |rs|);
      }
      FirstRegistrationStays(front, last.name);
    }
  }

  lemma EmptySorted()
    ensures Sorted<Override>([]) && AsMap<Override>([]) == map[]
  {
  }

  /** What is done between reading the command line and finishing. */
  datatype Step =
    | RegisterTrial(name: string, state: OverrideState, trial: Trial)
    | Associate(name: string, state: OverrideState, trial: Trial)

  /** An association is made for a feature that the command line has put into that state. */
  ghost function AfterSteps(o: Overrides, steps: seq<Step>): Overrides
  {
    if steps == [] then o
    else
      var before := AfterSteps(o, steps[..|steps| - 1]);
      match steps[|steps| - 1]
      case RegisterTrial(name, state, trial) => Registered(before, Starred(name, state, Some(trial)))
      case Associate(name, state, trial) =>
        if OverriddenFromCommandLine(before, name, state) then Associated(before, name, trial) else before
  }

  /** The registrations among the steps. */
  function StepRegistrations(steps: seq<Step>): seq<Registration>
  {
    if steps == [] then []
    else
      StepRegistrations(steps[..|steps| - 1])
      + match steps[|steps| - 1]
        case RegisterTrial(name, state, trial) => [Starred(name, state, Some(trial))]
        case Associate(_, _, _) => []
  }

  function FirstState(rs: seq<Registration>, name: string): Option<OverrideState>
  {
    var i := FirstNamed(rs, name);
    if i < |rs| then Some(rs[i].state) else None
  }

  /** A trial for reporting leaves every state as it is. */
  lemma AssociatedKeepsStates(o: Overrides, associated: string, trial: Trial, name: string)
    requires Sorted(o)
    ensures Sorted(Associated(o, associated, trial))
    ensures StateOf(Associated(o, associated, trial), name) == StateOf(o, name)
  {
    hide AsMap, Less;
    var r := Associated(o, associated, trial);
    assert Sorted(r);
    if name in AsMap(o) {
      var i := EntryFor(o, name);
      EntryOf(r, i);
    } else if name in AsMap(r) {
      var i := EntryFor(r, name);
      KeyOfEntry(o, i);
    }
  }

  lemma RegisteredState(o: Overrides, r: Registration, name: string)
    requires Sorted(o)
    ensures Sorted(Registered(o, r))
    ensures StateOf(Registered(o, r), name)
         == if name == r.name && StateOf(o, name).None? then Some(r.state) else StateOf(o, name)
  {
    hide AsMap, Sorted, Inserted;
    InsertedIsInsert(o, r.name, OverrideOf(r));
  }

  lemma FirstStateExtends(rs: seq<Registration>, r: Registration, name: string)
    ensures FirstState(rs + [r], name) == if name == r.name && FirstState(rs, name).None? then Some(r.state) else FirstState(rs, name)
  {
    hide FirstNamed;
    var i := FirstNamed(rs, name);
    if i < |rs| || r.name == name {
      FirstNamedIs(rs + [r], name, i);
    } else {
      FirstNamedIs(rs + [r], name, |rs| + 1);
    }
  }

  /** However trials are registered and associated after the command line is read, the state of
      a feature is that of its first registration: the disable list, then the enable list, then
      the trials in order. */
  lemma {:induction false} FirstRegistrationDecides(cmd: seq<Registration>, steps: seq<Step>, name: string)
    ensures var o := AfterSteps(RegisteredAll([], cmd), steps);
            Sorted(o) && StateOf(o, name) == FirstState(cmd + StepRegistrations(steps), name)
    decreases |steps|
  {
    hide FirstState, Registered, Starred, Sorted, AsMap;
    var o := RegisteredAll([], cmd);
    if steps == [] {
      assert cmd + [] == cmd;
      CommandLineState(cmd, name);
    } else {
      var front := steps[..|steps| - 1];
      FirstRegistrationDecides(cmd, front, name);
      match steps[|steps| - 1]
      case RegisterTrial(n, state, trial) =>
        var r := Starred(n, state, Some(trial));
        RegisteredState(AfterSteps(o, front), r, name);
        FirstStateExtends(cmd + StepRegistrations(front), r, name);
        assert cmd + (StepRegistrations(front) + [r]) == cmd + StepRegistrations(front) + [r];
      case Associate(n, _, trial) =>
        AssociatedKeepsStates(AfterSteps(o, front), n, trial, name);
        assert StepRegistrations(front) + [] == StepRegistrations(front);
    }
  }

  lemma CommandLineState(cmd: seq<Registration>, name: string)
    ensures Sorted(RegisteredAll([], cmd)) && StateOf(RegisteredAll([], cmd), name) == FirstState(cmd, name)
  {
    hide FirstNamed, RegisteredAll, Sorted, AsMap;
    FirstRegistrationStays(cmd, name);
  }

  /** A stored state never changes afterwards. */
  lemma StoredStateStays(cmd: seq<Registration>, steps: seq<Step>, more: seq<Step>, name: string)
    requires StateOf(AfterSteps(RegisteredAll([], cmd), steps), name).Some?
    ensures StateOf(AfterSteps(RegisteredAll([], cmd), steps + more), name)
         == StateOf(AfterSteps(RegisteredAll([], cmd), steps), name)
  {
    hide RegisteredAll, AfterSteps, StateOf, FirstNamed;
    FirstRegistrationDecides(cmd, steps, name);
    FirstRegistrationDecides(cmd, steps + more, name);
    StepsInParts(steps, more);
    var rs := cmd + StepRegistrations(steps);
    assert cmd + (StepRegistrations(steps) + StepRegistrations(more)) == rs + StepRegistrations(more);
    FirstNamedIs(rs + StepRegistrations(more), name, FirstNamed(rs, name));
  }

  /** A process from its two switches to a query: the first registration of the name decides. */
  method ConfigureAndQuery(registry: Registry, enable: string, disable: string, steps: seq<Step>,
                           name: string, byDefault: bool)
    returns (list: FeatureList, enabled: bool)
    ensures fresh(list) && list.Valid()
    ensures
      var rs := CommandLineRegistrations(registry, enable, disable) + StepRegistrations(steps);
      enabled == Decides(FirstState(rs, name), byDefault)
    ensures list.activated == TrialsOf(list.overrides, name)
  {
    hide FirstState, RegisteredAll, CommandLineRegistrations, StepRegistrations, Sorted, Registered, Starred, Associated;
    hide OverriddenFromCommandLine, StateOf, TrialsOf;
    list := new FeatureList();
    list.InitializeFromCommandLine(registry, enable, disable);
    ghost var cmd := CommandLineRegistrations(registry, enable, disable);
    for i := 0 to |steps|
      invariant fresh(list) && list.Valid() && !list.initialized && list.activated == {}
      invariant list.overrides == AfterSteps(RegisteredAll([], cmd), steps[..i])
    {
      assert steps[..i + 1][..i] == steps[..i];
      match steps[i]
      case RegisterTrial(feature, state, trial) =>
        list.RegisterFieldTrialOverride(feature, state, trial);
      case Associate(feature, state, trial) =>
        var overridden := list.IsFeatureOverriddenFromCommandLine(feature, state);
        if overridden {
          list.AssociateReportingFieldTrial(feature, state, trial);
        }
    }
    assert steps[..|steps|] == steps;
    list.FinalizeInitialization();
    FirstRegistrationDecides(cmd, steps, name);
    enabled := list.IsFeatureEnabled(name, byDefault);
  }

  lemma {:induction false} StepsInParts(steps: seq<Step>, more: seq<Step>)
    ensures StepRegistrations(steps + more) == StepRegistrations(steps) + StepRegistrations(more)
    decreases |more|
  {
    if more == [] {
      assert steps + more == steps;
    } else {
      StepsInParts(steps, more[..|more| - 1]);
      assert (steps + more)[..|steps + more| - 1] == steps + more[..|more| - 1];
    }
  }

  // ----- Printed overrides -----

  /** The printed items of one of the two lists, in order. */
  function Items(o: Overrides, enable: bool): seq<string>
  {
    if o == [] then []
    else
      Items(o[..|o| - 1], enable)
      + if GoesToEnable(o[|o| - 1].value) == enable then [PrintEntry(o[|o| - 1].key, o[|o| - 1].value)] else []
  }

  function JoinItems(items: seq<string>): string
  {
    if items == [] then "" else AppendItem(JoinItems(items[..|items| - 1]), items[|items| - 1])
  }

  lemma {:induction false} PrintListIsJoin(o: Overrides, enable: bool)
    ensures PrintList(o, enable, false) == JoinItems(Items(o, enable))
    decreases |o|
  {
    hide PrintEntry;
    if o != [] {
      var front, last := o[..|o| - 1], o[|o| - 1];
      PrintListIsJoin(front, enable);
      var items := Items(front, enable);
      if GoesToEnable(last.value) == enable {
        assert (items + [PrintEntry(last.key, last.value)])[..|items|] == items;
      } else {
        assert items + [] == items;
      }
    }
  }

  lemma NoComma(s: string)
    requires ',' !in s
    ensures Pieces(s) == [s]
  {
    IndexOfIs(s, ',', |s|);
  }

  lemma {:induction false} PiecesAppend(s: string, t: string)
    requires ',' !in t
    ensures Pieces(s + "," + t) == Pieces(s) + [t]
    decreases |s|
  {
    hide IndexOf;
    var e := IndexOf(s, ',');
    var all := s + "," + t;
    assert all[..e] == s[..e];
    IndexOfIs(all, ',', e);
    if e == |s| {
      assert all[e + 1..] == t && s[..e] == s;
      NoComma(t);
    } else {
      assert all[e + 1..] == s[e + 1..] + "," + t;
      PiecesAppend(s[e + 1..], t);
    }
  }

  /** A joined list is split into its items again, but for trimming. */
  lemma {:induction false} FeaturesOfJoin(items: seq<string>)
    requires forall x | x in items :: ',' !in x
    ensures Features(JoinItems(items)) == Kept(items)
    decreases |items|
  {
    hide Kept, Pieces, TrimBlanks;
    if items == [] {
      NoComma("");
      KeptLast([], "");
      assert [] + [""] == [""];
      TrimNothing();
      EmptyKept();
    } else {
      var front, last := items[..|items| - 1], items[|items| - 1];
      FeaturesOfJoin(front);
      assert items == front + [last];
      KeptLast(front, last);
      var joined := JoinItems(front);
      NoComma(last);
      if joined == "" {
        assert AppendItem(joined, last) == last;
        NoComma("");
        KeptLast([], "");
        KeptLast([], last);
        assert [] + [""] == [""] && [] + [last] == [last];
        TrimNothing();
        EmptyKept();
      } else {
        PiecesAppend(joined, last);
        KeptLast(Pieces(joined), last);
      }
    }
  }

  lemma TrimNothing()
    ensures TrimBlanks("") == ""
  {
    TrimFacts(Ascii, "");
  }

  lemma EmptyKept()
    ensures Kept([]) == []
  {
  }

  /** The names identify the trials, and every trial of the overrides is known. */
  ghost predicate TrialsKnown(registry: Registry, o: Overrides)
  {
    && (forall n | n in registry :: registry[n].name == n)
    && (forall e | e in o && e.value.trial.Some? ::
          e.value.trial.value.name in registry && registry[e.value.trial.value.name] == e.value.trial.value)
  }

  /** An entry whose printed form can be read: it is one non-empty, trimmed piece, its name holds
      no '<', and a name that starts with '*' is not taken for a mark. */
  predicate Readable(name: string, o: Override)
  {
    var item := PrintEntry(name, o);
    && ',' !in item && item != "" && Trimmed(Ascii, item)
    && '<' !in name
    && (o.state != UseDefault && name != "" ==> name[0] != '*')
  }

  /** The overrides as they are read back: whether a trial is for reporting only is not printed. */
  function Restored(o: Overrides): (r: Overrides)
    ensures |r| == |o|
    ensures forall i | 0 <= i < |o| :: r[i] == Entry(o[i].key, o[i].value.(byTrial := o[i].value.trial.Some?))
  {
    seq(|o|, i requires 0 <= i < |o| => Entry(o[i].key, o[i].value.(byTrial := o[i].value.trial.Some?)))
  }

  /** Printing a list and reading both strings into a new one. */
  function ReadBack(registry: Registry, o: Overrides): Overrides
  {
    RegisteredAll([], CommandLineRegistrations(registry, PrintList(o, true, false), PrintList(o, false, false)))
  }

  // ----- Readable overrides are restored -----

  /** The parent prints its overrides and a child reads them. */
  method PassToChild(parent: FeatureList, registry: Registry) returns (child: FeatureList)
    requires parent.initialized
    ensures fresh(child) && child.Valid() && child.overrides == ReadBack(registry, parent.overrides)
  {
    hide PrintList, CommandLineRegistrations, RegisteredAll;
    var enable, disable := parent.GetFeatureOverrides(false);
    child := new FeatureList();
    child.InitializeFromCommandLine(registry, enable, disable);
  }

  function RegistrationOf(name: string, o: Override): Registration
  {
    Registration(name, o.state, o.trial)
  }

  function Marked(name: string, state: OverrideState): string
  {
    (if state == UseDefault then "*" else "") + name
  }

  lemma EntryWithoutTrial(registry: Registry, marked: string, state: OverrideState)
    requires '<' !in marked
    ensures ReadEntry(registry, marked, state) == Starred(marked, state, None)
  {
    hide IndexOf, Starred;
    IndexOfIs(marked, '<', |marked|);
  }

  lemma EntryWithTrial(registry: Registry, marked: string, trial: string, state: OverrideState)
    requires '<' !in marked
    ensures ReadEntry(registry, marked + ("<" + trial), state) == Starred(marked, state, FindTrial(registry, trial))
  {
    hide IndexOf, Starred, FindTrial;
    var item := marked + ("<" + trial);
    assert item[..|marked|] == marked && item[|marked| + 1..] == trial;
    IndexOfIs(item, '<', |marked|);
  }

  /** The mark is read back, and a name that starts with '*' is not taken for one. */
  lemma MarkReadBack(name: string, v: OverrideState, state: OverrideState, trial: Option<Trial>)
    requires state != UseDefault && (v == UseDefault || v == state)
    requires v != UseDefault && name != "" ==> name[0] != '*'
    ensures Starred(Marked(name, v), state, trial) == Registration(name, v, trial)
  {
    assert v == UseDefault ==> Marked(name, v)[1..] == name;
    assert v != UseDefault ==> Marked(name, v) == name;
  }

  /** One printed entry, read on its own. */
  lemma ReadPrinted(registry: Registry, o: Overrides, e: Entry<Override>, state: OverrideState)
    requires TrialsKnown(registry, o) && e in o && Readable(e.key, e.value)
    requires state != UseDefault && (e.value.state == UseDefault || e.value.state == state)
    ensures ReadEntry(registry, PrintEntry(e.key, e.value), state) == RegistrationOf(e.key, e.value)
  {
    hide IndexOf, Starred, ReadEntry;
    var name, v := e.key, e.value;
    var marked := Marked(name, v.state);
    MarkReadBack(name, v.state, state, v.trial);
    if v.trial.None? {
      assert PrintEntry(name, v) == marked;
      EntryWithoutTrial(registry, marked, state);
    } else {
      assert PrintEntry(name, v) == marked + ("<" + v.trial.value.name);
      EntryWithTrial(registry, marked, v.trial.value.name, state);
    }
  }

  /** A piece that splitting keeps as it is. */
  predicate Clean(x: string) { x != "" && Trimmed(Ascii, x) }

  ghost predicate AllClean(items: seq<string>)
  {
    forall i | 0 <= i < |items| :: Clean(items[i])
  }

  lemma AllCleanLast(front: seq<string>, last: string)
    ensures AllClean(front + [last]) <==> AllClean(front) && Clean(last)
  {
    hide Clean;
    var all := front + [last];
    assert all[|front|] == last;
    assert forall i | 0 <= i < |front| :: all[i] == front[i];
  }

  lemma {:induction false} KeptAll(items: seq<string>)
    requires AllClean(items)
    ensures Kept(items) == items
    decreases |items|
  {
    hide TrimBlanks, Kept, Clean, AllClean;
    if items == [] {
      EmptyKept();
    } else {
      var front, last := items[..|items| - 1], items[|items| - 1];
      assert items == front + [last];
      AllCleanLast(front, last);
      KeptAll(front);
      KeptLast(front, last);
      KeptTrimmed(last);
    }
  }

  lemma KeptTrimmed(s: string)
    requires Clean(s)
    ensures TrimBlanks(s) == s != ""
  {
    TrimFacts(Ascii, s);
  }

  /** Every item is the printed form of an entry of its list, and every entry has its item. */
  lemma {:induction false} ItemsAre(o: Overrides, enable: bool)
    ensures forall x | x in Items(o, enable) ::
      exists e | e in o :: GoesToEnable(e.value) == enable && x == PrintEntry(e.key, e.value)
    ensures forall e | e in o && GoesToEnable(e.value) == enable :: PrintEntry(e.key, e.value) in Items(o, enable)
    decreases |o|
  {
    hide PrintEntry, GoesToEnable;
    if o != [] {
      var front, last := o[..|o| - 1], o[|o| - 1];
      ItemsAre(front, enable);
      assert o == front + [last];
      forall x | x in Items(o, enable)
        ensures exists e | e in o :: GoesToEnable(e.value) == enable && x == PrintEntry(e.key, e.value)
      {
        if x in Items(front, enable) {
          var e :| e in front && GoesToEnable(e.value) == enable && x == PrintEntry(e.key, e.value);
          assert e in o;
        } else {
          assert last in o;
        }
      }
    }
  }

  /** The registrations of one list, when its items hold no comma. */
  lemma RegistrationsOfList(registry: Registry, o: Overrides, enable: bool, state: OverrideState)
    requires forall x | x in Items(o, enable) :: ',' !in x
    ensures ReadEntries(registry, Features(PrintList(o, enable, false)), state)
         == ReadEntries(registry, Kept(Items(o, enable)), state)
  {
    hide Features, PrintList, JoinItems, Items, Kept;
    PrintListIsJoin(o, enable);
    FeaturesOfJoin(Items(o, enable));
  }

  /** The registrations that reading back makes are those of the entries, one way and the other. */
  lemma RegistrationsOfPrinted(registry: Registry, o: Overrides)
    requires TrialsKnown(registry, o) && forall e | e in o :: Readable(e.key, e.value)
    ensures
      var rs := CommandLineRegistrations(registry, PrintList(o, true, false), PrintList(o, false, false));
      && (forall r | r in rs :: exists e | e in o :: r == RegistrationOf(e.key, e.value))
      && (forall e | e in o :: RegistrationOf(e.key, e.value) in rs)
  {
    hide PrintList, Items, ReadEntry, PrintEntry, TrialsKnown, Features, Kept;
    ListReadBack(registry, o, true, EnableFeature);
    ListReadBack(registry, o, false, DisableFeature);
  }

  /** The same for one of the two lists. */
  lemma ListReadBack(registry: Registry, o: Overrides, enable: bool, state: OverrideState)
    requires TrialsKnown(registry, o) && forall e | e in o :: Readable(e.key, e.value)
    requires state == if enable then EnableFeature else DisableFeature
    ensures
      var rs := ReadEntries(registry, Features(PrintList(o, enable, false)), state);
      && (forall r | r in rs :: exists e | e in o :: r == RegistrationOf(e.key, e.value))
      && (forall e | e in o && GoesToEnable(e.value) == enable :: RegistrationOf(e.key, e.value) in rs)
  {
    hide PrintList, Items, ReadEntry, PrintEntry, TrialsKnown, Features, Kept;
    var items := Items(o, enable);
    ItemsAre(o, enable);
    forall x | x in items
      ensures ',' !in x && Clean(x)
    {
      var e :| e in o && GoesToEnable(e.value) == enable && x == PrintEntry(e.key, e.value);
      assert Readable(e.key, e.value);
    }
    RegistrationsOfList(registry, o, enable, state);
    KeptAll(items);
    var rs := ReadEntries(registry, items, state);
    forall r | r in rs
      ensures exists e | e in o :: r == RegistrationOf(e.key, e.value)
    {
      var i :| 0 <= i < |rs| && rs[i] == r;
      assert items[i] in items;
      var e :| e in o && GoesToEnable(e.value) == enable && items[i] == PrintEntry(e.key, e.value);
      ReadPrinted(registry, o, e, state);
    }
    forall e | e in o && GoesToEnable(e.value) == enable
      ensures RegistrationOf(e.key, e.value) in rs
    {
      var i :| 0 <= i < |items| && items[i] == PrintEntry(e.key, e.value);
      ReadPrinted(registry, o, e, state);
      assert rs[i] == RegistrationOf(e.key, e.value);
    }
  }

  lemma RestoredSorted(o: Overrides)
    requires Sorted(o)
    ensures Sorted(Restored(o))
  {
    hide Less;
  }

  /** Overrides with readable entries are restored. */
  lemma ReadableIsRestored(registry: Registry, o: Overrides)
    requires Sorted(o) && TrialsKnown(registry, o) && forall e | e in o :: Readable(e.key, e.value)
    ensures ReadBack(registry, o) == Restored(o)
  {
    hide AsMap, Less, RegisteredAll, CommandLineRegistrations, FirstNamed, Readable, TrialsKnown;
    var rs := CommandLineRegistrations(registry, PrintList(o, true, false), PrintList(o, false, false));
    var r, restored := ReadBack(registry, o), Restored(o);
    RegistrationsOfPrinted(registry, o);
    RestoredSorted(o);
    FirstRegistrationStays(rs, "");
    forall k | k in AsMap(r)
      ensures Entry(k, AsMap(r)[k]) in restored
    {
      FirstRegistrationStays(rs, k);
      assert rs[FirstNamed(rs, k)] in rs;
      var e :| e in o && rs[FirstNamed(rs, k)] == RegistrationOf(e.key, e.value);
      var i :| 0 <= i < |o| && o[i] == e;
      assert restored[i] == Entry(k, AsMap(r)[k]);
    }
    forall i | 0 <= i < |restored|
      ensures restored[i].key in AsMap(r)
    {
      assert o[i] in o;
      FirstRegistrationStays(rs, o[i].key);
      var j :| 0 <= j < |rs| && rs[j] == RegistrationOf(o[i].key, o[i].value);
    }
    SortedMapEqual(restored, AsMap(r));
    SortedIsCanonical(r, restored);
  }

  // ----- Restored overrides were readable -----

  /** Trimming only takes characters away. */
  lemma TrimKeepsOut(s: string, c: char)
    requires c !in s
    ensures c !in TrimBlanks(s)
  {
    var left := Text.TrimLeft(Text.Ascii, s);
    assert c !in left;
  }

  lemma {:induction false} PiecesHaveNoComma(s: string)
    ensures forall x | x in Pieces(s) :: ',' !in x
    decreases |s|
  {
    hide IndexOf;
    var e := IndexOf(s, ',');
    if e < |s| {
      PiecesHaveNoComma(s[e + 1..]);
    } else {
      assert s[..e] == s;
    }
  }

  lemma {:induction false} KeptHaveNoComma(pieces: seq<string>)
    requires forall x | x in pieces :: ',' !in x
    ensures forall x | x in Kept(pieces) :: ',' !in x
    decreases |pieces|
  {
    hide TrimBlanks;
    if pieces != [] {
      KeptHaveNoComma(pieces[..|pieces| - 1]);
      TrimKeepsOut(pieces[|pieces| - 1], ',');
    }
  }

  /** What any registration from a list looks like. */
  ghost predicate ReadableNames(r: Registration)
  {
    && ',' !in r.name && '<' !in r.name
    && (r.trial.Some? ==> ',' !in r.trial.value.name)
    && (r.name != "" && r.name[0] == '*' ==> r.state == UseDefault)
  }

  lemma ReadEntryNames(registry: Registry, entry: string, state: OverrideState)
    requires ',' !in entry && forall n | n in registry :: registry[n].name == n
    ensures ReadableNames(ReadEntry(registry, entry, state))
  {
    hide IndexOf;
    var pos := IndexOf(entry, '<');
    assert entry[..|entry|] == entry;
  }

  lemma ListNames(registry: Registry, list: string, state: OverrideState)
    requires forall n | n in registry :: registry[n].name == n
    ensures forall r | r in ReadEntries(registry, Features(list), state) :: ReadableNames(r)
  {
    hide ReadEntry, Pieces, Kept, ReadableNames;
    PiecesHaveNoComma(list);
    KeptHaveNoComma(Pieces(list));
    var entries := Features(list);
    var rs := ReadEntries(registry, entries, state);
    forall r | r in rs
      ensures ReadableNames(r)
    {
      var i :| 0 <= i < |rs| && rs[i] == r;
      assert entries[i] in entries;
      ReadEntryNames(registry, entries[i], state);
    }
  }

  /** If an override is restored, its names can be read. */
  lemma RestoredNames(registry: Registry, o: Overrides, e: Entry<Override>)
    requires Sorted(o) && TrialsKnown(registry, o) && ReadBack(registry, o) == Restored(o) && e in o
    ensures ReadableNames(RegistrationOf(e.key, e.value))
  {
    hide AsMap, Less, RegisteredAll, FirstNamed, ReadEntries, Features, PrintList, ReadableNames;
    var enable, disable := PrintList(o, true, false), PrintList(o, false, false);
    var rs := CommandLineRegistrations(registry, enable, disable);
    ListNames(registry, enable, EnableFeature);
    ListNames(registry, disable, DisableFeature);
    var i :| 0 <= i < |o| && o[i] == e;
    RestoredSorted(o);
    EntryOf(Restored(o), i);
    FirstRegistrationStays(rs, e.key);
    assert rs[FirstNamed(rs, e.key)] in rs;
    assert RegistrationOf(e.key, e.value) == rs[FirstNamed(rs, e.key)];
  }

  // Reading can only lose weight.

  function Printed(o: Overrides): (r: seq<string>)
    ensures |r| == |o| && forall i | 0 <= i < |o| :: r[i] == PrintEntry(o[i].key, o[i].value)
  {
    seq(|o|, i requires 0 <= i < |o| => PrintEntry(o[i].key, o[i].value))
  }

  /** The printed forms of registrations. */
  function PrintedRs(rs: seq<Registration>): (r: seq<string>)
    ensures |r| == |rs| && forall i | 0 <= i < |rs| :: r[i] == PrintEntry(rs[i].name, OverrideOf(rs[i]))
  {
    seq(|rs|, i requires 0 <= i < |rs| => PrintEntry(rs[i].name, OverrideOf(rs[i])))
  }

  lemma InsertedWeight(o: Overrides, key: string, v: Override)
    ensures Weight(Printed(Inserted(o, key, v))) <= Weight(Printed(o)) + 1 + |PrintEntry(key, v)|
  {
    hide PrintEntry, Weight, Position;
    var i := Position(o, key);
    var x := PrintEntry(key, v);
    if !(i < |o| && o[i].key == key) {
      var r := o[..i] + [Entry(key, v)] + o[i..];
      var p := Printed(o);
      assert Printed(r) == p[..i] + ([x] + p[i..]);
      assert p == p[..i] + p[i..];
      WeightConcat(p[..i], p[i..]);
      WeightConcat(p[..i], [x] + p[i..]);
      WeightConcat([x], p[i..]);
      WeightOne(x);
    }
  }

  lemma {:induction false} RegisteredWeight(rs: seq<Registration>)
    ensures Weight(Printed(RegisteredAll([], rs))) <= Weight(PrintedRs(rs))
    decreases |rs|
  {
    hide PrintEntry, Inserted;
    if rs != [] {
      var front, last := rs[..|rs| - 1], rs[|rs| - 1];
      RegisteredWeight(front);
      InsertedWeight(RegisteredAll([], front), last.name, OverrideOf(last));
      assert PrintedRs(rs)[..|front|] == PrintedRs(front);
    }
  }

  lemma ReadLoses(registry: Registry, entry: string, state: OverrideState)
    requires state != UseDefault && forall n | n in registry :: registry[n].name == n
    ensures var r := ReadEntry(registry, entry, state); |PrintEntry(r.name, OverrideOf(r))| <= |entry|
  {
    hide IndexOf;
  }

  lemma {:induction false} ReadEntriesWeight(registry: Registry, entries: seq<string>, state: OverrideState)
    requires state != UseDefault && forall n | n in registry :: registry[n].name == n
    ensures Weight(PrintedRs(ReadEntries(registry, entries, state))) <= Weight(entries)
    decreases |entries|
  {
    hide PrintEntry, ReadEntry;
    if entries != [] {
      var front := entries[..|entries| - 1];
      ReadEntriesWeight(registry, front, state);
      ReadLoses(registry, entries[|entries| - 1], state);
      assert PrintedRs(ReadEntries(registry, entries, state))[..|front|] == PrintedRs(ReadEntries(registry, front, state));
    }
  }

  lemma {:induction false} KeptWeight(items: seq<string>)
    ensures Weight(Kept(items)) <= Weight(items)
    ensures Weight(Kept(items)) == Weight(items) ==> AllClean(items)
    decreases |items|
  {
    hide TrimBlanks, Weight, Kept, Clean, AllClean;
    if items == [] {
      EmptyKept();
      assert AllClean([]) by { NoItems(); }
    } else {
      var front, last := items[..|items| - 1], items[|items| - 1];
      KeptWeight(front);
      assert items == front + [last];
      AllCleanLast(front, last);
      TrimLoses(last);
      WeightConcat(front, [last]);
      WeightOne(last);
      KeptLast(front, last);
      KeptLastWeight(Kept(front), TrimBlanks(last));
    }
  }

  lemma NoItems()
    ensures AllClean([])
  {
  }

  lemma KeptLastWeight(kept: seq<string>, x: string)
    ensures Weight(kept + if x == "" then [] else [x]) == Weight(kept) + if x == "" then 0 else 1 + |x|
  {
    hide Weight;
    if x == "" {
      assert kept + [] == kept;
    } else {
      WeightConcat(kept, [x]);
      WeightOne(x);
    }
  }

  lemma TrimLoses(s: string)
    ensures |TrimBlanks(s)| <= |s| && (|TrimBlanks(s)| == |s| != 0 ==> Clean(s))
  {
    TrimFacts(Ascii, s);
  }

  lemma {:induction false} ItemsWeight(o: Overrides)
    ensures Weight(Items(o, true)) + Weight(Items(o, false)) == Weight(Printed(o))
    decreases |o|
  {
    hide PrintEntry, Weight, GoesToEnable;
    if o == [] {
      assert Printed(o) == [];
      WeightNothing();
    } else {
      var front, last := o[..|o| - 1], o[|o| - 1];
      ItemsWeight(front);
      var x := PrintEntry(last.key, last.value);
      assert Printed(o) == Printed(front) + [x];
      WeightConcat(Printed(front), [x]);
      WeightConcat(Items(front, GoesToEnable(last.value)), [x]);
      var enable := GoesToEnable(last.value);
      assert Items(o, enable) == Items(front, enable) + [x];
      assert Items(o, !enable) == Items(front, !enable);
    }
  }

  lemma WeightNothing()
    ensures Weight([]) == 0
  {
  }

  lemma PrintedRestored(o: Overrides)
    ensures Printed(Restored(o)) == Printed(o)
  {
  }

  /** If everything is restored, nothing was lost: every item was one trimmed piece. */
  lemma RestoredItems(registry: Registry, o: Overrides, enable: bool)
    requires Sorted(o) && TrialsKnown(registry, o) && ReadBack(registry, o) == Restored(o)
    requires forall x | x in Items(o, true) :: ',' !in x
    requires forall x | x in Items(o, false) :: ',' !in x
    ensures AllClean(Items(o, enable))
  {
    hide Weight, Kept, Items, ReadEntry, PrintList, RegisteredAll, Features;
    var ens, dis := Kept(Items(o, true)), Kept(Items(o, false));
    RegistrationsOfList(registry, o, true, EnableFeature);
    RegistrationsOfList(registry, o, false, DisableFeature);
    var rs, ss := ReadEntries(registry, dis, DisableFeature), ReadEntries(registry, ens, EnableFeature);
    RegisteredWeight(rs + ss);
    assert PrintedRs(rs + ss) == PrintedRs(rs) + PrintedRs(ss);
    WeightConcat(PrintedRs(rs), PrintedRs(ss));
    ReadEntriesWeight(registry, dis, DisableFeature);
    ReadEntriesWeight(registry, ens, EnableFeature);
    KeptWeight(Items(o, true));
    KeptWeight(Items(o, false));
    ItemsWeight(o);
    PrintedRestored(o);
  }

  /** Printed overrides are read back, name by name with state and trial, exactly when every
      entry is readable. */
  lemma RestoredIffReadable(registry: Registry, o: Overrides)
    requires Sorted(o) && TrialsKnown(registry, o)
    ensures ReadBack(registry, o) == Restored(o) <==> forall e | e in o :: Readable(e.key, e.value)
  {
    hide ReadBack, Restored, TrialsKnown, Sorted, Items;
    if forall e | e in o :: Readable(e.key, e.value) {
      ReadableIsRestored(registry, o);
    }
    if ReadBack(registry, o) == Restored(o) {
      ItemsAre(o, true);
      ItemsAre(o, false);
      forall e | e in o
        ensures ',' !in PrintEntry(e.key, e.value) && ReadableNames(RegistrationOf(e.key, e.value))
      {
        RestoredNames(registry, o, e);
      }
      RestoredItems(registry, o, true);
      RestoredItems(registry, o, false);
      forall e | e in o
        ensures Readable(e.key, e.value)
      {
        var items := Items(o, GoesToEnable(e.value));
        var i :| 0 <= i < |items| && items[i] == PrintEntry(e.key, e.value);
        assert Clean(items[i]);
      }
    }
  }

  /** A valid name in the code's own sense that is also not empty and trimmed. */
  predicate PlainName(name: string)
  {
    name != "" && Trimmed(Ascii, name) && forall c | c in ",<*" :: c !in name
  }

  /** In particular for plain names of features and trials. */
  lemma PlainNamesAreRestored(registry: Registry, o: Overrides)
    requires Sorted(o) && TrialsKnown(registry, o)
    requires forall e | e in o :: PlainName(e.key) && (e.value.trial.Some? ==> PlainName(e.value.trial.value.name))
    ensures ReadBack(registry, o) == Restored(o)
  {
    hide ReadBack, Restored, TrialsKnown, Sorted;
    forall e | e in o
      ensures Readable(e.key, e.value)
    {
      PlainIsReadable(e.key, e.value);
    }
    RestoredIffReadable(registry, o);
  }

  lemma PlainIsReadable(name: string, o: Override)
    requires PlainName(name) && (o.trial.Some? ==> PlainName(o.trial.value.name))
    ensures Readable(name, o)
  {
    var item := PrintEntry(name, o);
    assert ',' in ",<*" && '<' in ",<*" && '*' in ",<*";
    assert item[0] == if o.state == UseDefault then '*' else name[0];
    assert item[|item| - 1] == if o.trial.Some? then o.trial.value.name[|o.trial.value.name| - 1] else name[|name| - 1];
  }

  /** A name with '<' in it is cut there, and not restored. */
  lemma LostName()
    ensures
      var o := [Entry("a<b", Override(EnableFeature, None, false))];
      Sorted(o) && ReadBack(map[], o) != Restored(o)
  {
    hide ReadBack, Restored;
    var e := Entry("a<b", Override(EnableFeature, None, false));
    var o := [e];
    assert e in o && e.key[1] == '<';
    RestoredIffReadable(map[], o);
  }
}
