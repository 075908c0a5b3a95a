/** Which features two command-line lists and the field trials switch on and off, told by the
    characters of the lists. */
module FeatureListReading {
  import opened OrderedMap
  import opened FeatureList
  import opened FeatureListLaws
  import opened Optional
  import opened Text

  // ----- How a list is split -----

  lemma {:induction false} PiecesConcat(s: string, t: string)
    ensures Pieces(s + "," + t) == Pieces(s) + Pieces(t)
    decreases |s|
  {
    hide IndexOf, Pieces;
    var e, all := IndexOf(s, ','), s + "," + t;
    assert all[..e] == s[..e];
    IndexOfIs(all, ',', e);
    FirstPiece(s);
    FirstPiece(all);
    if e == |s| {
      assert all[e + 1..] == t;
    } else {
      assert all[e + 1..] == s[e + 1..] + "," + t;
      PiecesConcat(s[e + 1..], t);
    }
  }

  lemma {:induction false} KeptConcat(a: seq<string>, b: seq<string>)
    ensures Kept(a + b) == Kept(a) + Kept(b)
    decreases |b|
  {
    hide Kept, TrimBlanks;
    EmptyKept();
    if b == [] {
      assert a + b == a;
    } else {
      var front, last := b[..|b| - 1], b[|b| - 1];
      KeptConcat(a, front);
      assert a + b == a + front + [last] && b == front + [last];
      KeptLast(a + front, last);
      KeptLast(front, last);
      OneMoreKept(Kept(a), Kept(front), TrimBlanks(last));
    }
  }

  lemma OneMoreKept(a: seq<string>, b: seq<string>, x: string)
    ensures a + b + [x] == a + (b + [x])
  {
  }

  /** A comma separates. */
  lemma FeaturesConcat(s: string, t: string)
    ensures Features(s + "," + t) == Features(s) + Features(t)
  {
    hide Pieces, Kept;
    PiecesConcat(s, t);
    KeptConcat(Pieces(s), Pieces(t));
  }

  /** Between commas, blanks at the ends do not matter, and nothing else is no feature. */
  lemma OneFeature(before: string, x: string, after: string)
    requires ',' !in before + x + after && Trimmed(Ascii, x)
    requires forall c | c in before + after :: IsBlank(Ascii, c)
    ensures Features(before + x + after) == if x == "" then [] else [x]
  {
    hide Pieces, Kept, Trim, IsBlank;
    var s := before + x + after;
    NoComma(s);
    TrimAround(Ascii, before, x, after);
    KeptLast([], s);
    EmptyKept();
    assert [] + [s] == [s];
  }

  // ----- What an entry says -----

  /** The entry is the name, with a trial after '<' or without. */
  predicate Names(entry: string, name: string)
  {
    entry == name || name + "<" <= entry
  }

  /** IsValidFeatureOrFieldTrialName, but for the character set. */
  predicate ValidName(name: string)
  {
    ',' !in name && '<' !in name && '*' !in name
  }

  lemma CutAtTrial(entry: string, name: string)
    requires '<' !in name
    ensures Names(entry, name) <==> entry[..IndexOf(entry, '<')] == name
  {
    hide IndexOf;
    var pos := IndexOf(entry, '<');
    if Names(entry, name) {
      assert entry[..|name|] == name;
      assert |name| < |entry| ==> entry[|name|] == '<' by {
        assert name + "<" <= entry ==> (name + "<")[|name|] == entry[|name|];
      }
      IndexOfIs(entry, '<', |name|);
    }
    if entry[..pos] == name {
      assert pos < |entry| ==> name + "<" == entry[..pos + 1];
      assert pos == |entry| ==> entry == name;
    }
  }

  /** An entry is about the feature if it is its name, perhaps after a star and perhaps with a
      trial; a star stands for the default. */
  lemma EntrySays(registry: Registry, entry: string, state: OverrideState, name: string)
    requires ValidName(name)
    ensures
      var r := ReadEntry(registry, entry, state);
      && (r.name == name <==> Names(entry, name) || Names(entry, "*" + name))
      && (Names(entry, name) ==> r.state == state)
      && (Names(entry, "*" + name) ==> r.state == UseDefault)
  {
    hide IndexOf, FindTrial, Names;
    CutAtTrial(entry, name);
    CutAtTrial(entry, "*" + name);
    var cut := entry[..IndexOf(entry, '<')];
    assert IndexOf(entry, '<') == |entry| ==> cut == entry;
    StarredSays(cut, state, ReadEntry(registry, entry, state).trial, name);
  }

  lemma StarredSays(written: string, state: OverrideState, trial: Option<Trial>, name: string)
    requires ValidName(name)
    ensures
      var r := Starred(written, state, trial);
      && (r.name == name <==> written == name || written == "*" + name)
      && (written == name ==> r.state == state)
      && (written == "*" + name ==> r.state == UseDefault)
  {
    assert written != "" && written[0] == '*' ==> written == "*" + written[1..];
    assert ("*" + name)[1..] == name;
  }

  /** What the first entry about a feature says of it. */
  function Mention(entries: seq<string>, name: string, state: OverrideState): Option<OverrideState>
  {
    if entries == [] then None
    else if Names(entries[0], name) then Some(state)
    else if Names(entries[0], "*" + name) then Some(UseDefault)
    else Mention(entries[1..], name, state)
  }

  lemma {:induction false} ListSays(registry: Registry, entries: seq<string>, state: OverrideState, name: string)
    requires ValidName(name)
    ensures FirstState(ReadEntries(registry, entries, state), name) == Mention(entries, name, state)
    decreases |entries|
  {
    hide Names, ReadEntry, ValidName;
    if entries != [] {
      EntrySays(registry, entries[0], state, name);
      ListSays(registry, entries[1..], state, name);
      var rs := ReadEntries(registry, entries, state);
      assert rs[1..] == ReadEntries(registry, entries[1..], state);
    }
  }

  /** What the first field trial registered for a feature says of it. */
  function TrialState(steps: seq<Step>, name: string): Option<OverrideState>
  {
    if steps == [] then None
    else if steps[0].RegisterTrial? && steps[0].name == name then Some(steps[0].state)
    else if steps[0].RegisterTrial? && steps[0].name == "*" + name then Some(UseDefault)
    else TrialState(steps[1..], name)
  }

  lemma {:induction false} TrialsSay(steps: seq<Step>, name: string)
    requires ValidName(name)
    ensures FirstState(StepRegistrations(steps), name) == TrialState(steps, name)
    decreases |steps|
  {
    hide Starred, ValidName, FirstState, StepRegistrations;
    if steps == [] {
      NoStep(name);
    } else {
      var first, rest := steps[0], steps[1..];
      TrialsSay(rest, name);
      OneStep(first);
      StepsInParts([first], rest);
      assert steps == [first] + rest;
      StatesOfBoth(StepRegistrations([first]), StepRegistrations(rest), name);
      if first.RegisterTrial? {
        StarredSays(first.name, first.state, Some(first.trial), name);
        StateOfOne(Starred(first.name, first.state, Some(first.trial)), name);
      } else {
        NoStep(name);
      }
    }
  }

  lemma NoStep(name: string)
    ensures StepRegistrations([]) == [] && FirstState([], name) == None
  {
  }

  lemma OneStep(step: Step)
    ensures StepRegistrations([step])
         == if step.RegisterTrial? then [Starred(step.name, step.state, Some(step.trial))] else []
  {
    hide Starred;
    assert [step][..0] == [];
  }

  lemma StateOfOne(r: Registration, name: string)
    ensures FirstState([r], name) == if r.name == name then Some(r.state) else None
  {
  }

  lemma StatesOfBoth(rs: seq<Registration>, ss: seq<Registration>, name: string)
    ensures FirstState(rs + ss, name)
         == if FirstState(rs, name).Some? then FirstState(rs, name) else FirstState(ss, name)
  {
    hide FirstNamed;
    var i := FirstNamed(rs, name);
    if i < |rs| {
      FirstNamedIs(rs + ss, name, i);
    } else {
      FirstNamedIs(rs + ss, name, |rs| + FirstNamed(ss, name));
    }
  }

  // ----- What a query answers -----

  /** The disable list comes first, then the enable list, then the trials. */
  lemma StateByCharacters(registry: Registry, enable: string, disable: string, steps: seq<Step>, name: string)
    requires ValidName(name)
    ensures
      var off := Mention(Features(disable), name, DisableFeature);
      var on := Mention(Features(enable), name, EnableFeature);
      FirstState(CommandLineRegistrations(registry, enable, disable) + StepRegistrations(steps), name)
      == if off.Some? then off else if on.Some? then on else TrialState(steps, name)
  {
    hide FirstState, Mention, Features, ReadEntries, StepRegistrations, TrialState, ValidName;
    var rs := ReadEntries(registry, Features(disable), DisableFeature);
    var ss := ReadEntries(registry, Features(enable), EnableFeature);
    ListSays(registry, Features(disable), DisableFeature, name);
    ListSays(registry, Features(enable), EnableFeature, name);
    TrialsSay(steps, name);
    StatesOfBoth(rs, ss, name);
    StatesOfBoth(rs + ss, StepRegistrations(steps), name);
  }

  lemma {:induction false} MentionIs(entries: seq<string>, name: string, state: OverrideState)
    ensures Mention(entries, name, state).None?
      <==> forall e | e in entries :: !Names(e, name) && !Names(e, "*" + name)
    ensures (forall e | e in entries :: !Names(e, "*" + name)) && name in entries ==>
      Mention(entries, name, state) == Some(state)
    decreases |entries|
  {
    hide Names;
    if entries != [] {
      MentionIs(entries[1..], name, state);
      assert entries == [entries[0]] + entries[1..];
      assert Names(name, name) by { NamesItself(name); }
    }
  }

  lemma NamesItself(name: string)
    ensures Names(name, name)
  {
  }

  /** What ConfigureAndQuery answers. */
  ghost predicate Answer(registry: Registry, enable: string, disable: string, steps: seq<Step>,
                         name: string, byDefault: bool)
  {
    Decides(FirstState(CommandLineRegistrations(registry, enable, disable) + StepRegistrations(steps), name), byDefault)
  }

  /** A feature in the disable list is off, whatever the enable list, the trials and the default
      say; only a starred entry for it in the disable list can change that. */
  lemma DisabledIsOff(registry: Registry, enable: string, disable: string, steps: seq<Step>,
                      name: string, byDefault: bool)
    requires ValidName(name) && name in Features(disable)
    requires forall e | e in Features(disable) :: !Names(e, "*" + name)
    ensures !Answer(registry, enable, disable, steps, name, byDefault)
  {
    hide FirstState, Mention, Features, CommandLineRegistrations, StepRegistrations, TrialState, ValidName, Names;
    StateByCharacters(registry, enable, disable, steps, name);
    MentionIs(Features(disable), name, DisableFeature);
  }

  /** A feature in the enable list is on, whatever the trials and the default say, unless the
      disable list has an entry for it or the enable list a starred one. */
  lemma EnabledIsOn(registry: Registry, enable: string, disable: string, steps: seq<Step>,
                    name: string, byDefault: bool)
    requires ValidName(name) && name in Features(enable)
    requires forall e | e in Features(enable) :: !Names(e, "*" + name)
    requires forall e | e in Features(disable) :: !Names(e, name) && !Names(e, "*" + name)
    ensures Answer(registry, enable, disable, steps, name, byDefault)
  {
    hide FirstState, Mention, Features, CommandLineRegistrations, StepRegistrations, TrialState, ValidName, Names;
    StateByCharacters(registry, enable, disable, steps, name);
    MentionIs(Features(disable), name, DisableFeature);
    MentionIs(Features(enable), name, EnableFeature);
  }

  /** A feature that neither list is about is as its first field trial says; with none, or with a
      trial that leaves it alone, it is as by default. */
  lemma OthersFollowTrials(registry: Registry, enable: string, disable: string, steps: seq<Step>,
                           name: string, byDefault: bool)
    requires ValidName(name)
    requires forall e | e in Features(enable) + Features(disable) :: !Names(e, name) && !Names(e, "*" + name)
    ensures
      Answer(registry, enable, disable, steps, name, byDefault)
      <==> match TrialState(steps, name)
           case Some(EnableFeature) => true
           case Some(DisableFeature) => false
           case _ => byDefault
  {
    hide FirstState, Mention, Features, CommandLineRegistrations, StepRegistrations, TrialState, ValidName, Names;
    StateByCharacters(registry, enable, disable, steps, name);
    assert forall e | e in Features(enable) :: e in Features(enable) + Features(disable);
    assert forall e | e in Features(disable) :: e in Features(enable) + Features(disable);
    MentionIs(Features(disable), name, DisableFeature);
    MentionIs(Features(enable), name, EnableFeature);
  }
  // ----- What is printed and reported -----

  /** The names that the command line alone has put into a state, in key order. */
  function NamesWith(o: Overrides, state: OverrideState): seq<string>
  {
    if o == [] then []
    else
      NamesWith(o[..|o| - 1], state)
      + if o[|o| - 1].value.state == state && o[|o| - 1].value.trial.None? then [o[|o| - 1].key] else []
  }

  /** GetCommandLineFeatureOverrides gives the bare names of the features switched on and of those
      switched off, leaving out those with a trial and those left at their default. */
  lemma {:induction false} CommandLineNames(o: Overrides)
    ensures PrintList(o, true, true) == JoinItems(NamesWith(o, EnableFeature))
    ensures PrintList(o, false, true) == JoinItems(NamesWith(o, DisableFeature))
    decreases |o|
  {
    if o != [] {
      var front, last := o[..|o| - 1], o[|o| - 1];
      CommandLineNames(front);
      if last.value.trial.None? && last.value.state != UseDefault {
        assert PrintEntry(last.key, last.value) == last.key;
        JoinLast(NamesWith(front, last.value.state), last.key);
      }
      assert NamesWith(front, EnableFeature) + [] == NamesWith(front, EnableFeature);
      assert NamesWith(front, DisableFeature) + [] == NamesWith(front, DisableFeature);
    }
  }

  lemma JoinLast(items: seq<string>, item: string)
    ensures JoinItems(items + [item]) == if JoinItems(items) == "" then item else JoinItems(items) + "," + item
  {
    assert (items + [item])[..|items|] == items;
    assert "" + item == item;
  }

  /** Associating a trial gives it to the one feature, if it has none. */
  lemma AssociatedTrials(o: Overrides, associated: string, trial: Trial, name: string)
    requires Sorted(o)
    ensures
      TrialsOf(Associated(o, associated, trial), name)
      == if name == associated && name in AsMap(o) && TrialsOf(o, name) == {} then {trial} else TrialsOf(o, name)
  {
    hide AsMap, Less;
    var r := Associated(o, associated, trial);
    AssociatedKeepsStates(o, associated, trial, name);
    if name in AsMap(o) {
      var i := EntryFor(o, name);
      EntryOf(r, i);
    }
  }
}
