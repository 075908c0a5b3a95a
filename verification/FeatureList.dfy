/** base/feature_list.cc: feature overrides from the command line and from field trials. */
module FeatureList {
  import opened OrderedMap
  import opened Optional
  import opened Text

  datatype OverrideState = UseDefault | DisableFeature | EnableFeature

  /** A field trial object and its name. */
  datatype Trial = Trial(id: nat, name: string)

  /** FieldTrialList::Find. */
  type Registry = map<string, Trial>

  function FindTrial(registry: Registry, name: string): Option<Trial>
  {
    if name in registry then Some(registry[name]) else None
  }

  datatype Override = Override(state: OverrideState, trial: Option<Trial>, byTrial: bool)

  /** One call of RegisterOverride, after its handling of '*'. */
  datatype Registration = Registration(name: string, state: OverrideState, trial: Option<Trial>)

  // ----- Reading a list -----

  function TrimBlanks(s: string): string { Trim(Ascii, s) }

  function Pieces(s: string): seq<string>
    decreases |s|
  {
    var e := IndexOf(s, ',');
    if e == |s| then [s] else [s[..e]] + Pieces(s[e + 1..])
  }

  /** The pieces, trimmed, without the empty ones. */
  function Kept(pieces: seq<string>): (r: seq<string>)
    ensures |r| <= |pieces|
  {
    if pieces == [] then []
    else
      var front := Kept(pieces[..|pieces| - 1]);
      var piece := TrimBlanks(pieces[|pieces| - 1]);
      if piece == "" then front else front + [piece]
  }

  lemma KeptLast(pieces: seq<string>, piece: string)
    ensures Kept(pieces + [piece]) == if TrimBlanks(piece) == "" then Kept(pieces) else Kept(pieces) + [TrimBlanks(piece)]
  {
    hide TrimBlanks;
    assert (pieces + [piece])[..|pieces|] == pieces;
  }

  lemma FirstPiece(t: string)
    ensures
      var e := IndexOf(t, ',');
      Pieces(t) == [t[..e]] + if e < |t| then Pieces(t[e + 1..]) else []
  {
    hide IndexOf;
    var e := IndexOf(t, ',');
    if e == |t| {
      assert t[..e] == t;
    }
  }

  /** The piece that starts at `start`, and the others. */
  lemma PiecesFrom(s: string, start: nat)
    requires start <= |s|
    ensures
      var end := start + IndexOf(s[start..], ',');
      Pieces(s[start..]) == [s[start..end]] + if end < |s| then Pieces(s[end + 1..]) else []
  {
    hide IndexOf, Pieces;
    var t := s[start..];
    var e := IndexOf(t, ',');
    FirstPiece(t);
    assert t[..e] == s[start..start + e];
    if e < |t| {
      assert t[e + 1..] == s[start + e + 1..];
    }
  }

  /** The same after those that are `done`. */
  lemma NextPiece(s: string, start: nat, done: seq<string>)
    requires start <= |s|
    ensures
      var end := start + IndexOf(s[start..], ',');
      done + Pieces(s[start..]) == if end < |s| then (done + [s[start..end]]) + Pieces(s[end + 1..]) else done + [s[start..end]]
  {
    hide IndexOf, Pieces;
    PiecesFrom(s, start);
  }

  /** SplitFeatureListString. */
  function Features(s: string): seq<string> { Kept(Pieces(s)) }

  /** The name and the state that RegisterOverride stores. */
  function Starred(name: string, state: OverrideState, trial: Option<Trial>): Registration
  {
    if name != "" && name[0] == '*' then Registration(name[1..], UseDefault, trial)
    else Registration(name, state, trial)
  }

  /** One entry of a list: a name, or a name and a trial after '<'. */
  function ReadEntry(registry: Registry, entry: string, state: OverrideState): Registration
  {
    var pos := IndexOf(entry, '<');
    if pos == |entry| then Starred(entry, state, None)
    else Starred(entry[..pos], state, FindTrial(registry, entry[pos + 1..]))
  }

  function ReadEntries(registry: Registry, entries: seq<string>, state: OverrideState): (r: seq<Registration>)
    ensures |r| == |entries| && forall i | 0 <= i < |entries| :: r[i] == ReadEntry(registry, entries[i], state)
  {
    seq(|entries|, i requires 0 <= i < |entries| => ReadEntry(registry, entries[i], state))
  }

  // ----- The overrides -----

  type Overrides = seq<Entry<Override>>

  function Registered(o: Overrides, r: Registration): Overrides
  {
    Inserted(o, r.name, Override(r.state, r.trial, r.trial.Some?))
  }

  function RegisteredAll(o: Overrides, rs: seq<Registration>): Overrides
  {
    if rs == [] then o else Registered(RegisteredAll(o, rs[..|rs| - 1]), rs[|rs| - 1])
  }

  /** What the two command-line lists register, the disabled features first. */
  function CommandLineRegistrations(registry: Registry, enable: string, disable: string): seq<Registration>
  {
    ReadEntries(registry, Features(disable), DisableFeature) + ReadEntries(registry, Features(enable), EnableFeature)
  }

  // ----- Printing -----

  function PrintEntry(name: string, o: Override): string
  {
    (if o.state == UseDefault then "*" else "") + name + (if o.trial.Some? then "<" + o.trial.value.name else "")
  }

  /** Whether an override goes to the list of enabled features. */
  predicate GoesToEnable(o: Override) { o.state != DisableFeature }

  /** GetCommandLineFeatureOverrides leaves out trials and defaults. */
  predicate IsPrinted(o: Override, commandLineOnly: bool)
  {
    !(commandLineOnly && (o.trial.Some? || o.state == UseDefault))
  }

  function AppendItem(list: string, item: string): string
  {
    (if list == "" then "" else list + ",") + item
  }

  function PrintList(o: Overrides, enable: bool, commandLineOnly: bool): string
  {
    if o == [] then ""
    else
      var front, last := PrintList(o[..|o| - 1], enable, commandLineOnly), o[|o| - 1];
      if IsPrinted(last.value, commandLineOnly) && GoesToEnable(last.value) == enable
      then AppendItem(front, PrintEntry(last.key, last.value)) else front
  }

  // ----- Trials and queries -----

  /** AssociateReportingFieldTrial: a trial for reporting, if there is none yet. */
  function Associated(o: Overrides, name: string, trial: Trial): (r: Overrides)
    ensures |r| == |o|
    ensures forall i | 0 <= i < |o| ::
      r[i] == if o[i].key == name && o[i].value.trial.None? then Entry(name, o[i].value.(trial := Some(trial))) else o[i]
  {
    seq(|o|, i requires 0 <= i < |o| =>
      if o[i].key == name && o[i].value.trial.None? then Entry(name, o[i].value.(trial := Some(trial))) else o[i])
  }

  /** IsFeatureOverriddenFromCommandLine. */
  ghost predicate OverriddenFromCommandLine(o: Overrides, name: string, state: OverrideState)
  {
    name in AsMap(o) && AsMap(o)[name].state == state && !AsMap(o)[name].byTrial
  }

  /** The state stored for a name, if any. */
  ghost function StateOf(o: Overrides, name: string): Option<OverrideState>
  {
    if name in AsMap(o) then Some(AsMap(o)[name].state) else None
  }

  /** The trial stored for a name, if any. */
  ghost function TrialsOf(o: Overrides, name: string): set<Trial>
  {
    if name in AsMap(o) && AsMap(o)[name].trial.Some? then {AsMap(o)[name].trial.value} else {}
  }

  /** What a state makes of a feature with the given default. */
  predicate Decides(state: Option<OverrideState>, byDefault: bool)
  {
    if state == Some(EnableFeature) then true
    else if state == Some(DisableFeature) then false
    else byDefault
  }

  class FeatureList {
    var overrides: Overrides
    var initialized: bool
    /** The trials whose group has been activated by a query. */
    var activated: set<Trial>

    ghost predicate Valid()
      reads this
    {
      Sorted(overrides)
    }

    constructor ()
      ensures Valid() && overrides == [] && !initialized && activated == {}
    {
      overrides := [];
      initialized := false;
      activated := {};
    }

    /** RegisterOverride: an override already there stays. */
    method RegisterOverride(name: string, state: OverrideState, trial: Option<Trial>)
      requires Valid() && !initialized
      modifies this`overrides
      ensures Valid() && overrides == Registered(old(overrides), Starred(name, state, trial))
    {
      hide Inserted;
      var featureName, overriddenState := name, state;
      if featureName != "" && featureName[0] == '*' {
        featureName := featureName[1..];
        overriddenState := UseDefault;
      }
      InsertedIsInsert(overrides, featureName, Override(overriddenState, trial, trial.Some?));
      overrides := Inserted(overrides, featureName, Override(overriddenState, trial, trial.Some?));
    }

    /** SplitStringT, with a comma, trimming and dropping empty pieces. */
    method SplitFeatureListString(s: string) returns (result: seq<string>)
      ensures result == Features(s)
    {
      hide IndexOf, TrimBlanks, Pieces, Kept;
      result := [];
      var start := 0;
      ghost var done: seq<string> := [];
      NoPiece();
      if s == "" {
        return;
      }
      assert s[0..] == s && done + Pieces(s) == Pieces(s);
      while start <= |s|
        invariant start <= |s| + 1
        invariant Pieces(s) == if start <= |s| then done + Pieces(s[start..]) else done
        invariant result == Kept(done)
        decreases |s| + 1 - start
      {
        var end := start + IndexOf(s[start..], ',');
        var piece := s[start..end];
        NextPiece(s, start, done);
        KeptLast(done, piece);
        done := done + [piece];
        start := end + 1;
        piece := TrimBlanks(piece);
        if piece != "" {
          result := result + [piece];
        }
      }
    }

    lemma NoPiece()
      ensures Kept([]) == [] && Pieces("") == [""] && Kept([""]) == []
    {
      assert [""][..0] == [];
      TrimFacts(Ascii, "");
    }

    /** RegisterOverridesFromCommandLine. */
    method RegisterOverridesFromCommandLine(registry: Registry, list: string, state: OverrideState)
      requires Valid() && !initialized
      modifies this`overrides
      ensures Valid() && overrides == RegisteredAll(old(overrides), ReadEntries(registry, Features(list), state))
    {
      hide Registered, Starred, Features;
      var values := SplitFeatureListString(list);
      ghost var rs := ReadEntries(registry, values, state);
      for i := 0 to |values|
        invariant Valid() && overrides == RegisteredAll(old(overrides), rs[..i])
      {
        var value := values[i];
        var featureName, trial := value, None;
        var pos := IndexOf(value, '<');
        if pos < |value| {
          featureName := value[..pos];
          trial := FindTrial(registry, value[pos + 1..]);
        }
        RegisterOverride(featureName, state, trial);
        assert rs[..i + 1][..i] == rs[..i];
      }
      assert rs[..|values|] == rs;
    }

    /** InitializeFromCommandLine. */
    method InitializeFromCommandLine(registry: Registry, enable: string, disable: string)
      requires Valid() && !initialized
      modifies this`overrides
      ensures Valid()
      ensures overrides == RegisteredAll(old(overrides), CommandLineRegistrations(registry, enable, disable))
    {
      hide RegisteredAll, Features;
      RegisterOverridesFromCommandLine(registry, disable, DisableFeature);
      RegisterOverridesFromCommandLine(registry, enable, EnableFeature);
      RegisteredInParts(old(overrides), ReadEntries(registry, Features(disable), DisableFeature),
                        ReadEntries(registry, Features(enable), EnableFeature));
    }

    /** RegisterFieldTrialOverride. */
    method RegisterFieldTrialOverride(name: string, state: OverrideState, trial: Trial)
      requires Valid() && !initialized
      modifies this`overrides
      ensures Valid() && overrides == Registered(old(overrides), Starred(name, state, Some(trial)))
    {
      RegisterOverride(name, state, Some(trial));
    }

    method IsFeatureOverriddenFromCommandLine(name: string, state: OverrideState) returns (overridden: bool)
      requires Valid()
      ensures overridden == OverriddenFromCommandLine(overrides, name, state)
    {
      hide AsMap, Sorted;
      var i := Find(overrides, name);
      overridden := i < |overrides| && overrides[i].value.state == state && !overrides[i].value.byTrial;
    }

    method AssociateReportingFieldTrial(name: string, ghost state: OverrideState, trial: Trial)
      requires Valid() && OverriddenFromCommandLine(overrides, name, state)
      modifies this`overrides
      ensures Valid() && overrides == Associated(old(overrides), name, trial)
    {
      hide AsMap, Less;
      var i := Find(overrides, name);
      forall j | 0 <= j < |overrides| && j != i
        ensures overrides[j].key != name
      {
        SortedKeysDiffer(overrides, i, j);
      }
      if overrides[i].value.trial.Some? {
        assert overrides == Associated(overrides, name, trial);
        return;
      }
      overrides := overrides[i := Entry(name, overrides[i].value.(trial := Some(trial)))];
      assert overrides == Associated(old(overrides), name, trial);
    }

    method FinalizeInitialization()
      requires !initialized
      modifies this`initialized
      ensures initialized
    {
      initialized := true;
    }

    /** IsFeatureEnabled: the state decides, and a trial of the feature is activated whatever the
        state. */
    method IsFeatureEnabled(name: string, byDefault: bool) returns (enabled: bool)
      requires Valid() && initialized
      modifies this`activated
      ensures enabled == Decides(StateOf(overrides, name), byDefault)
      ensures activated == old(activated) + TrialsOf(overrides, name)
    {
      hide AsMap, Sorted;
      var i := Find(overrides, name);
      if i < |overrides| {
        var entry := overrides[i].value;
        if entry.trial.Some? {
          activated := activated + {entry.trial.value};
        }
        if entry.state != UseDefault {
          return entry.state == EnableFeature;
        }
      }
      return byDefault;
    }

    /** GetFeatureOverridesImpl. */
    method GetFeatureOverrides(commandLineOnly: bool) returns (enable: string, disable: string)
      requires initialized
      ensures enable == PrintList(overrides, true, commandLineOnly)
      ensures disable == PrintList(overrides, false, commandLineOnly)
    {
      hide PrintEntry;
      enable, disable := "", "";
      for i := 0 to |overrides|
        invariant enable == PrintList(overrides[..i], true, commandLineOnly)
        invariant disable == PrintList(overrides[..i], false, commandLineOnly)
      {
        var entry := overrides[i];
        assert overrides[..i + 1][..i] == overrides[..i];
        if IsPrinted(entry.value, commandLineOnly) {
          if entry.value.state == DisableFeature {
            disable := AppendItem(disable, PrintEntry(entry.key, entry.value));
          } else {
            enable := AppendItem(enable, PrintEntry(entry.key, entry.value));
          }
        }
      }
      assert overrides[..|overrides|] == overrides;
    }
  }

  lemma {:induction false} RegisteredInParts(o: Overrides, rs: seq<Registration>, ss: seq<Registration>)
    ensures RegisteredAll(o, rs + ss) == RegisteredAll(RegisteredAll(o, rs), ss)
    decreases |ss|
  {
    hide Registered;
    if ss == [] {
      assert rs + ss == rs;
    } else {
      RegisteredInParts(o, rs, ss[..|ss| - 1]);
      assert (rs + ss)[..|rs + ss| - 1] == rs + ss[..|ss| - 1];
    }
  }
}
