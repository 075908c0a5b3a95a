/** What parsing does to a list of tokens, and when doing it twice changes nothing. */
module CommandLineLaws {
  import opened Text
  import opened CommandLine

  // ----- A stable partition -----

  /** The tokens taken as switches, in order. */
  function SwitchTokens(p: Platform, tokens: seq<string>, parse: bool): (r: seq<string>)
    ensures |r| <= |tokens|
  {
    if tokens == [] then []
    else
      var parse' := parse && tokens[0] != TERMINATOR;
      (if parse' && IsSwitch(p, tokens[0]) then [tokens[0]] else []) + SwitchTokens(p, tokens[1..], parse')
  }

  /** The others, in order; the terminator is one of them. */
  function ArgTokens(p: Platform, tokens: seq<string>, parse: bool): seq<string>
  {
    if tokens == [] then []
    else
      var parse' := parse && tokens[0] != TERMINATOR;
      (if parse' && IsSwitch(p, tokens[0]) then [] else [tokens[0]]) + ArgTokens(p, tokens[1..], parse')
  }

  /** The entry a switch token is stored as. */
  function Stored(p: Platform, token: string): string
  {
    Combined(p, NameOf(token), ValueOf(token))
  }

  function StoredAll(p: Platform, tokens: seq<string>): (r: seq<string>)
    ensures |r| == |tokens| && forall i | 0 <= i < |tokens| :: r[i] == Stored(p, tokens[i])
  {
    seq(|tokens|, i requires 0 <= i < |tokens| => Stored(p, tokens[i]))
  }

  /** The index after some more switch entries; a later one replaces an earlier one. */
  function Indexed(p: Platform, index: map<string, string>, entries: seq<string>): map<string, string>
  {
    if entries == [] then index
    else Indexed(p, index, entries[..|entries| - 1])
         [KeyOf(p, NameOf(entries[|entries| - 1])) := ValueOf(entries[|entries| - 1])]
  }

  lemma {:induction false} IndexedFirst(p: Platform, index: map<string, string>, entry: string, entries: seq<string>)
    ensures Indexed(p, index[KeyOf(p, NameOf(entry)) := ValueOf(entry)], entries) == Indexed(p, index, [entry] + entries)
    decreases |entries|
  {
    hide KeyOf, NameOf, ValueOf;
    if entries == [] {
      assert ([entry] + entries)[..0] == [];
    } else {
      var front := entries[..|entries| - 1];
      assert ([entry] + entries)[..|entries|] == [entry] + front;
      IndexedFirst(p, index, entry, front);
    }
  }

  /** A switch goes just before `beginArgs`, in its stored form, and anything else to the end. */
  ghost predicate Partitioned(p: Platform, line: Line, switches: seq<string>, args: seq<string>, r: Line)
    requires WellFormed(line)
  {
    r == Line(line.argv[..line.beginArgs] + StoredAll(p, switches) + line.argv[line.beginArgs..] + args,
              Indexed(p, line.switches, switches),
              line.beginArgs + |switches|)
  }

  lemma SwitchFirst(p: Platform, line: Line, token: string, switches: seq<string>, args: seq<string>, r: Line)
    requires WellFormed(line)
    requires Partitioned(p, WithSwitch(p, line, NameOf(token), ValueOf(token)), switches, args, r)
    ensures Partitioned(p, line, [token] + switches, args, r)
  {
    hide NameOf, ValueOf, Combined, KeyOf, Indexed;
    var b := line.beginArgs;
    var next := WithSwitch(p, line, NameOf(token), ValueOf(token));
    IndexedFirst(p, line.switches, token, switches);
    assert next.argv[..b + 1] == line.argv[..b] + [Stored(p, token)];
    assert next.argv[b + 1..] == line.argv[b..];
    assert StoredAll(p, [token] + switches) == [Stored(p, token)] + StoredAll(p, switches);
    assert line.argv[..b] + [Stored(p, token)] + StoredAll(p, switches) == line.argv[..b] + StoredAll(p, [token] + switches);
  }

  lemma ArgFirst(p: Platform, line: Line, token: string, switches: seq<string>, args: seq<string>, r: Line)
    requires WellFormed(line)
    requires Partitioned(p, WithArg(line, token), switches, args, r)
    ensures Partitioned(p, line, switches, [token] + args, r)
  {
    hide Indexed, StoredAll;
    var b := line.beginArgs;
    var next := WithArg(line, token);
    var front := line.argv[..b] + StoredAll(p, switches);
    assert next.argv[..b] == line.argv[..b];
    assert next.argv[b..] == line.argv[b..] + [token];
    assert front + (line.argv[b..] + [token]) + args == front + line.argv[b..] + ([token] + args);
  }

  /** Every token goes to one side, and neither side is reordered. */
  lemma {:induction false} TokensPartitioned(p: Platform, line: Line, tokens: seq<string>, parse: bool)
    requires WellFormed(line)
    ensures Partitioned(p, line, SwitchTokens(p, tokens, parse), ArgTokens(p, tokens, parse),
                        WithTokens(p, line, tokens, parse))
    decreases |tokens|
  {
    hide IsSwitch, NameOf, ValueOf, Combined, KeyOf, Partitioned;
    if tokens == [] {
      NothingPartitioned(p, line);
      return;
    }
    var token := tokens[0];
    var parse' := parse && token != TERMINATOR;
    var switches, args := SwitchTokens(p, tokens[1..], parse'), ArgTokens(p, tokens[1..], parse');
    var r := WithTokens(p, line, tokens, parse);
    assert [] + switches == switches && [] + args == args;
    if parse' && IsSwitch(p, token) {
      TokensPartitioned(p, WithSwitch(p, line, NameOf(token), ValueOf(token)), tokens[1..], parse');
      SwitchFirst(p, line, token, switches, args, r);
    } else {
      TokensPartitioned(p, WithArg(line, token), tokens[1..], parse');
      ArgFirst(p, line, token, switches, args, r);
    }
  }

  lemma NothingPartitioned(p: Platform, line: Line)
    requires WellFormed(line)
    ensures Partitioned(p, line, [], [], line)
  {
    var b := line.beginArgs;
    assert line.argv == line.argv[..b] + StoredAll(p, []) + line.argv[b..] + [];
  }

  lemma MultisetFirst(x: string, s: seq<string>)
    ensures multiset([x] + s) == multiset{x} + multiset(s)
  {
  }

  lemma JoinMultisets<T>(x: T, a: multiset<T>, b: multiset<T>, c: multiset<T>)
    requires a + b == c
    ensures multiset{x} + a + b == multiset{x} + c
    ensures a + (multiset{x} + b) == multiset{x} + c
  {
  }

  lemma FirstToken(p: Platform, tokens: seq<string>, parse: bool)
    requires tokens != []
    ensures
      var parse' := parse && tokens[0] != TERMINATOR;
      var switches, args := SwitchTokens(p, tokens[1..], parse'), ArgTokens(p, tokens[1..], parse');
      if parse' && IsSwitch(p, tokens[0]) then
        SwitchTokens(p, tokens, parse) == [tokens[0]] + switches && ArgTokens(p, tokens, parse) == args
      else
        SwitchTokens(p, tokens, parse) == switches && ArgTokens(p, tokens, parse) == [tokens[0]] + args
  {
    hide IsSwitch;
  }

  lemma {:induction false} NoTokenLost(p: Platform, tokens: seq<string>, parse: bool)
    ensures multiset(SwitchTokens(p, tokens, parse)) + multiset(ArgTokens(p, tokens, parse)) == multiset(tokens)
    decreases |tokens|
  {
    if tokens != [] {
      hide SwitchTokens, ArgTokens, IsSwitch;
      var parse' := parse && tokens[0] != TERMINATOR;
      NoTokenLost(p, tokens[1..], parse');
      FirstToken(p, tokens, parse);
      MultisetFirst(tokens[0], SwitchTokens(p, tokens[1..], parse'));
      MultisetFirst(tokens[0], ArgTokens(p, tokens[1..], parse'));
      MultisetFirst(tokens[0], tokens[1..]);
      JoinMultisets(tokens[0], multiset(SwitchTokens(p, tokens[1..], parse')),
                    multiset(ArgTokens(p, tokens[1..], parse')), multiset(tokens[1..]));
      assert tokens == [tokens[0]] + tokens[1..];
    }
  }

  lemma FromArgvPartition(p: Platform, argv: seq<string>)
    requires argv != []
    ensures
      var tokens := TrimAll(p, argv[1..]);
      var switches := SwitchTokens(p, tokens, true);
      FromArgv(p, argv)
      == Line([Trim(BlanksOf(p), argv[0])] + StoredAll(p, switches) + ArgTokens(p, tokens, true),
              Indexed(p, map[], switches), 1 + |switches|)
  {
    hide Trim, SwitchTokens, ArgTokens, Indexed, StoredAll;
    var line := Line([Trim(BlanksOf(p), argv[0])], map[], 1);
    var tokens := TrimAll(p, argv[1..]);
    TokensPartitioned(p, line, tokens, true);
    assert line.argv[..1] == line.argv && line.argv[1..] == [];
    var stored := StoredAll(p, SwitchTokens(p, tokens, true));
    assert line.argv + stored + [] == line.argv + stored;
  }

  // ----- One token stored and read again -----

  /** A token whose stored form is read differently: it ends in '=' with nothing after it, and
      its name is empty or ends in a blank. */
  predicate Lossy(p: Platform, token: string)
  {
    var e := IndexOf(token, '=');
    e == |token| - 1 && (e == PrefixLength(p, token) || (e > 0 && IsBlank(BlanksOf(p), token[e - 1])))
  }

  /** The stored form of `token` is itself a switch entry that is stored as it stands, with the
      same key and value. */
  ghost predicate Stable(p: Platform, token: string)
  {
    var u := Stored(p, token);
    && Trim(BlanksOf(p), u) == u && u != TERMINATOR && IsSwitch(p, u)
    && Stored(p, u) == u
    && KeyOf(p, NameOf(u)) == KeyOf(p, NameOf(token)) && ValueOf(u) == ValueOf(token)
  }

  /** Folding case keeps every character that is not a letter where it is. */
  lemma FoldKeeps(p: Platform, s: string, c: char)
    requires !('A' <= c <= 'Z') && !('a' <= c <= 'z')
    ensures forall i | 0 <= i < |s| :: Fold(p, s)[i] == c <==> s[i] == c
  {
  }

  /** The prefix of a string is read off its first two characters. */
  lemma PrefixByCharacters(p: Platform, s: string)
    ensures PrefixLength(p, s)
         == if s != "" && s[0] == '-' then (if |s| > 1 && s[1] == '-' then 2 else 1)
            else if p == Windows(true) && s != "" && s[0] == '/' then 1 else 0
  {
  }

  /** The parts of a switch token: its prefix survives the cut at '=' and the change of case. */
  lemma SwitchParts(p: Platform, token: string)
    requires IsSwitch(p, token)
    ensures PrefixLength(p, token) <= IndexOf(token, '=') && IndexOf(token, '=') > 0
    ensures var folded := Fold(p, NameOf(token));
            && |folded| == IndexOf(token, '=') && folded[0] == token[0] && '=' !in folded
            && PrefixLength(p, folded) == PrefixLength(p, token)
  {
    hide Fold, IndexOf, PrefixLength;
    var name := NameOf(token);
    PrefixByCharacters(p, token);
    PrefixByCharacters(p, name);
    FoldKeeps(p, name, '-');
    FoldKeeps(p, name, '/');
    FoldKeeps(p, name, '=');
    PrefixByCharacters(p, Fold(p, name));
  }

  lemma FoldKeepsBlanks(p: Platform, s: string, i: nat)
    requires i < |s|
    ensures IsBlank(BlanksOf(p), Fold(p, s)[i]) <==> IsBlank(BlanksOf(p), s[i])
  {
  }

  lemma NoEquals(s: string)
    requires '=' !in s
    ensures NameOf(s) == s && ValueOf(s) == "" && IndexOf(s, '=') == |s|
  {
    IndexOfIs(s, '=', |s|);
  }

  lemma WithValue(name: string, value: string)
    requires '=' !in name
    ensures NameOf(name + "=" + value) == name && ValueOf(name + "=" + value) == value
  {
    var s := name + "=" + value;
    assert s[..|name|] == name && s[|name| + 1..] == value;
    IndexOfIs(s, '=', |name|);
  }

  /** The stored form of a switch token, and the parts it is read back into. */
  lemma StoredParts(p: Platform, token: string)
    requires IsSwitch(p, token)
    ensures var folded, u := Fold(p, NameOf(token)), Stored(p, token);
            && u == folded + (if ValueOf(token) == "" then "" else "=" + ValueOf(token))
            && NameOf(u) == folded && ValueOf(u) == ValueOf(token)
            && PrefixLength(p, u) == PrefixLength(p, token)
            && Stored(p, u) == u && KeyOf(p, NameOf(u)) == KeyOf(p, NameOf(token))
  {
    hide Fold, IndexOf, PrefixLength, NameOf, ValueOf;
    var folded, u, value := Fold(p, NameOf(token)), Stored(p, token), ValueOf(token);
    assert PrefixLength(p, folded) == PrefixLength(p, token) != 0 && '=' !in folded && folded != "" by {
      SwitchParts(p, token);
    }
    FoldTwice(p, NameOf(token));
    if value == "" {
      assert u == folded;
      NoEquals(u);
    } else {
      assert u == folded + "=" + value;
      WithValue(folded, value);
      PrefixByCharacters(p, folded);
      PrefixByCharacters(p, u);
    }
  }

  /** The last character of what is stored when there is no value. */
  lemma LastOfName(p: Platform, token: string)
    requires IsSwitch(p, token) && ValueOf(token) == ""
    ensures var e := IndexOf(token, '=');
            && (e == |token| || e == |token| - 1) && e > 0 && |Stored(p, token)| == e
            && (IsBlank(BlanksOf(p), Stored(p, token)[e - 1]) <==> IsBlank(BlanksOf(p), token[e - 1]))
  {
    hide Fold, IndexOf, PrefixLength, IsBlank;
    StoredParts(p, token);
    SwitchParts(p, token);
    FoldKeepsBlanks(p, NameOf(token), IndexOf(token, '=') - 1);
  }

  lemma StableUnlessLossy(p: Platform, token: string)
    requires IsSwitch(p, token) && Trimmed(BlanksOf(p), token) && !Lossy(p, token)
    ensures Stable(p, token)
  {
    hide Fold, IndexOf, PrefixLength, NameOf, ValueOf, IsBlank, Stored, KeyOf, Trim;
    var u := Stored(p, token);
    StoredParts(p, token);
    SwitchParts(p, token);
    assert u[0] == token[0];
    if ValueOf(token) == "" {
      LastOfName(p, token);
    } else {
      ValueEnds(token);
    }
    TrimFacts(BlanksOf(p), u);
    PrefixByCharacters(p, u);
  }

  lemma ValueEnds(token: string)
    requires ValueOf(token) != ""
    ensures ValueOf(token)[|ValueOf(token)| - 1] == token[|token| - 1]
  {
  }

  lemma LossyIsReadDifferently(p: Platform, token: string)
    requires IsSwitch(p, token) && Trimmed(BlanksOf(p), token) && Lossy(p, token)
    ensures var t := Trim(BlanksOf(p), Stored(p, token));
            t == TERMINATOR || !IsSwitch(p, t) || Stored(p, t) != Stored(p, token)
  {
    hide Fold, IndexOf, PrefixLength, IsBlank, Stored, KeyOf, Trim;
    var u, e := Stored(p, token), IndexOf(token, '=');
    assert ValueOf(token) == "";
    StoredParts(p, token);
    SwitchParts(p, token);
    LastOfName(p, token);
    TrimFacts(BlanksOf(p), u);
    if e == PrefixLength(p, token) {
      // Only the prefix is stored.
      PrefixByCharacters(p, u);
      assert Trimmed(BlanksOf(p), u);
    } else {
      // The stored name ends in a blank, which the second reading trims.
      var t := Trim(BlanksOf(p), u);
      assert t == u[..|t|] && |t| < |u|;
      assert '=' !in t;
      NoEquals(t);
      if IsSwitch(p, t) {
        StoredParts(p, t);
      }
    }
  }

  // ----- A whole line parsed again -----

  predicate TakenAsSwitch(p: Platform, token: string)
  {
    IsSwitch(p, token) && token != TERMINATOR
  }

  lemma {:induction false} SwitchTokensAre(p: Platform, tokens: seq<string>, parse: bool)
    ensures forall t | t in SwitchTokens(p, tokens, parse) :: TakenAsSwitch(p, t) && t in tokens
    decreases |tokens|
  {
    hide IsSwitch;
    if tokens != [] {
      SwitchTokensAre(p, tokens[1..], parse && tokens[0] != TERMINATOR);
    }
  }

  lemma {:induction false} ArgTokensAre(p: Platform, tokens: seq<string>, parse: bool)
    ensures forall t | t in ArgTokens(p, tokens, parse) :: t in tokens
    decreases |tokens|
  {
    hide IsSwitch;
    if tokens != [] {
      ArgTokensAre(p, tokens[1..], parse && tokens[0] != TERMINATOR);
    }
  }

  /** After the terminator nothing is a switch. */
  lemma {:induction false} NothingParsed(p: Platform, tokens: seq<string>)
    ensures SwitchTokens(p, tokens, false) == [] && ArgTokens(p, tokens, false) == tokens
    decreases |tokens|
  {
    hide IsSwitch;
    if tokens != [] {
      NothingParsed(p, tokens[1..]);
      assert tokens == [tokens[0]] + tokens[1..];
    }
  }

  /** The arguments of a line stay arguments. */
  lemma {:induction false} ArgsStay(p: Platform, tokens: seq<string>, parse: bool)
    ensures var args := ArgTokens(p, tokens, parse);
            SwitchTokens(p, args, parse) == [] && ArgTokens(p, args, parse) == args
    decreases |tokens|
  {
    hide IsSwitch, SwitchTokens, ArgTokens;
    if tokens == [] {
      NoTokens(p, parse);
      return;
    }
    var parse' := parse && tokens[0] != TERMINATOR;
    ArgsStay(p, tokens[1..], parse');
    FirstToken(p, tokens, parse);
    var rest := ArgTokens(p, tokens[1..], parse');
    if !(parse' && IsSwitch(p, tokens[0])) {
      var args := [tokens[0]] + rest;
      assert args[1..] == rest;
      FirstToken(p, args, parse);
    }
  }

  lemma NoTokens(p: Platform, parse: bool)
    ensures SwitchTokens(p, [], parse) == [] && ArgTokens(p, [], parse) == []
  {
  }

  /** A list of switches followed by such arguments. */
  lemma {:induction false} SwitchesThenArgs(p: Platform, switches: seq<string>, args: seq<string>)
    requires forall t | t in switches :: TakenAsSwitch(p, t)
    requires SwitchTokens(p, args, true) == [] && ArgTokens(p, args, true) == args
    ensures SwitchTokens(p, switches + args, true) == switches && ArgTokens(p, switches + args, true) == args
    decreases |switches|
  {
    hide IsSwitch, SwitchTokens, ArgTokens;
    if switches == [] {
      assert switches + args == args;
    } else {
      var all := switches + args;
      assert all[1..] == switches[1..] + args && all[0] == switches[0];
      SwitchesThenArgs(p, switches[1..], args);
      assert TakenAsSwitch(p, switches[0]);
      FirstToken(p, all, true);
      assert switches == [switches[0]] + switches[1..];
    }
  }

  /** If as many tokens are taken as switches as there are before the arguments, they are those. */
  lemma {:induction false} AllTakenIfAsMany(p: Platform, tokens: seq<string>, args: seq<string>, parse: bool)
    requires SwitchTokens(p, args, true) == []
    ensures |SwitchTokens(p, tokens + args, parse)| <= |tokens|
    ensures |SwitchTokens(p, tokens + args, parse)| == |tokens| ==>
      SwitchTokens(p, tokens + args, parse) == tokens && forall t | t in tokens :: TakenAsSwitch(p, t)
    decreases |tokens|
  {
    hide IsSwitch, SwitchTokens, ArgTokens;
    if tokens == [] {
      assert tokens + args == args;
      NothingParsed(p, args);
    } else {
      var all := tokens + args;
      assert all[1..] == tokens[1..] + args && all[0] == tokens[0];
      AllTakenIfAsMany(p, tokens[1..], args, parse && all[0] != TERMINATOR);
      FirstToken(p, all, parse);
      assert tokens == [tokens[0]] + tokens[1..];
    }
  }

  lemma {:induction false} IndexedAlike(p: Platform, xs: seq<string>, ys: seq<string>)
    requires |xs| == |ys|
    requires forall i | 0 <= i < |xs| ::
      KeyOf(p, NameOf(xs[i])) == KeyOf(p, NameOf(ys[i])) && ValueOf(xs[i]) == ValueOf(ys[i])
    ensures Indexed(p, map[], xs) == Indexed(p, map[], ys)
    decreases |xs|
  {
    hide KeyOf, NameOf, ValueOf;
    if xs != [] {
      IndexedAlike(p, xs[..|xs| - 1], ys[..|ys| - 1]);
    }
  }

  /** The tokens after the program, trimmed. */
  function TokensOf(p: Platform, argv: seq<string>): seq<string>
  {
    if argv == [] then [] else TrimAll(p, argv[1..])
  }

  lemma {:induction false} TrimAllConcat(p: Platform, xs: seq<string>, ys: seq<string>)
    requires forall y | y in ys :: Trimmed(BlanksOf(p), y)
    ensures TrimAll(p, xs + ys) == TrimAll(p, xs) + ys
  {
    hide Trim, IsBlank;
    forall i | 0 <= i < |ys|
      ensures Trim(BlanksOf(p), ys[i]) == ys[i]
    {
      TrimFacts(BlanksOf(p), ys[i]);
    }
  }

  /** What the second parse sees: the stored switches, trimmed, and the same arguments. */
  lemma SecondTokens(p: Platform, argv: seq<string>)
    requires argv != []
    ensures
      var switches, args := SwitchTokens(p, TokensOf(p, argv), true), ArgTokens(p, TokensOf(p, argv), true);
      var again := FromArgv(p, argv).argv;
      && again != [] && again[0] == Trim(BlanksOf(p), argv[0]) && Trim(BlanksOf(p), again[0]) == again[0]
      && TokensOf(p, again) == TrimAll(p, StoredAll(p, switches)) + args
      && SwitchTokens(p, args, true) == [] && ArgTokens(p, args, true) == args
  {
    hide Trim, IsBlank, SwitchTokens, ArgTokens, StoredAll, FromArgv, Indexed;
    var tokens := TokensOf(p, argv);
    var switches, args := SwitchTokens(p, tokens, true), ArgTokens(p, tokens, true);
    FromArgvPartition(p, argv);
    TrimFacts(BlanksOf(p), argv[0]);
    TrimFacts(BlanksOf(p), Trim(BlanksOf(p), argv[0]));
    ArgTokensAre(p, tokens, true);
    forall y | y in args
      ensures Trimmed(BlanksOf(p), y)
    {
      var i :| 0 <= i < |tokens| && tokens[i] == y;
      TrimFacts(BlanksOf(p), argv[1..][i]);
    }
    var again := FromArgv(p, argv).argv;
    assert again[1..] == StoredAll(p, switches) + args;
    TrimAllConcat(p, StoredAll(p, switches), args);
    ArgsStay(p, tokens, true);
  }

  /** The trimmed switch tokens of a line. */
  lemma SwitchTokensTrimmed(p: Platform, argv: seq<string>)
    ensures forall t | t in SwitchTokens(p, TokensOf(p, argv), true) :: IsSwitch(p, t) && Trimmed(BlanksOf(p), t)
  {
    hide Trim, IsBlank, SwitchTokens, IsSwitch;
    var tokens := TokensOf(p, argv);
    SwitchTokensAre(p, tokens, true);
    forall t | t in SwitchTokens(p, tokens, true)
      ensures IsSwitch(p, t) && Trimmed(BlanksOf(p), t)
    {
      assert TakenAsSwitch(p, t);
      var i :| 0 <= i < |tokens| && tokens[i] == t;
      TrimFacts(BlanksOf(p), argv[1..][i]);
    }
  }

  lemma StableAgain(p: Platform, argv: seq<string>)
    requires argv != []
    requires forall t | t in SwitchTokens(p, TokensOf(p, argv), true) :: !Lossy(p, t)
    ensures FromArgv(p, FromArgv(p, argv).argv) == FromArgv(p, argv)
  {
    hide Trim, IsBlank, SwitchTokens, ArgTokens, FromArgv, Indexed, IsSwitch, Lossy, Stored, NameOf, ValueOf, KeyOf, Trimmed;
    var switches, args := SwitchTokens(p, TokensOf(p, argv), true), ArgTokens(p, TokensOf(p, argv), true);
    var stored := StoredAll(p, switches);
    SwitchTokensTrimmed(p, argv);
    forall i | 0 <= i < |switches|
      ensures Stable(p, switches[i])
    {
      assert switches[i] in switches;
      StableUnlessLossy(p, switches[i]);
    }
    SecondTokens(p, argv);
    assert TrimAll(p, stored) == stored;
    SwitchesThenArgs(p, stored, args);
    assert StoredAll(p, stored) == stored;
    IndexedAlike(p, stored, switches);
    FromArgvPartition(p, argv);
    FromArgvPartition(p, FromArgv(p, argv).argv);
  }

  /** The entries of the switches, in the vector. */
  lemma EntriesOf(p: Platform, argv: seq<string>, i: nat)
    requires argv != [] && i < |SwitchTokens(p, TokensOf(p, argv), true)|
    ensures 1 + i < |FromArgv(p, argv).argv|
    ensures FromArgv(p, argv).argv[1 + i] == Stored(p, SwitchTokens(p, TokensOf(p, argv), true)[i])
  {
    hide Trim, SwitchTokens, ArgTokens, FromArgv, Indexed, Stored;
    FromArgvPartition(p, argv);
  }

  lemma DividerOf(p: Platform, argv: seq<string>)
    requires argv != []
    ensures FromArgv(p, argv).beginArgs == 1 + |SwitchTokens(p, TokensOf(p, argv), true)|
  {
    hide Trim, SwitchTokens, ArgTokens, FromArgv, Indexed, StoredAll;
    FromArgvPartition(p, argv);
  }

  lemma LossyChanges(p: Platform, argv: seq<string>, t: string)
    requires argv != [] && t in SwitchTokens(p, TokensOf(p, argv), true) && Lossy(p, t)
    ensures FromArgv(p, FromArgv(p, argv).argv) != FromArgv(p, argv)
  {
    hide Trim, IsBlank, SwitchTokens, ArgTokens, FromArgv, Indexed, IsSwitch, Lossy, Stored, Trimmed, TokensOf;
    var switches, args := SwitchTokens(p, TokensOf(p, argv), true), ArgTokens(p, TokensOf(p, argv), true);
    var trimmed := TrimAll(p, StoredAll(p, switches));
    var again := FromArgv(p, argv).argv;
    SecondTokens(p, argv);
    DividerOf(p, argv);
    DividerOf(p, again);
    AllTakenIfAsMany(p, trimmed, args, true);
    if |SwitchTokens(p, trimmed + args, true)| == |switches| {
      SwitchTokensTrimmed(p, argv);
      var i :| 0 <= i < |switches| && switches[i] == t;
      LossyIsReadDifferently(p, t);
      assert TakenAsSwitch(p, trimmed[i]);
      EntriesOf(p, argv, i);
      EntriesOf(p, again, i);
    }
  }

  /** Parsing a parsed line again gives the same vector, index and divider exactly when no token
      taken as a switch is lossy. */
  lemma ParsedTwiceIffNoneLossy(p: Platform, argv: seq<string>)
    ensures FromArgv(p, FromArgv(p, argv).argv) == FromArgv(p, argv)
       <==> forall t | t in SwitchTokens(p, TokensOf(p, argv), true) :: !Lossy(p, t)
  {
    if argv == [] {
      assert TrimAll(p, [""][1..]) == [];
      assert Trim(BlanksOf(p), "") == "";
    } else {
      hide Trim, SwitchTokens, FromArgv, Lossy;
      if forall t | t in SwitchTokens(p, TokensOf(p, argv), true) :: !Lossy(p, t) {
        StableAgain(p, argv);
      } else {
        var t :| t in SwitchTokens(p, TokensOf(p, argv), true) && Lossy(p, t);
        LossyChanges(p, argv, t);
      }
    }
  }

  // ----- The index and the vector -----

  /** `switches_` is what a scan of the switch entries gives. */
  ghost predicate Agrees(p: Platform, line: Line)
  {
    WellFormed(line) && line.switches == Indexed(p, map[], line.argv[1..line.beginArgs])
  }

  function EntryKey(p: Platform, entry: string): string { KeyOf(p, NameOf(entry)) }

  /** A scan holds a key exactly when some entry has it, with the value of the last such entry. */
  lemma {:induction false} ScanIsLast(p: Platform, entries: seq<string>, key: string)
    ensures key in Indexed(p, map[], entries) <==> exists i | 0 <= i < |entries| :: EntryKey(p, entries[i]) == key
    ensures forall i | 0 <= i < |entries| && EntryKey(p, entries[i]) == key
                       && (forall j | i < j < |entries| :: EntryKey(p, entries[j]) != key) ::
      key in Indexed(p, map[], entries) && Indexed(p, map[], entries)[key] == ValueOf(entries[i])
    decreases |entries|
  {
    hide KeyOf, NameOf, ValueOf;
    if entries != [] {
      var n := |entries| - 1;
      var front := entries[..n];
      ScanIsLast(p, front, key);
      assert forall i | 0 <= i < n :: front[i] == entries[i];
      if EntryKey(p, entries[n]) != key {
        forall i | 0 <= i < |entries| && EntryKey(p, entries[i]) == key
                   && (forall j | i < j < |entries| :: EntryKey(p, entries[j]) != key)
          ensures key in Indexed(p, map[], entries) && Indexed(p, map[], entries)[key] == ValueOf(entries[i])
        {
          assert i < n && EntryKey(p, front[i]) == key;
          assert forall j | i < j < n :: EntryKey(p, front[j]) != key;
        }
      }
    }
  }

  lemma FromArgvAgrees(p: Platform, argv: seq<string>)
    ensures Agrees(p, FromArgv(p, argv))
  {
    if argv == [] {
      assert [""][1..1] == [];
    } else {
      hide Trim, SwitchTokens, ArgTokens, FromArgv, Indexed, Stored, NameOf, ValueOf, KeyOf, IsSwitch, Trimmed, IsBlank;
      hide BlanksOf;
      FromArgvPartition(p, argv);
      var switches := SwitchTokens(p, TokensOf(p, argv), true);
      var line := FromArgv(p, argv);
      assert line.argv[1..line.beginArgs] == StoredAll(p, switches);
      SwitchTokensTrimmed(p, argv);
      StoredIndexedAlike(p, switches);
    }
  }

  lemma StoredIndexedAlike(p: Platform, switches: seq<string>)
    requires forall t | t in switches :: IsSwitch(p, t)
    ensures Indexed(p, map[], switches) == Indexed(p, map[], StoredAll(p, switches))
  {
    hide Indexed, Stored, NameOf, ValueOf, KeyOf, IsSwitch, PrefixLength, Fold;
    forall i | 0 <= i < |switches|
      ensures KeyOf(p, NameOf(switches[i])) == KeyOf(p, NameOf(Stored(p, switches[i])))
      ensures ValueOf(switches[i]) == ValueOf(Stored(p, switches[i]))
    {
      assert switches[i] in switches;
      StoredParts(p, switches[i]);
    }
    IndexedAlike(p, switches, StoredAll(p, switches));
  }

  /** An entry up to its '='. */
  function Stem(p: Platform, name: string): string
  {
    if PrefixLength(p, Fold(p, name)) == 0 then "--" + Fold(p, name) else Fold(p, name)
  }

  lemma StemKey(p: Platform, name: string)
    ensures KeyOf(p, Stem(p, name)) == KeyOf(p, name)
  {
    hide Fold, PrefixLength;
    var folded, stem := Fold(p, name), Stem(p, name);
    FoldTwice(p, name);
    FoldDashes(p, name);
    if PrefixLength(p, folded) == 0 {
      PrefixByCharacters(p, stem);
      assert stem[2..] == folded;
    }
  }

  /** An entry made from a name without '=' is scanned back into its key and value. */
  lemma CombinedScans(p: Platform, name: string, value: string)
    requires '=' !in name
    ensures EntryKey(p, Combined(p, name, value)) == KeyOf(p, name) && ValueOf(Combined(p, name, value)) == value
  {
    hide Fold, IndexOf, PrefixLength, NameOf, ValueOf, KeyOf;
    var stem := Stem(p, name);
    StemKey(p, name);
    FoldKeeps(p, name, '=');
    assert '=' !in stem;
    if value == "" {
      assert Combined(p, name, value) == stem;
      NoEquals(stem);
    } else {
      assert Combined(p, name, value) == stem + "=" + value;
      WithValue(stem, value);
    }
  }

  lemma FoldDashes(p: Platform, name: string)
    ensures Fold(p, "--" + Fold(p, name)) == "--" + Fold(p, name)
  {
    FoldTwice(p, name);
    var s := "--" + Fold(p, name);
    forall i | 0 <= i < |s|
      ensures Fold(p, s)[i] == s[i]
    {
      if i >= 2 {
        assert s[i] == Fold(p, name)[i - 2] == Fold(p, Fold(p, name))[i - 2];
      }
    }
  }

  /** No scanned key holds '='. */
  lemma ScannedKeysHaveNoEquals(p: Platform, entries: seq<string>, key: string)
    requires key in Indexed(p, map[], entries)
    ensures '=' !in key
  {
    hide Fold, IndexOf, PrefixLength;
    ScanIsLast(p, entries, key);
    var i :| 0 <= i < |entries| && EntryKey(p, entries[i]) == key;
    FoldKeeps(p, NameOf(entries[i]), '=');
  }

  lemma KeyKeepsEquals(p: Platform, name: string)
    requires '=' in name
    ensures '=' in KeyOf(p, name)
  {
    hide Fold, PrefixLength;
    var folded := Fold(p, name);
    FoldKeeps(p, name, '=');
    PrefixByCharacters(p, folded);
    var i :| 0 <= i < |name| && name[i] == '=';
    assert folded[i] == '=';
    assert KeyOf(p, name)[i - PrefixLength(p, folded)] == '=';
  }

  /** A call made on a parsed line. */
  datatype Append = AppendSwitch(name: string, value: string) | AppendArg(value: string)

  function Appended(p: Platform, line: Line, calls: seq<Append>): (r: Line)
    requires WellFormed(line)
    ensures WellFormed(r)
  {
    if calls == [] then line
    else
      var before := Appended(p, line, calls[..|calls| - 1]);
      match calls[|calls| - 1]
      case AppendSwitch(name, value) => WithSwitch(p, before, name, value)
      case AppendArg(value) => WithArg(before, value)
  }

  lemma SwitchAgrees(p: Platform, line: Line, name: string, value: string)
    requires Agrees(p, line)
    ensures Agrees(p, WithSwitch(p, line, name, value)) <==> '=' !in name
  {
    hide KeyOf, NameOf, ValueOf, Combined;
    var next := WithSwitch(p, line, name, value);
    var entries := line.argv[1..line.beginArgs];
    var entries' := next.argv[1..next.beginArgs];
    assert entries' == entries + [Combined(p, name, value)];
    assert entries'[..|entries|] == entries;
    if '=' !in name {
      CombinedScans(p, name, value);
    } else {
      KeyKeepsEquals(p, name);
      if KeyOf(p, name) in Indexed(p, map[], entries') {
        ScannedKeysHaveNoEquals(p, entries', KeyOf(p, name));
      }
    }
  }

  lemma ArgAgrees(p: Platform, line: Line, value: string)
    requires WellFormed(line)
    ensures Agrees(p, WithArg(line, value)) <==> Agrees(p, line)
  {
    assert WithArg(line, value).argv[1..line.beginArgs] == line.argv[1..line.beginArgs];
  }

  ghost predicate HasBadKey(line: Line)
  {
    exists key :: key in line.switches && '=' in key
  }

  lemma BadKeyDisagrees(p: Platform, line: Line)
    requires WellFormed(line) && HasBadKey(line)
    ensures !Agrees(p, line)
  {
    var key :| key in line.switches && '=' in key;
    if key in Indexed(p, map[], line.argv[1..line.beginArgs]) {
      ScannedKeysHaveNoEquals(p, line.argv[1..line.beginArgs], key);
    }
  }

  /** After parsing and any calls that append, the index agrees with the vector exactly when no
      appended switch name holds '='. */
  lemma {:induction false} AgreesIffNamesHaveNoEquals(p: Platform, argv: seq<string>, calls: seq<Append>)
    ensures
      var line := Appended(p, FromArgv(p, argv), calls);
      && (Agrees(p, line) <==> forall c | c in calls && c.AppendSwitch? :: '=' !in c.name)
      && (!Agrees(p, line) ==> HasBadKey(line))
    decreases |calls|
  {
    hide FromArgv, KeyOf, Combined, Agrees;
    if calls == [] {
      FromArgvAgrees(p, argv);
      return;
    }
    var last := calls[|calls| - 1];
    var before := Appended(p, FromArgv(p, argv), calls[..|calls| - 1]);
    AgreesIffNamesHaveNoEquals(p, argv, calls[..|calls| - 1]);
    assert calls == calls[..|calls| - 1] + [last];
    var line := Appended(p, FromArgv(p, argv), calls);
    match last
    case AppendArg(value) =>
      ArgAgrees(p, before, value);
    case AppendSwitch(name, value) =>
      if Agrees(p, before) {
        SwitchAgrees(p, before, name, value);
        if '=' in name {
          KeyKeepsEquals(p, name);
          assert KeyOf(p, name) in line.switches;
        }
      } else {
        var key :| key in before.switches && '=' in key;
        assert key in line.switches;
        BadKeyDisagrees(p, line);
      }
  }

  lemma LossyToken(p: Platform)
    ensures Lossy(p, "--x =") && TakenAsSwitch(p, "--x =") && Trim(BlanksOf(p), "--x =") == "--x ="
  {
    hide IndexOf, PrefixLength, Trim;
    var token := "--x =";
    IndexOfIs(token, '=', 4);
    PrefixByCharacters(p, token);
    TrimFacts(BlanksOf(p), token);
  }

  /** A switch whose name ends in a blank before an empty value does not come back. */
  lemma LossyLine(p: Platform)
    ensures var line := FromArgv(p, ["", "--x ="]); FromArgv(p, line.argv) != line
  {
    hide FromArgv, Trim, Lossy, SwitchTokens, ArgTokens, IsSwitch;
    var argv, token := ["", "--x ="], "--x =";
    LossyToken(p);
    assert argv[1..] == [token];
    assert TokensOf(p, argv) == [token];
    FirstToken(p, [token], true);
    LossyChanges(p, argv, token);
  }

  /** A switch appended under a name with '=' is indexed under a key that no entry has. */
  lemma DisagreeingLine(p: Platform)
    ensures !Agrees(p, Appended(p, FromArgv(p, []), [AppendSwitch("a=b", "")]))
  {
    hide Agrees, Appended, FromArgv;
    var calls := [AppendSwitch("a=b", "")];
    assert calls[0] in calls && '=' == calls[0].name[1];
    AgreesIffNamesHaveNoEquals(p, [], calls);
  }
}
