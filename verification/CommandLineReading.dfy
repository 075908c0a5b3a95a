/** What a command line is read as, told by the characters of its tokens. */
module CommandLineReading {
  import opened Text
  import opened CommandLine
  import opened CommandLineLaws

  // ----- Which tokens are switches -----

  predicate LooksLikeSwitch(p: Platform, s: string)
  {
    |s| > 1 && ((s[0] == '-' && s != "--") || (p == Windows(true) && s[0] == '/'))
  }

  /** Something after a dash, or after a slash where that starts a switch; "--" alone is none. */
  lemma IsSwitchIff(p: Platform, s: string)
    ensures IsSwitch(p, s) <==> |s| > 1 && ((s[0] == '-' && s != "--") || (p == Windows(true) && s[0] == '/'))
  {
    hide PrefixLength;
    PrefixByCharacters(p, s);
    assert s == "--" <==> |s| == 2 && s[0] == '-' && s[1] == '-';
  }

  /** Those of the tokens that look like a switch, or those that do not, in order. */
  function Those(p: Platform, tokens: seq<string>, switches: bool): seq<string>
  {
    if tokens == [] then []
    else (if LooksLikeSwitch(p, tokens[0]) == switches then [tokens[0]] else []) + Those(p, tokens[1..], switches)
  }

  /** The position of the first "--", or the end. */
  ghost predicate FirstTerminator(tokens: seq<string>, d: nat)
  {
    d <= |tokens| && "--" !in tokens[..d] && (d < |tokens| ==> tokens[d] == "--")
  }

  /** From the first "--" on, every token is an argument; before it, exactly those that do not look
      like a switch are. */
  lemma {:induction false} TokensRead(p: Platform, tokens: seq<string>, d: nat)
    requires FirstTerminator(tokens, d)
    ensures SwitchTokens(p, tokens, true) == Those(p, tokens[..d], true)
    ensures ArgTokens(p, tokens, true) == Those(p, tokens[..d], false) + tokens[d..]
    decreases |tokens|
  {
    hide LooksLikeSwitch, IsSwitch, SwitchTokens, ArgTokens, Those;
    if tokens == [] {
      NoTokens(p, true);
      NoneOfThose(p);
    } else {
      var first, rest := tokens[0], tokens[1..];
      FirstToken(p, tokens, true);
      if d == 0 {
        NothingParsed(p, rest);
        NoneOfThose(p);
        assert tokens == [first] + rest;
      } else {
        assert first == tokens[..d][0] && first != "--";
        assert rest[..d - 1] == tokens[..d][1..] && rest[d - 1..] == tokens[d..];
        assert forall t | t in rest[..d - 1] :: t in tokens[..d];
        TokensRead(p, rest, d - 1);
        SwitchLooks(p, first);
        FirstOfThose(p, tokens[..d]);
      }
    }
  }

  lemma NoneOfThose(p: Platform)
    ensures Those(p, [], true) == [] && Those(p, [], false) == []
  {
  }

  lemma FirstOfThose(p: Platform, tokens: seq<string>)
    requires tokens != []
    ensures
      var switches, args := Those(p, tokens[1..], true), Those(p, tokens[1..], false);
      if LooksLikeSwitch(p, tokens[0])
      then Those(p, tokens, true) == [tokens[0]] + switches && Those(p, tokens, false) == args
      else Those(p, tokens, true) == switches && Those(p, tokens, false) == [tokens[0]] + args
  {
    hide LooksLikeSwitch;
  }

  lemma SwitchLooks(p: Platform, s: string)
    ensures IsSwitch(p, s) == LooksLikeSwitch(p, s)
  {
    hide IsSwitch;
    IsSwitchIff(p, s);
  }

  /** The whole line: the program, the stored switches, the other tokens before the first "--", and
      everything from there on. */
  lemma LineByCharacters(p: Platform, argv: seq<string>, d: nat)
    requires argv != [] && FirstTerminator(TrimAll(p, argv[1..]), d)
    ensures
      var tokens, line := TrimAll(p, argv[1..]), FromArgv(p, argv);
      var switches := Those(p, tokens[..d], true);
      && line.argv
         == [Trim(BlanksOf(p), argv[0])] + StoredAll(p, switches) + Those(p, tokens[..d], false) + tokens[d..]
      && line.beginArgs == 1 + |switches|
  {
    hide Trim, SwitchTokens, ArgTokens, Those, FirstTerminator, StoredAll, FromArgv, Indexed;
    var tokens := TrimAll(p, argv[1..]);
    FromArgvPartition(p, argv);
    TokensRead(p, tokens, d);
  }

  // ----- What a switch is stored and indexed as -----

  /** The three ways to start a switch; after one dash comes no other. */
  predicate Starts(p: Platform, prefix: string, name: string)
  {
    || prefix == "--"
    || (prefix == "-" && (name == "" || name[0] != '-'))
    || (prefix == "/" && p == Windows(true))
  }

  lemma PrefixRead(p: Platform, prefix: string, name: string, rest: string)
    requires Starts(p, prefix, name) && (name == "" ==> rest == "" || rest[0] != '-')
    ensures PrefixLength(p, prefix + name + rest) == |prefix|
  {
    hide PrefixLength;
    PrefixByCharacters(p, prefix + name + rest);
  }

  lemma PrefixFolds(p: Platform, prefix: string, name: string)
    requires Starts(p, prefix, name)
    ensures Fold(p, prefix + name) == prefix + Fold(p, name) && Starts(p, prefix, Fold(p, name))
  {
    FoldKeeps(p, name, '-');
    forall i | 0 <= i < |prefix|
      ensures Fold(p, prefix + name)[i] == prefix[i]
    {
    }
  }

  /** A switch with its prefix, its name and, after the first '=', its value: the key is the name
      alone, the value is kept as it is, and the entry is the switch again with the name folded and
      an empty value left out. */
  lemma SwitchRead(p: Platform, prefix: string, name: string, value: string, equals: bool)
    requires Starts(p, prefix, name) && '=' !in name && (!equals ==> name != "" && value == "")
    ensures
      var token := prefix + name + if equals then "=" + value else "";
      && LooksLikeSwitch(p, token)
      && KeyOf(p, NameOf(token)) == Fold(p, name) && ValueOf(token) == value
      && Stored(p, token) == prefix + Fold(p, name) + if value == "" then "" else "=" + value
  {
    assert prefix in {"--", "-", "/"};
    hide *;
    TokenLooks(p, prefix, name, value, equals);
    TokenParts(prefix, name, value, equals);
    StemStored(p, prefix, name, value);
    StoredIs(p, prefix + name + if equals then "=" + value else "");
  }

  lemma StoredIs(p: Platform, token: string)
    ensures Stored(p, token) == Combined(p, NameOf(token), ValueOf(token))
  {
  }

  lemma TokenLooks(p: Platform, prefix: string, name: string, value: string, equals: bool)
    requires Starts(p, prefix, name) && (!equals ==> name != "")
    ensures LooksLikeSwitch(p, prefix + name + if equals then "=" + value else "")
  {
    var token := prefix + name + if equals then "=" + value else "";
    assert token[0] == prefix[0];
    assert |token| > |prefix|;
    if prefix == "-" {
      assert token[1] == if name != "" then name[0] else '=';
    }
  }

  lemma TokenParts(prefix: string, name: string, value: string, equals: bool)
    requires prefix in {"--", "-", "/"} && '=' !in name && (!equals ==> value == "")
    ensures
      var token := prefix + name + if equals then "=" + value else "";
      NameOf(token) == prefix + name && ValueOf(token) == value
  {
    hide NameOf, ValueOf;
    var stem := prefix + name;
    assert '=' !in stem;
    if equals {
      assert stem + ("=" + value) == stem + "=" + value;
      WithValue(stem, value);
    } else {
      assert stem + "" == stem;
      NoEquals(stem);
    }
  }

  lemma StemStored(p: Platform, prefix: string, name: string, value: string)
    requires Starts(p, prefix, name)
    ensures KeyOf(p, prefix + name) == Fold(p, name)
    ensures Combined(p, prefix + name, value) == prefix + Fold(p, name) + if value == "" then "" else "=" + value
  {
    hide Fold, PrefixLength;
    PrefixFolds(p, prefix, name);
    PrefixRead(p, prefix, Fold(p, name), "");
    var folded := prefix + Fold(p, name);
    assert folded + "" == folded && "" + folded == folded;
    assert folded[|prefix|..] == Fold(p, name);
  }

  /** A switch appended under a bare name gets two dashes; its key is the name. */
  lemma BareNameAppended(p: Platform, name: string, value: string)
    requires name == "" || (name[0] != '-' && name[0] != '/')
    ensures KeyOf(p, name) == Fold(p, name)
    ensures Combined(p, name, value) == "--" + Fold(p, name) + if value == "" then "" else "=" + value
  {
    hide Fold, PrefixLength;
    FoldKeeps(p, name, '-');
    FoldKeeps(p, name, '/');
    PrefixByCharacters(p, Fold(p, name));
    assert Fold(p, name)[0..] == Fold(p, name);
  }

  // ----- The case of switch names -----

  predicate IsUpper(c: char) { 'A' <= c <= 'Z' }

  /** Equal but for the case of letters. */
  predicate SameButCase(a: string, b: string)
  {
    && |a| == |b|
    && forall i | 0 <= i < |a| ::
         || a[i] == b[i]
         || (IsUpper(a[i]) && b[i] as int == a[i] as int + 32)
         || (IsUpper(b[i]) && a[i] as int == b[i] as int + 32)
  }

  /** On Windows a folded string has no capital letter, and folding makes alike exactly those that
      differ in case only; elsewhere it does nothing. */
  lemma FoldIsCase(p: Platform, a: string, b: string)
    ensures p == Posix ==> Fold(p, a) == a
    ensures p != Posix ==> forall i | 0 <= i < |a| :: !IsUpper(Fold(p, a)[i])
    ensures p != Posix ==> (Fold(p, a) == Fold(p, b) <==> SameButCase(a, b))
  {
    if p != Posix {
      if Fold(p, a) == Fold(p, b) {
        forall i | 0 <= i < |a|
          ensures a[i] == b[i] || (IsUpper(a[i]) && b[i] as int == a[i] as int + 32)
               || (IsUpper(b[i]) && a[i] as int == b[i] as int + 32)
        {
          assert LowerChar(a[i]) == Fold(p, a)[i] == Fold(p, b)[i] == LowerChar(b[i]);
        }
      }
      if SameButCase(a, b) {
        forall i | 0 <= i < |a|
          ensures Fold(p, a)[i] == Fold(p, b)[i]
        {
          assert Fold(p, a)[i] == LowerChar(a[i]) && Fold(p, b)[i] == LowerChar(b[i]);
        }
      }
    }
  }

  /** On Windows names that differ in case only have one key. */
  lemma OneKeyForEveryCase(p: Platform, a: string, b: string)
    requires p != Posix && SameButCase(a, b)
    ensures KeyOf(p, a) == KeyOf(p, b)
  {
    FoldIsCase(p, a, b);
  }

  /** On Windows no key of a parsed line holds a capital letter. */
  lemma KeysAreLower(p: Platform, argv: seq<string>, key: string)
    requires p != Posix && key in FromArgv(p, argv).switches
    ensures forall i | 0 <= i < |key| :: !IsUpper(key[i])
  {
    hide *;
    NothingIndexed(p, argv, key);
    FromArgvPartition(p, argv);
    ScannedKeyIsLower(p, SwitchTokens(p, TrimAll(p, argv[1..]), true), key);
  }

  lemma ScannedKeyIsLower(p: Platform, entries: seq<string>, key: string)
    requires p != Posix && key in Indexed(p, map[], entries)
    ensures forall i | 0 <= i < |key| :: !IsUpper(key[i])
  {
    hide Fold, PrefixLength, NameOf, Indexed, KeyOf, IsUpper;
    ScanIsLast(p, entries, key);
    var i :| 0 <= i < |entries| && EntryKey(p, entries[i]) == key;
    KeyIsLower(p, NameOf(entries[i]));
  }

  lemma KeyIsLower(p: Platform, name: string)
    requires p != Posix
    ensures forall i | 0 <= i < |KeyOf(p, name)| :: !IsUpper(KeyOf(p, name)[i])
  {
    hide Fold, PrefixLength, IsUpper;
    FoldIsCase(p, name, "");
    var folded, key := Fold(p, name), KeyOf(p, name);
    assert forall i | 0 <= i < |key| :: key[i] == folded[|folded| - |key| + i];
  }

  lemma NothingIndexed(p: Platform, argv: seq<string>, key: string)
    requires key in FromArgv(p, argv).switches
    ensures argv != []
  {
  }
}
