/** What a printed command line loses when it is read back: reading never yields more text than was
    printed, so that a line comes back exactly when every token of it is printable. */
module CommandLineLoss {
  import opened Text
  import opened WindowsQuoting
  import opened CommandLine
  import opened CommandLineLaws
  import opened CommandLineString

  // ----- How much text reading yields -----

  /** The number of characters that the backslash rules leave of a text after a run of `pending`
      backslashes, whether quotes are open or not. */
  function Yield(s: string, pending: nat): nat
    decreases |s|
  {
    if s == "" then pending
    else if s[0] == '\\' then Yield(s[1..], pending + 1)
    else if s[0] == '"' then pending / 2 + pending % 2 + Yield(s[1..], 0)
    else pending + 1 + Yield(s[1..], 0)
  }

  /** A blank that separates two arguments makes up for the second one. */
  lemma {:induction false} ReadYields(s: string, started: bool, quoted: bool, pending: nat, current: string)
    requires started || (current == "" && pending == 0)
    ensures Weight(Split(s, started, quoted, pending, current)) <= 1 + |current| + Yield(s, pending)
    decreases |s|
  {
    WeightOne(current + Slashes(pending));
    if s != "" {
      var rest := s[1..];
      if s[0] == '\\' {
        ReadYields(rest, true, quoted, pending + 1, current);
      } else if s[0] == '"' {
        if pending % 2 == 0 {
          ReadYields(rest, true, !quoted, 0, current + Slashes(pending / 2));
        } else {
          ReadYields(rest, true, quoted, 0, current + Slashes(pending / 2) + "\"");
        }
      } else if (s[0] == ' ' || s[0] == '\t') && !quoted {
        ReadYields(rest, false, false, 0, "");
        WeightConcat(if started then [current + Slashes(pending)] else [], Split(rest, false, false, 0, ""));
      } else {
        ReadYields(rest, true, quoted, 0, current + Slashes(pending) + [s[0]]);
      }
    }
  }

  lemma YieldFirst(c: char, rest: string, pending: nat)
    ensures Yield([c] + rest, pending)
         == if c == '\\' then Yield(rest, pending + 1)
            else if c == '"' then pending / 2 + pending % 2 + Yield(rest, 0)
            else pending + 1 + Yield(rest, 0)
  {
    assert ([c] + rest)[1..] == rest;
  }

  /** Raw text, with something after it that does not look back at its backslashes. Every quote in
      it is lost, or a backslash before it. */
  lemma {:induction false} YieldRaw(text: string, rest: string, pending: nat)
    requires rest == "" || (rest[0] != '\\' && rest[0] != '"')
    ensures Yield(text + rest, pending) <= pending + |text| + Yield(rest, 0)
    ensures '"' in text ==> Yield(text + rest, pending) < pending + |text| + Yield(rest, 0)
    decreases |text|
  {
    if text == "" {
      assert text + rest == rest;
    } else {
      assert text + rest == [text[0]] + (text[1..] + rest);
      YieldFirst(text[0], text[1..] + rest, pending);
      YieldRaw(text[1..], rest, if text[0] == '\\' then pending + 1 else 0);
    }
  }

  lemma {:induction false} YieldSlashes(n: nat, rest: string, pending: nat)
    ensures Yield(Slashes(n) + rest, pending) == Yield(rest, pending + n)
  {
    if n == 0 {
      assert Slashes(0) + rest == rest;
    } else {
      assert Slashes(n) + rest == ['\\'] + (Slashes(n - 1) + rest);
      YieldFirst('\\', Slashes(n - 1) + rest, pending);
      YieldSlashes(n - 1, rest, pending + 1);
    }
  }

  lemma Halves(n: nat)
    ensures 2 * n / 2 == n && 2 * n % 2 == 0 && (2 * n + 1) / 2 == n && (2 * n + 1) % 2 == 1
  {
  }

  /** A quote after doubled backslashes, and after one more. */
  lemma YieldMark(rest: string, n: nat)
    ensures Yield("\"" + rest, 2 * n) == n + Yield(rest, 0)
    ensures Yield("\"" + rest, 2 * n + 1) == n + 1 + Yield(rest, 0)
  {
    hide Yield;
    Halves(n);
    YieldFirst('"', rest, 2 * n);
    YieldFirst('"', rest, 2 * n + 1);
  }

  lemma Regrouped(slashes: string, mark: string, escaped: string, after: string)
    ensures slashes + (mark + escaped) + after == slashes + (mark + (escaped + after))
  {
  }

  /** An escaped text and its closing quote yield the text. */
  lemma {:induction false} YieldEscaped(s: string, pending: nat, rest: string)
    ensures Yield(Escape(s, pending) + ("\"" + rest), 0) == pending + |s| + Yield(rest, 0)
    decreases |s|
  {
    hide Yield, Escape, Slashes;
    var after := "\"" + rest;
    if s == "" {
      EscapeEnd(pending);
      YieldSlashes(2 * pending, after, 0);
      YieldMark(rest, pending);
    } else {
      EscapeFirst(s, pending);
      var escaped := Escape(s[1..], 0);
      if s[0] == '\\' {
        YieldEscaped(s[1..], pending + 1, rest);
      } else if s[0] == '"' {
        Regrouped(Slashes(2 * pending + 1), "\"", escaped, after);
        YieldSlashes(2 * pending + 1, "\"" + (escaped + after), 0);
        YieldMark(escaped + after, pending);
        YieldEscaped(s[1..], 0, rest);
      } else {
        Regrouped(Slashes(pending), [s[0]], escaped, after);
        YieldSlashes(pending, [s[0]] + (escaped + after), 0);
        YieldFirst(s[0], escaped + after, pending);
        YieldEscaped(s[1..], 0, rest);
      }
    }
  }

  lemma YieldQuote(arg: string, placeholders: bool, rest: string)
    requires rest == "" || rest[0] == ' '
    ensures Yield(Quote(arg, placeholders) + rest, 0) <= |arg| + Yield(rest, 0)
  {
    hide Yield, Escape;
    if NeedsQuoting(arg, placeholders) {
      var tail := Escape(arg, 0) + ("\"" + rest);
      assert Quote(arg, placeholders) + rest == ['"'] + tail;
      YieldFirst('"', tail, 0);
      YieldEscaped(arg, 0, rest);
    } else {
      YieldRaw(arg, rest, 0);
    }
  }

  /** A printed token yields at most itself, and less if its name, which is printed as it stands,
      holds a quote. */
  lemma YieldToken(p: Platform, token: string, asSwitch: bool, placeholders: bool, rest: string)
    requires p != Posix && (rest == "" || rest[0] == ' ')
    ensures Yield(PrintToken(p, token, asSwitch, placeholders) + rest, 0) <= |token| + Yield(rest, 0)
    ensures asSwitch && '"' in NameOf(token) ==>
      Yield(PrintToken(p, token, asSwitch, placeholders) + rest, 0) < |token| + Yield(rest, 0)
  {
    hide Yield, Quote, IndexOf;
    if !asSwitch {
      YieldQuote(token, placeholders, rest);
    } else {
      var name, value := NameOf(token), ValueOf(token);
      if value == "" {
        assert PrintToken(p, token, asSwitch, placeholders) == name;
        YieldRaw(name, rest, 0);
      } else {
        var tail := Quote(value, placeholders) + rest;
        assert PrintToken(p, token, asSwitch, placeholders) + rest == name + (['='] + tail);
        YieldRaw(name, ['='] + tail, 0);
        YieldFirst('=', tail, 0);
        YieldQuote(value, placeholders, rest);
      }
    }
  }

  /** Some switch name holds a quote. */
  predicate RawQuote(p: Platform, tokens: seq<string>, parse: bool)
  {
    tokens != [] &&
    (|| (AsSwitch(p, tokens[0], parse) && '"' in NameOf(tokens[0]))
     || RawQuote(p, tokens[1..], parse && tokens[0] != TERMINATOR))
  }

  lemma WeightFirst(ss: seq<string>)
    requires ss != []
    ensures Weight(ss) == 1 + |ss[0]| + Weight(ss[1..])
  {
    hide Weight;
    assert ss == [ss[0]] + ss[1..];
    WeightConcat([ss[0]], ss[1..]);
    WeightOne(ss[0]);
  }

  lemma {:induction false} YieldLine(p: Platform, tokens: seq<string>, parse: bool, placeholders: bool)
    requires p != Posix && tokens != []
    ensures 1 + Yield(PrintTokens(p, tokens, parse, placeholders), 0) <= Weight(tokens)
    ensures RawQuote(p, tokens, parse) ==> 1 + Yield(PrintTokens(p, tokens, parse, placeholders), 0) < Weight(tokens)
    decreases |tokens|
  {
    hide Yield, PrintToken, IsSwitch, Weight, NameOf;
    var parse' := parse && tokens[0] != TERMINATOR;
    var others := PrintTokens(p, tokens[1..], parse', placeholders);
    var rest := if |tokens| == 1 then "" else " " + others;
    YieldToken(p, tokens[0], AsSwitch(p, tokens[0], parse), placeholders, rest);
    WeightFirst(tokens);
    YieldNothing();
    if |tokens| > 1 {
      YieldFirst(' ', others, 0);
      YieldLine(p, tokens[1..], parse', placeholders);
    } else {
      assert !RawQuote(p, tokens[1..], parse');
    }
  }

  lemma YieldNothing()
    ensures Yield("", 0) == 0 && Weight([]) == 0
  {
  }

  // ----- How raw text without quotes is read -----

  /** The arguments that are complete, and the one under way. */
  datatype Reading = Reading(done: seq<string>, started: bool, current: string)

  function Raw(u: string, started: bool, current: string): Reading
  {
    if u == "" then Reading([], started, current)
    else if u[0] == ' ' || u[0] == '\t' then
      var r := Raw(u[1..], false, "");
      r.(done := (if started then [current] else []) + r.done)
    else Raw(u[1..], true, current + [u[0]])
  }

  lemma {:induction false} SplitRaw(u: string, rest: string, started: bool, pending: nat, current: string)
    requires '"' !in u && (rest == "" || (rest[0] != '\\' && rest[0] != '"'))
    requires started || (current == "" && pending == 0)
    ensures
      var r := Raw(u, started, current + Slashes(pending));
      Split(u + rest, started, false, pending, current) == r.done + Split(rest, r.started, false, 0, r.current)
    decreases |u|
  {
    if u == "" {
      assert u + rest == rest;
      SplitLiteral(rest, started, pending, current);
    } else {
      var after := u[1..] + rest;
      assert u + rest == [u[0]] + after;
      if u[0] == '\\' {
        assert current + Slashes(pending + 1) == current + Slashes(pending) + [u[0]];
        SplitRaw(u[1..], rest, true, pending + 1, current);
      } else if u[0] == ' ' || u[0] == '\t' {
        SplitRaw(u[1..], rest, false, 0, "");
        assert "" + Slashes(0) == "";
      } else {
        var next := current + Slashes(pending) + [u[0]];
        assert next + Slashes(0) == next;
        SplitRaw(u[1..], rest, true, 0, next);
      }
    }
  }

  /** Splitting keeps the weight where each blank ends an argument; it then makes more than one. */
  lemma {:induction false} RawWeight(u: string, started: bool, current: string)
    requires started || current == ""
    ensures
      var r := Raw(u, started, current);
      && (r.started || r.current == "")
      && Weight(r.done) + |r.current| <= |current| + |u|
      && (Weight(r.done) + |r.current| == |current| + |u| && r.done == [] && r.started ==>
            forall i | 0 <= i < |u| :: u[i] != ' ' && u[i] != '\t')
    decreases |u|
  {
    if u == "" {
      YieldNothing();
    } else if u[0] == ' ' || u[0] == '\t' {
      RawWeight(u[1..], false, "");
      var r := Raw(u[1..], false, "");
      WeightOne(current);
      WeightConcat(if started then [current] else [], r.done);
    } else {
      RawWeight(u[1..], true, current + [u[0]]);
    }
  }

  /** The arguments read from one printed token. They weigh no more than the token; if they weigh as
      much there is at least one, and if there is just one the token is printable. */
  ghost predicate PiecesOf(token: string, asSwitch: bool, placeholders: bool, pieces: seq<string>)
  {
    && Weight(pieces) <= 1 + |token|
    && (Weight(pieces) == 1 + |token| ==> pieces != [])
    && (Weight(pieces) == 1 + |token| && |pieces| == 1 ==> Printable(token, asSwitch, placeholders))
  }

  ghost predicate NoBlanks(u: string)
  {
    forall i | 0 <= i < |u| :: u[i] != ' ' && u[i] != '\t'
  }

  /** Raw text as a whole token. */
  lemma RawPieces(u: string, rest: string) returns (pieces: seq<string>)
    requires '"' !in u && (rest == "" || rest[0] == ' ')
    ensures Parse(u + rest) == pieces + Parse(rest)
    ensures Weight(pieces) <= 1 + |u| && (Weight(pieces) == 1 + |u| ==> pieces != [])
    ensures Weight(pieces) == 1 + |u| && |pieces| == 1 ==> u != "" && NoBlanks(u)
  {
    hide Split, Weight;
    SplitRaw(u, rest, false, 0, "");
    assert "" + Slashes(0) == "";
    RawWeight(u, false, "");
    var r := Raw(u, false, "");
    var last := if r.started then [r.current] else [];
    pieces := r.done + last;
    AfterToken(rest, r.started, r.current);
    assert r.done + (last + Parse(rest)) == pieces + Parse(rest);
    WeightConcat(r.done, last);
    WeightOne(r.current);
    YieldNothing();
  }

  lemma AfterToken(rest: string, started: bool, current: string)
    requires (rest == "" || rest[0] == ' ') && (started || current == "")
    ensures Split(rest, started, false, 0, current) == (if started then [current] else []) + Parse(rest)
  {
    assert current + Slashes(0) == current;
    if rest != "" {
      var others := rest[1..];
      assert rest == " " + others;
      SplitBlank(others, started, current);
      SplitBlank(others, false, "");
    }
  }

  lemma ArgumentPieces(p: Platform, arg: string, placeholders: bool, rest: string) returns (pieces: seq<string>)
    requires p != Posix && (rest == "" || rest[0] == ' ')
    ensures Parse(PrintToken(p, arg, false, placeholders) + rest) == pieces + Parse(rest)
    ensures PiecesOf(arg, false, placeholders, pieces)
  {
    hide Split, Escape, Weight;
    if NeedsQuoting(arg, placeholders) {
      pieces := [arg];
      SplitSurviving(arg, placeholders, rest);
      AfterToken(rest, true, arg);
      WeightOne(arg);
    } else {
      assert forall i | 0 <= i < |arg| :: !Quotable(arg[i], placeholders);
      pieces := RawPieces(arg, rest);
    }
  }

  lemma SwitchPieces(p: Platform, token: string, placeholders: bool, rest: string) returns (pieces: seq<string>)
    requires p != Posix && IsSwitch(p, token) && '"' !in NameOf(token) && (rest == "" || rest[0] == ' ')
    ensures Parse(PrintToken(p, token, true, placeholders) + rest) == pieces + Parse(rest)
    ensures PiecesOf(token, true, placeholders, pieces)
  {
    hide Split, Weight, IndexOf, PrefixLength, NeedsQuoting, Quote, Parse;
    SwitchParts(p, token);
    var name, value := NameOf(token), ValueOf(token);
    if value == "" {
      assert PrintToken(p, token, true, placeholders) == name;
      pieces := RawPieces(name, rest);
    } else {
      CutAndJoined(token, IndexOf(token, '='));
      if NeedsQuoting(value, placeholders) {
        pieces := QuotedValuePieces(name, value, placeholders, rest);
        assert PrintToken(p, token, true, placeholders) + rest == name + ("=" + Quote(value, placeholders) + rest);
        assert NeedsQuoting(value, placeholders) ==> Survives(value, placeholders) by { QuotedSurvives(value, placeholders); }
      } else {
        RawValue(name, value, placeholders);
        assert PrintToken(p, token, true, placeholders) == token;
        pieces := RawPieces(token, rest);
        if NoBlanks(token) {
          RawSurvives(name, value, placeholders);
        }
      }
    }
  }

  lemma QuotedSurvives(value: string, placeholders: bool)
    requires NeedsQuoting(value, placeholders)
    ensures Survives(value, placeholders)
  {
  }

  lemma RawValue(name: string, value: string, placeholders: bool)
    requires !NeedsQuoting(value, placeholders) && '"' !in name
    ensures Quote(value, placeholders) == value && '"' !in name + "=" + value
  {
    assert forall i | 0 <= i < |value| :: !Quotable(value[i], placeholders);
  }

  lemma RawSurvives(name: string, value: string, placeholders: bool)
    requires NoBlanks(name + "=" + value) && value != ""
    ensures NoBlanks(name) && Survives(value, placeholders)
  {
    var token := name + "=" + value;
    assert forall i | 0 <= i < |name| :: name[i] == token[i];
    assert forall i | 0 <= i < |value| :: value[i] == token[|name| + 1 + i];
  }

  lemma QuotedValuePieces(name: string, value: string, placeholders: bool, rest: string) returns (pieces: seq<string>)
    requires '"' !in name && NeedsQuoting(value, placeholders) && (rest == "" || rest[0] == ' ') && name != ""
    ensures Parse(name + ("=" + Quote(value, placeholders) + rest)) == pieces + Parse(rest)
    ensures Weight(pieces) <= 1 + |name| + 1 + |value| && pieces != []
    ensures Weight(pieces) == 1 + |name| + 1 + |value| && |pieces| == 1 ==> NoBlanks(name)
  {
    hide Split, Weight, Escape;
    var after := "=" + Quote(value, placeholders) + rest;
    SplitRaw(name, after, false, 0, "");
    assert "" + Slashes(0) == "";
    RawWeight(name, false, "");
    var r := Raw(name, false, "");
    var whole := r.current + "=" + value;
    ValueThenRest(value, placeholders, rest, r.started, r.current);
    pieces := r.done + [whole];
    AfterToken(rest, true, whole);
    assert r.done + ([whole] + Parse(rest)) == pieces + Parse(rest);
    WeightConcat(r.done, [whole]);
    WeightOne(whole);
    YieldNothing();
  }

  /** As SplitValue, wherever the '=' stands. */
  lemma ValueThenRest(value: string, placeholders: bool, rest: string, started: bool, current: string)
    requires NeedsQuoting(value, placeholders) && (started || current == "")
    ensures Split("=" + Quote(value, placeholders) + rest, started, false, 0, current)
         == Split(rest, true, false, 0, current + "=" + value)
  {
    hide Split, Escape;
    var quoted := Quote(value, placeholders) + rest;
    assert "=" + Quote(value, placeholders) + rest == ['='] + quoted;
    SplitOrdinary('=', quoted, started, false, 0, current);
    assert current + Slashes(0) + ['='] == current + "=";
    SplitQuoted(value, rest, true, current + "=");
  }

  /** A whole line: reading keeps the weight and the number of arguments only of printable tokens. */
  lemma {:induction false} LineRead(p: Platform, tokens: seq<string>, parse: bool, placeholders: bool)
    requires p != Posix && !RawQuote(p, tokens, parse)
    ensures
      var read := Parse(PrintTokens(p, tokens, parse, placeholders));
      && Weight(read) <= Weight(tokens)
      && (Weight(read) == Weight(tokens) ==> |read| >= |tokens|)
      && (Weight(read) == Weight(tokens) && |read| == |tokens| ==> AllPrintable(p, tokens, parse, placeholders))
    decreases |tokens|
  {
    hide Parse, PrintToken, IsSwitch, Weight, NameOf, Printable;
    YieldNothing();
    if tokens == [] {
      NothingRead();
    } else {
      var parse', asSwitch := parse && tokens[0] != TERMINATOR, AsSwitch(p, tokens[0], parse);
      var others := PrintTokens(p, tokens[1..], parse', placeholders);
      var rest := if |tokens| == 1 then "" else " " + others;
      var pieces;
      if asSwitch {
        pieces := SwitchPieces(p, tokens[0], placeholders, rest);
      } else {
        pieces := ArgumentPieces(p, tokens[0], placeholders, rest);
      }
      LineRead(p, tokens[1..], parse', placeholders);
      SpaceSkipped(others);
      WeightFirst(tokens);
      WeightConcat(pieces, Parse(others));
    }
  }

  lemma NothingRead()
    ensures Parse("") == []
  {
  }

  lemma SpaceSkipped(others: string)
    ensures Parse(" " + others) == Parse(others)
  {
    SplitBlank(others, false, "");
  }

  /** The same with any names: a quote in one of them loses weight. */
  lemma KeptOnlyIfPrintable(p: Platform, tokens: seq<string>, parse: bool, placeholders: bool)
    requires p != Posix
    ensures
      var read := Parse(PrintTokens(p, tokens, parse, placeholders));
      && Weight(read) <= Weight(tokens)
      && (Weight(read) == Weight(tokens) && |read| == |tokens| ==> AllPrintable(p, tokens, parse, placeholders))
  {
    if RawQuote(p, tokens, parse) {
      hide Split, Yield;
      YieldLine(p, tokens, parse, placeholders);
      ReadYields(PrintTokens(p, tokens, parse, placeholders), false, false, 0, "");
    } else {
      LineRead(p, tokens, parse, placeholders);
    }
  }

  /** The printed arguments of a line are read back by the documented rules exactly when every one
      of them is printable. */
  lemma ReadsBackIffPrintable(p: Platform, tokens: seq<string>, parse: bool, placeholders: bool)
    requires p != Posix
    ensures Parse(PrintTokens(p, tokens, parse, placeholders)) == tokens <==> AllPrintable(p, tokens, parse, placeholders)
  {
    hide Parse, PrintTokens, AllPrintable, Weight;
    KeptOnlyIfPrintable(p, tokens, parse, placeholders);
    if AllPrintable(p, tokens, parse, placeholders) {
      PrintedReadsBack(p, tokens, parse, placeholders);
    }
  }

  // ----- The line in a child process -----

  lemma {:induction false} PartitionWeight(p: Platform, tokens: seq<string>, parse: bool)
    ensures Weight(SwitchTokens(p, tokens, parse)) + Weight(ArgTokens(p, tokens, parse)) == Weight(tokens)
    ensures |SwitchTokens(p, tokens, parse)| + |ArgTokens(p, tokens, parse)| == |tokens|
    decreases |tokens|
  {
    hide Weight, IsSwitch, SwitchTokens, ArgTokens;
    YieldNothing();
    if tokens == [] {
      NoTokens(p, parse);
    } else {
      var parse' := parse && tokens[0] != TERMINATOR;
      var switches, args := SwitchTokens(p, tokens[1..], parse'), ArgTokens(p, tokens[1..], parse');
      FirstToken(p, tokens, parse);
      PartitionWeight(p, tokens[1..], parse');
      WeightFirst(tokens);
      WeightOne(tokens[0]);
      WeightConcat([tokens[0]], switches);
      WeightConcat([tokens[0]], args);
    }
  }

  /** Strings that are each no longer weigh no more. */
  lemma {:induction false} LighterEach(xs: seq<string>, ys: seq<string>)
    requires |xs| == |ys| && forall i | 0 <= i < |xs| :: |xs[i]| <= |ys[i]|
    ensures Weight(xs) <= Weight(ys)
  {
    if xs != [] {
      LighterEach(xs[..|xs| - 1], ys[..|ys| - 1]);
    }
  }

  /** Parsing adds no text and drops no token. */
  lemma ParsedWeight(p: Platform, argv: seq<string>)
    requires argv != []
    ensures Weight(FromArgv(p, argv).argv[1..]) <= Weight(argv[1..]) && |FromArgv(p, argv).argv| == |argv|
  {
    hide Weight, FromArgv, SwitchTokens, ArgTokens, Stored, Trim;
    var tokens := TrimAll(p, argv[1..]);
    var switches, args := SwitchTokens(p, tokens, true), ArgTokens(p, tokens, true);
    FromArgvPartition(p, argv);
    assert FromArgv(p, argv).argv[1..] == StoredAll(p, switches) + args;
    WeightConcat(StoredAll(p, switches), args);
    PartitionWeight(p, tokens, true);
    forall i | 0 <= i < |switches|
      ensures |StoredAll(p, switches)[i]| <= |switches[i]|
    {
      SwitchTokensAre(p, tokens, true);
      assert switches[i] in switches;
      StoredIsShorter(p, switches[i]);
    }
    LighterEach(StoredAll(p, switches), switches);
    forall i | 0 <= i < |tokens|
      ensures |tokens[i]| <= |argv[1..][i]|
    {
      TrimFacts(BlanksOf(p), argv[1..][i]);
    }
    LighterEach(tokens, argv[1..]);
  }

  lemma StoredIsShorter(p: Platform, token: string)
    requires IsSwitch(p, token)
    ensures |Stored(p, token)| <= |token|
  {
    hide Stored, PrefixLength;
    StoredParts(p, token);
  }

  /** A parsed line that is printed for a child process is the same line in the child if and only if
      none of its switches is lossy and all its tokens are printable. */
  lemma SameInChildIff(p: Platform, argv: seq<string>, placeholders: bool)
    requires p != Posix
    ensures
      var line := FromArgv(p, argv);
      FromArgv(p, [line.argv[0]] + Parse(PrintTokens(p, line.argv[1..], true, placeholders))) == line
      <==> (&& (forall t | t in SwitchTokens(p, TokensOf(p, argv), true) :: !Lossy(p, t))
            && AllPrintable(p, line.argv[1..], true, placeholders))
  {
    hide FromArgv, Parse, AllPrintable, PrintTokens, SwitchTokens, Lossy, Weight, TokensOf;
    var line := FromArgv(p, argv);
    var tokens := line.argv[1..];
    var read := Parse(PrintTokens(p, tokens, true, placeholders));
    var given := [line.argv[0]] + read;
    assert given[1..] == read;
    ParsedWeight(p, given);
    KeptOnlyIfPrintable(p, tokens, true, placeholders);
    ReadsBackIffPrintable(p, tokens, true, placeholders);
    ParsedTwiceIffNoneLossy(p, argv);
    assert [line.argv[0]] + tokens == line.argv;
    if FromArgv(p, given) == line {
      assert Weight(read) == Weight(tokens) && |read| == |tokens|;
    }
  }
}
