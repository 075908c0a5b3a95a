/** base/command_line.cc: a command line kept as a normalised argument vector, with an index
    of its switches. */
module CommandLine {
  import opened WindowsQuoting
  import opened Text

  /** On Windows a slash may also start a switch, and switch names are kept in lower case. */
  datatype Platform = Posix | Windows(slashIsSwitch: bool)

  const TERMINATOR: string := "--"

  // ----- Characters -----

  /** kWhitespaceASCII on POSIX, kWhitespaceUTF16 on Windows. */
  function BlanksOf(p: Platform): Blanks { if p == Posix then Ascii else Utf16 }

  function LowerChar(c: char): char
  {
    if 'A' <= c <= 'Z' then (c as int + 32) as char else c
  }

  /** ToLowerASCII. */
  function Lower(s: string): (r: string)
    ensures |r| == |s| && forall i | 0 <= i < |s| :: r[i] == LowerChar(s[i])
  {
    seq(|s|, i requires 0 <= i < |s| => LowerChar(s[i]))
  }

  /** The case in which switch names are kept. */
  function Fold(p: Platform, s: string): (r: string)
    ensures |r| == |s| && forall i | 0 <= i < |s| :: r[i] == s[i] || (r[i] == LowerChar(s[i]) && 'A' <= s[i] <= 'Z')
  {
    if p == Posix then s else Lower(s)
  }

  lemma FoldTwice(p: Platform, s: string)
    ensures Fold(p, Fold(p, s)) == Fold(p, s)
  {
  }

  // ----- Switches -----

  predicate StartsWith(s: string, prefix: string)
  {
    |prefix| <= |s| && s[..|prefix|] == prefix
  }

  function Prefixes(p: Platform): seq<string>
  {
    if p == Windows(true) then ["--", "-", "/"] else ["--", "-"]
  }

  /** The length of the switch prefix, longest first, or 0. */
  function PrefixLength(p: Platform, s: string): (n: nat)
    ensures n <= 2 && n <= |s|
  {
    if StartsWith(s, "--") then 2
    else if StartsWith(s, "-") || (p == Windows(true) && StartsWith(s, "/")) then 1
    else 0
  }

  /** GetSwitchPrefixLength. */
  method FindPrefix(p: Platform, s: string) returns (n: nat)
    ensures n == PrefixLength(p, s)
  {
    var prefixes := Prefixes(p);
    assert prefixes[0] == "--" && prefixes[1] == "-" && (|prefixes| == 3 ==> prefixes[2] == "/");
    for i := 0 to |prefixes|
      invariant forall j | 0 <= j < i :: !StartsWith(s, prefixes[j])
    {
      if StartsWith(s, prefixes[i]) {
        assert i > 0 ==> !StartsWith(s, prefixes[0]);
        return |prefixes[i]|;
      }
    }
    assert !StartsWith(s, prefixes[0]) && !StartsWith(s, prefixes[1]);
    assert p == Windows(true) ==> !StartsWith(s, prefixes[2]);
    return 0;
  }

  function NameOf(entry: string): string { entry[..IndexOf(entry, '=')] }

  function ValueOf(entry: string): string
  {
    if IndexOf(entry, '=') < |entry| then entry[IndexOf(entry, '=') + 1..] else ""
  }

  /** IsSwitch: a prefix, and something after it. */
  predicate IsSwitch(p: Platform, s: string)
  {
    PrefixLength(p, s) != 0 && PrefixLength(p, s) != |s|
  }

  /** The key under which a switch is indexed. */
  function KeyOf(p: Platform, name: string): string
  {
    Fold(p, name)[PrefixLength(p, Fold(p, name))..]
  }

  /** The entry that a switch becomes in the vector. */
  function Combined(p: Platform, name: string, value: string): string
  {
    (if PrefixLength(p, Fold(p, name)) == 0 then "--" else "")
    + Fold(p, name)
    + (if value == "" then "" else "=" + value)
  }

  // ----- The command line as a value -----

  datatype Line = Line(argv: seq<string>, switches: map<string, string>, beginArgs: nat)

  ghost predicate WellFormed(line: Line)
  {
    1 <= line.beginArgs <= |line.argv|
  }

  function WithSwitch(p: Platform, line: Line, name: string, value: string): Line
    requires WellFormed(line)
  {
    Line(line.argv[..line.beginArgs] + [Combined(p, name, value)] + line.argv[line.beginArgs..],
         line.switches[KeyOf(p, name) := value],
         line.beginArgs + 1)
  }

  function WithArg(line: Line, arg: string): Line
  {
    line.(argv := line.argv + [arg])
  }

  /** Trimmed tokens, in order; `parse` says that no terminator has been met. */
  function WithTokens(p: Platform, line: Line, tokens: seq<string>, parse: bool): (r: Line)
    requires WellFormed(line)
    ensures WellFormed(r)
    decreases |tokens|
  {
    if tokens == [] then line
    else
      var parse' := parse && tokens[0] != TERMINATOR;
      WithTokens(p,
                 if parse' && IsSwitch(p, tokens[0]) then WithSwitch(p, line, NameOf(tokens[0]), ValueOf(tokens[0]))
                 else WithArg(line, tokens[0]),
                 tokens[1..], parse')
  }

  lemma WithFirstToken(p: Platform, line: Line, token: string, tokens: seq<string>, parse: bool)
    requires WellFormed(line)
    ensures
      var parse' := parse && token != TERMINATOR;
      WithTokens(p, line, [token] + tokens, parse)
      == WithTokens(p, if parse' && IsSwitch(p, token) then WithSwitch(p, line, NameOf(token), ValueOf(token))
                       else WithArg(line, token), tokens, parse')
  {
    hide IsSwitch, NameOf, ValueOf, Combined, KeyOf;
    assert ([token] + tokens)[1..] == tokens;
  }

  lemma WithNoTokens(p: Platform, line: Line, parse: bool)
    requires WellFormed(line)
    ensures WithTokens(p, line, [], parse) == line
  {
  }

  function TrimAll(p: Platform, tokens: seq<string>): (r: seq<string>)
    ensures |r| == |tokens| && forall i | 0 <= i < |tokens| :: r[i] == Trim(BlanksOf(p), tokens[i])
  {
    seq(|tokens|, i requires 0 <= i < |tokens| => Trim(BlanksOf(p), tokens[i]))
  }

  /** InitFromArgv. */
  function FromArgv(p: Platform, argv: seq<string>): (r: Line)
    ensures WellFormed(r)
  {
    if argv == [] then Line([""], map[], 1)
    else WithTokens(p, Line([Trim(BlanksOf(p), argv[0])], map[], 1), TrimAll(p, argv[1..]), true)
  }

  // ----- The command line as a string -----

  /** Arguments and switch values are quoted on Windows only. */
  function QuoteOn(p: Platform, arg: string, placeholders: bool): string
  {
    if p == Posix then arg else Quote(arg, placeholders)
  }

  function PrintToken(p: Platform, arg: string, asSwitch: bool, placeholders: bool): string
  {
    if asSwitch then
      NameOf(arg) + (if ValueOf(arg) == "" then "" else "=" + QuoteOn(p, ValueOf(arg), placeholders))
    else QuoteOn(p, arg, placeholders)
  }

  /** GetArgumentsStringInternal, on the vector without the program. */
  function PrintTokens(p: Platform, args: seq<string>, parse: bool, placeholders: bool): string
  {
    if args == [] then ""
    else
      var parse' := parse && args[0] != TERMINATOR;
      PrintToken(p, args[0], parse' && IsSwitch(p, args[0]), placeholders)
      + (if |args| == 1 then "" else " " + PrintTokens(p, args[1..], parse', placeholders))
  }

  /** What the loop still has to append when `args` are left and something may be before them. */
  function PrintRest(p: Platform, args: seq<string>, parse: bool, placeholders: bool, first: bool): string
  {
    if args == [] then "" else (if first then "" else " ") + PrintTokens(p, args, parse, placeholders)
  }

  lemma PrintFirst(p: Platform, arg: string, args: seq<string>, parse: bool, placeholders: bool, first: bool)
    ensures
      var parse' := parse && arg != TERMINATOR;
      PrintRest(p, [arg] + args, parse, placeholders, first)
      == (if first then "" else " ") + PrintToken(p, arg, parse' && IsSwitch(p, arg), placeholders)
         + PrintRest(p, args, parse', placeholders, false)
  {
    hide IsSwitch, PrintToken;
    var all, parse' := [arg] + args, parse && arg != TERMINATOR;
    assert all[1..] == args && all[0] == arg;
    var printed := PrintToken(p, arg, parse' && IsSwitch(p, arg), placeholders);
    assert PrintTokens(p, all, parse, placeholders) == printed + PrintRest(p, args, parse', placeholders, false);
    assert (if first then "" else " ") + (printed + PrintRest(p, args, parse', placeholders, false))
        == (if first then "" else " ") + printed + PrintRest(p, args, parse', placeholders, false);
  }

  class CommandLine {
    const platform: Platform
    var argv: seq<string>
    var switches: map<string, string>
    var beginArgs: nat

    ghost function View(): Line
      reads this
    {
      Line(argv, switches, beginArgs)
    }

    ghost predicate Valid()
      reads this
    {
      WellFormed(View())
    }

    /** NO_PROGRAM. */
    constructor (platform: Platform)
      ensures Valid() && View() == Line([""], map[], 1) && this.platform == platform
    {
      this.platform := platform;
      argv := [""];
      switches := map[];
      beginArgs := 1;
    }

    method SetProgram(program: string)
      requires Valid()
      modifies this`argv
      ensures Valid() && View() == old(View()).(argv := old(argv)[0 := Trim(BlanksOf(platform), program)])
    {
      hide Trim;
      argv := argv[0 := Trim(BlanksOf(platform), program)];
    }

    method AppendSwitchNative(name: string, value: string)
      requires Valid()
      modifies this
      ensures Valid() && View() == WithSwitch(platform, old(View()), name, value)
    {
      var combined := Fold(platform, name);
      var prefixLength := FindPrefix(platform, combined);
      switches := switches[combined[prefixLength..] := value];
      if prefixLength == 0 {
        combined := "--" + combined;
      }
      if value != "" {
        combined := combined + "=" + value;
      }
      argv := argv[..beginArgs] + [combined] + argv[beginArgs..];
      beginArgs := beginArgs + 1;
      assert combined == Combined(platform, name, value);
    }

    method AppendArgNative(value: string)
      requires Valid()
      modifies this`argv
      ensures Valid() && View() == WithArg(old(View()), value)
    {
      argv := argv + [value];
    }

    method AppendSwitchesAndArguments(tokens: seq<string>)
      requires Valid()
      modifies this
      ensures Valid()
      ensures tokens != [] ==> View() == WithTokens(platform, old(View()), TrimAll(platform, tokens[1..]), true)
      ensures tokens == [] ==> View() == old(View())
    {
      hide Trim, IsSwitch, NameOf, ValueOf, Combined, KeyOf, WithTokens;
      var parse := true;
      var i := 1;
      if tokens == [] {
        return;
      }
      ghost var trimmed := TrimAll(platform, tokens[1..]);
      assert trimmed[0..] == trimmed;
      while i < |tokens|
        invariant 1 <= i <= |tokens| && Valid()
        invariant WithTokens(platform, View(), trimmed[i - 1..], parse)
               == WithTokens(platform, old(View()), trimmed, true)
      {
        var arg := Trim(BlanksOf(platform), tokens[i]);
        assert trimmed[i - 1..] == [arg] + trimmed[i..];
        WithFirstToken(platform, View(), arg, trimmed[i..], parse);
        parse := parse && arg != TERMINATOR;
        if parse && IsSwitch(platform, arg) {
          AppendSwitchNative(NameOf(arg), ValueOf(arg));
        } else {
          AppendArgNative(arg);
        }
        i := i + 1;
      }
      assert trimmed[i - 1..] == [];
      WithNoTokens(platform, View(), parse);
    }

    method InitFromArgv(tokens: seq<string>)
      modifies this
      ensures Valid() && View() == FromArgv(platform, tokens)
    {
      argv := [""];
      switches := map[];
      beginArgs := 1;
      SetProgram(if tokens == [] then "" else tokens[0]);
      AppendSwitchesAndArguments(tokens);
      assert [""][0 := Trim(BlanksOf(platform), if tokens == [] then "" else tokens[0])]
          == [Trim(BlanksOf(platform), if tokens == [] then "" else tokens[0])];
    }

    method GetArgumentsString(placeholders: bool) returns (params: string)
      requires Valid()
      ensures params == PrintTokens(platform, argv[1..], true, placeholders)
    {
      hide IsSwitch, PrintTokens, PrintRest, PrintToken;
      params := "";
      var parse := true;
      var i := 1;
      assert params + PrintRest(platform, argv[1..], true, placeholders, true)
          == PrintTokens(platform, argv[1..], true, placeholders) by { PrintStart(argv[1..], placeholders); }
      while i < |argv|
        invariant 1 <= i <= |argv|
        invariant params + PrintRest(platform, argv[i..], parse, placeholders, i == 1)
               == PrintTokens(platform, argv[1..], true, placeholders)
      {
        var arg := argv[i];
        ghost var before := params;
        assert argv[i..] == [arg] + argv[i + 1..];
        PrintFirst(platform, arg, argv[i + 1..], parse, placeholders, i == 1);
        parse := parse && arg != TERMINATOR;
        if i > 1 {
          params := params + " ";
        }
        var printed := Print(arg, parse && IsSwitch(platform, arg), placeholders);
        params := params + printed;
        i := i + 1;
        assert params == before + ((if i == 2 then "" else " ") + printed);
      }
      assert argv[i..] == [] && PrintRest(platform, [], parse, placeholders, i == 1) == "" by {
        PrintEnd(parse, placeholders, i == 1);
      }
    }

    /** One argument of the string. */
    method Print(arg: string, asSwitch: bool, placeholders: bool) returns (printed: string)
      ensures printed == PrintToken(platform, arg, asSwitch, placeholders)
    {
      hide Quote, NameOf, ValueOf;
      if asSwitch {
        printed := NameOf(arg);
        var value := ValueOf(arg);
        if value != "" {
          if platform != Posix {
            value := QuoteArgument(value, placeholders);
          }
          printed := printed + ("=" + value);
        }
      } else {
        printed := arg;
        if platform != Posix {
          printed := QuoteArgument(arg, placeholders);
        }
      }
    }

    lemma PrintStart(args: seq<string>, placeholders: bool)
      ensures PrintRest(platform, args, true, placeholders, true) == PrintTokens(platform, args, true, placeholders)
    {
    }

    lemma PrintEnd(parse: bool, placeholders: bool, first: bool)
      ensures PrintRest(platform, [], parse, placeholders, first) == ""
    {
    }

    /** The arguments, without the first terminator among them. */
    method GetArgs() returns (args: seq<string>)
      requires Valid()
      ensures args == WithoutFirst(argv[beginArgs..], TERMINATOR)
    {
      hide WithoutFirst;
      var all := argv[beginArgs..];
      var i := 0;
      while i < |all| && all[i] != TERMINATOR
        invariant i <= |all| && TERMINATOR !in all[..i]
      {
        i := i + 1;
      }
      WithoutFirstAt(all, TERMINATOR, i);
      if i < |all| {
        args := all[..i] + all[i + 1..];
      } else {
        args := all;
      }
    }
  }

  lemma {:induction false} WithoutFirstAt(s: seq<string>, x: string, i: nat)
    requires i <= |s| && x !in s[..i] && (i < |s| ==> s[i] == x)
    ensures WithoutFirst(s, x) == if i < |s| then s[..i] + s[i + 1..] else s
    decreases i
  {
    if i > 0 {
      var rest := s[1..];
      assert s[0] == s[..i][0];
      assert rest[..i - 1] == s[..i][1..];
      WithoutFirstAt(rest, x, i - 1);
      assert WithoutFirst(s, x) == [s[0]] + WithoutFirst(rest, x);
      assert s == [s[0]] + rest;
      assert i < |s| ==> [s[0]] + (rest[..i - 1] + rest[i..]) == s[..i] + s[i + 1..];
    }
  }

  function WithoutFirst(s: seq<string>, x: string): seq<string>
  {
    if s == [] then [] else if s[0] == x then s[1..] else [s[0]] + WithoutFirst(s[1..], x)
  }
}
