/** A command line printed for Windows and read back by the documented rules. */
module CommandLineString {
  import opened Text
  import opened WindowsQuoting
  import opened CommandLine
  import opened CommandLineLaws

  /** A name is printed as it stands, so it may hold no blank and no quote. */
  predicate PlainName(name: string)
  {
    forall i | 0 <= i < |name| :: name[i] !in " \t\""
  }

  /** A token that the printed line carries through. A switch that ends in '=' loses it. */
  predicate Printable(token: string, asSwitch: bool, placeholders: bool)
  {
    if asSwitch then
      && token != "" && PlainName(NameOf(token))
      && IndexOf(token, '=') != |token| - 1
      && (ValueOf(token) != "" ==> Survives(ValueOf(token), placeholders))
    else Survives(token, placeholders)
  }

  /** Whether a token is printed as a switch. */
  predicate AsSwitch(p: Platform, token: string, parse: bool)
  {
    parse && token != TERMINATOR && IsSwitch(p, token)
  }

  predicate AllPrintable(p: Platform, tokens: seq<string>, parse: bool, placeholders: bool)
  {
    tokens == [] ||
    (&& Printable(tokens[0], AsSwitch(p, tokens[0], parse), placeholders)
     && AllPrintable(p, tokens[1..], parse && tokens[0] != TERMINATOR, placeholders))
  }

  /** Backslashes that no quote follows are literal. */
  lemma SplitLiteral(rest: string, started: bool, pending: nat, current: string)
    requires rest == "" || (rest[0] != '\\' && rest[0] != '"')
    ensures Split(rest, started, false, pending, current) == Split(rest, started, false, 0, current + Slashes(pending))
  {
    assert current + Slashes(pending) + Slashes(0) == current + Slashes(pending);
  }

  lemma {:induction false} SplitName(name: string, rest: string, started: bool, pending: nat, current: string)
    requires PlainName(name) && (rest == "" || (rest[0] != '\\' && rest[0] != '"'))
    ensures Split(name + rest, started, false, pending, current)
         == Split(rest, started || name != "", false, 0, current + Slashes(pending) + name)
    decreases |name|
  {
    hide Split;
    if name == "" {
      assert name + rest == rest;
      SplitLiteral(rest, started, pending, current);
      assert current + Slashes(pending) + name == current + Slashes(pending);
    } else {
      var after := name[1..] + rest;
      assert name + rest == [name[0]] + after;
      if name[0] == '\\' {
        SplitSlashes(1, after, started, false, pending, current);
        assert Slashes(1) == [name[0]];
        SplitName(name[1..], rest, true, pending + 1, current);
        assert current + Slashes(pending + 1) + name[1..] == current + Slashes(pending) + name;
      } else {
        SplitOrdinary(name[0], after, started, false, pending, current);
        SplitName(name[1..], rest, true, 0, current + Slashes(pending) + [name[0]]);
        assert current + Slashes(pending) + [name[0]] + Slashes(0) + name[1..] == current + Slashes(pending) + name;
      }
    }
  }

  /** A value after its '=', quoted or not. */
  lemma SplitValue(value: string, placeholders: bool, rest: string, current: string)
    requires Survives(value, placeholders)
    ensures Split("=" + Quote(value, placeholders) + rest, true, false, 0, current)
         == Split(rest, true, false, 0, current + "=" + value)
  {
    hide Split, Escape;
    assert "=" + Quote(value, placeholders) + rest == ['='] + (Quote(value, placeholders) + rest);
    SplitOrdinary('=', Quote(value, placeholders) + rest, true, false, 0, current);
    assert current + Slashes(0) + ['='] == current + "=";
    if NeedsQuoting(value, placeholders) {
      SplitQuoted(value, rest, true, current + "=");
    } else {
      SplitPlain(value, rest, true, current + "=");
    }
  }

  lemma SplitBareSwitch(token: string, rest: string)
    requires token != "" && PlainName(token) && (rest == "" || rest[0] == ' ')
    ensures Split(token + rest, false, false, 0, "") == Split(rest, true, false, 0, token)
  {
    hide Split;
    SplitName(token, rest, false, 0, "");
    assert "" + Slashes(0) + token == token;
  }

  lemma SplitSwitchWithValue(name: string, value: string, placeholders: bool, rest: string)
    requires PlainName(name) && name != "" && Survives(value, placeholders)
    ensures Split(name + ("=" + Quote(value, placeholders) + rest), false, false, 0, "")
         == Split(rest, true, false, 0, name + "=" + value)
  {
    hide Split, Quote, Survives;
    SplitName(name, "=" + Quote(value, placeholders) + rest, false, 0, "");
    assert "" + Slashes(0) + name == name;
    SplitValue(value, placeholders, rest, name);
  }

  lemma CutAndJoined(s: string, e: nat)
    requires e < |s| && s[e] == '='
    ensures s == s[..e] + "=" + s[e + 1..]
  {
  }

  lemma TokenParts(token: string)
    requires IndexOf(token, '=') != |token| - 1
    ensures ValueOf(token) == "" ==> NameOf(token) == token
    ensures ValueOf(token) != "" ==> token == NameOf(token) + "=" + ValueOf(token)
  {
    hide IndexOf;
    var e := IndexOf(token, '=');
    if e == |token| {
      assert token[..e] == token;
    } else {
      CutAndJoined(token, e);
      assert ValueOf(token) != "";
    }
  }

  /** A printed token is read back as one argument. */
  lemma SplitToken(p: Platform, token: string, asSwitch: bool, placeholders: bool, rest: string)
    requires p != Posix && Printable(token, asSwitch, placeholders)
    requires asSwitch ==> NameOf(token) != ""
    requires rest == "" || rest[0] == ' '
    ensures Split(PrintToken(p, token, asSwitch, placeholders) + rest, false, false, 0, "")
         == Split(rest, true, false, 0, token)
  {
    hide Split, Quote, IndexOf, Survives, PlainName, NameOf, ValueOf;
    if !asSwitch {
      SplitSurviving(token, placeholders, rest);
      return;
    }
    TokenParts(token);
    var name, value := NameOf(token), ValueOf(token);
    if value == "" {
      assert PrintToken(p, token, asSwitch, placeholders) == token;
      SplitBareSwitch(token, rest);
    } else {
      assert PrintToken(p, token, asSwitch, placeholders) + rest == name + ("=" + Quote(value, placeholders) + rest);
      SplitSwitchWithValue(name, value, placeholders, rest);
    }
  }

  /** A printable first token is read back, and then the others. */
  lemma FirstThenOthers(p: Platform, tokens: seq<string>, parse: bool, placeholders: bool)
    requires p != Posix && tokens != []
    requires Printable(tokens[0], AsSwitch(p, tokens[0], parse), placeholders)
    ensures
      Parse(PrintTokens(p, tokens, parse, placeholders))
      == [tokens[0]] + Parse(PrintTokens(p, tokens[1..], parse && tokens[0] != TERMINATOR, placeholders))
  {
    hide Split, PrintToken, IsSwitch, Printable, Fold, IndexOf;
    var parse' := parse && tokens[0] != TERMINATOR;
    var others := PrintTokens(p, tokens[1..], parse', placeholders);
    var rest := if |tokens| == 1 then "" else " " + others;
    if AsSwitch(p, tokens[0], parse) {
      SwitchParts(p, tokens[0]);
    }
    SplitToken(p, tokens[0], AsSwitch(p, tokens[0], parse), placeholders, rest);
    SplitBlank(others, true, tokens[0]);
    SplitBlank("", false, "");
  }

  /** The printed arguments of a line are read back exactly. */
  lemma {:induction false} PrintedReadsBack(p: Platform, tokens: seq<string>, parse: bool, placeholders: bool)
    requires p != Posix && AllPrintable(p, tokens, parse, placeholders)
    ensures Parse(PrintTokens(p, tokens, parse, placeholders)) == tokens
    decreases |tokens|
  {
    hide Split, PrintToken, IsSwitch, Printable, Fold, IndexOf;
    if tokens == [] {
      SplitBlank("", false, "");
    } else {
      FirstThenOthers(p, tokens, parse, placeholders);
      PrintedReadsBack(p, tokens[1..], parse && tokens[0] != TERMINATOR, placeholders);
      assert tokens == [tokens[0]] + tokens[1..];
    }
  }
}
