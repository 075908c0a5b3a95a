/** Quoting of command-line arguments for CommandLineToArgvW (base/command_line.cc), and the
    documented parsing rules that it must survive. */
module WindowsQuoting {

  function Slashes(n: nat): (s: string)
    ensures |s| == n
  {
    seq(n, _ => '\\')
  }

  // ----- The documented rules -----

  /** Splits a command line. Backslashes are literal unless a quote follows the run: then each
      pair gives one, and an odd one makes the quote literal. Other quotes open and close
      quoted text. Blanks outside quoted text separate arguments.
      `started` says that an argument has begun, `quoted` that a quote is open, `pending` how
      many backslashes have just been read, and `current` is the argument so far. */
  function Split(s: string, started: bool, quoted: bool, pending: nat, current: string): seq<string>
    decreases |s|
  {
    if s == "" then
      if started then [current + Slashes(pending)] else []
    else if s[0] == '\\' then
      Split(s[1..], true, quoted, pending + 1, current)
    else if s[0] == '"' then
      if pending % 2 == 0 then Split(s[1..], true, !quoted, 0, current + Slashes(pending / 2))
      else Split(s[1..], true, quoted, 0, current + Slashes(pending / 2) + "\"")
    else if (s[0] == ' ' || s[0] == '\t') && !quoted then
      (if started then [current + Slashes(pending)] else []) + Split(s[1..], false, false, 0, "")
    else
      Split(s[1..], true, quoted, 0, current + Slashes(pending) + [s[0]])
  }

  function Parse(s: string): seq<string>
  {
    Split(s, false, false, 0, "")
  }

  // ----- The quoting -----

  predicate Quotable(c: char, placeholders: bool)
  {
    c == ' ' || c == '\\' || c == '"' || (placeholders && c == '%')
  }

  predicate NeedsQuoting(arg: string, placeholders: bool)
  {
    exists i | 0 <= i < |arg| :: Quotable(arg[i], placeholders)
  }

  /** `s` after a run of `pending` backslashes, for the inside of a quoted argument: a run
      before a quote or the end is doubled, and a quote gets a backslash. */
  function Escape(s: string, pending: nat): string
    decreases |s|
  {
    if s == "" then Slashes(2 * pending)
    else if s[0] == '\\' then Escape(s[1..], pending + 1)
    else if s[0] == '"' then Slashes(2 * pending) + "\\\"" + Escape(s[1..], 0)
    else Slashes(pending) + [s[0]] + Escape(s[1..], 0)
  }

  function Quote(arg: string, placeholders: bool): string
  {
    if NeedsQuoting(arg, placeholders) then "\"" + Escape(arg, 0) + "\"" else arg
  }

  lemma {:induction false} EscapeRun(arg: string, start: nat, end: nat)
    requires start <= end <= |arg| && forall i | start <= i < end :: arg[i] == '\\'
    ensures Escape(arg[start..], 0) == Escape(arg[end..], end - start)
    decreases end
  {
    if start < end {
      EscapeRun(arg, start, end - 1);
      assert arg[end - 1..][0] == '\\';
      assert arg[end - 1..][1..] == arg[end..];
    }
  }

  /** Once a run is written, what is left is the escape of the rest. */
  lemma AfterRun(arg: string, start: nat, end: nat)
    requires start < end <= |arg| && (end < |arg| ==> arg[end] != '\\')
    requires forall i | start <= i < end :: arg[i] == '\\'
    ensures Escape(arg[start..], 0)
         == Slashes(if end == |arg| || arg[end] == '"' then 2 * (end - start) else end - start) + Escape(arg[end..], 0)
  {
    EscapeRun(arg, start, end);
    assert Slashes(0) == "";
  }

  lemma AfterCharacter(arg: string, i: nat)
    requires i < |arg| && arg[i] != '\\'
    ensures Escape(arg[i..], 0) == (if arg[i] == '"' then "\\\"" else [arg[i]]) + Escape(arg[i + 1..], 0)
  {
    assert Slashes(0) == "";
    assert arg[i..][1..] == arg[i + 1..];
  }

  lemma EscapeNothing()
    ensures Escape("", 0) == ""
  {
  }

  /** find_first_of. */
  method HasQuotable(arg: string, placeholders: bool) returns (found: bool)
    ensures found == NeedsQuoting(arg, placeholders)
  {
    var i := 0;
    while i < |arg|
      invariant i <= |arg|
      invariant forall j | 0 <= j < i :: !Quotable(arg[j], placeholders)
    {
      if Quotable(arg[i], placeholders) {
        return true;
      }
      i := i + 1;
    }
    return false;
  }

  /** QuoteForCommandLineToArgvW. */
  method QuoteArgument(arg: string, placeholders: bool) returns (out: string)
    ensures out == Quote(arg, placeholders)
  {
    hide Slashes, Escape;
    var quotable := HasQuotable(arg, placeholders);
    if !quotable {
      return arg;
    }
    out := "\"";
    var i := 0;
    assert arg[0..] == arg;
    while i < |arg|
      invariant i <= |arg|
      invariant out + Escape(arg[i..], 0) == "\"" + Escape(arg, 0)
    {
      ghost var before := out;
      if arg[i] == '\\' {
        var start, end := i, i + 1;
        while end < |arg| && arg[end] == '\\'
          invariant start < end <= |arg| && forall j | start <= j < end :: arg[j] == '\\'
        {
          end := end + 1;
        }
        var count := end - start;
        if end == |arg| || arg[end] == '"' {
          count := count * 2;
        }
        AfterRun(arg, start, end);
        out := out + Slashes(count);
        i := end;
        assert out + Escape(arg[i..], 0) == before + (Slashes(count) + Escape(arg[i..], 0));
      } else {
        AfterCharacter(arg, i);
        var written := if arg[i] == '"' then "\\\"" else [arg[i]];
        out := out + written;
        i := i + 1;
        assert out + Escape(arg[i..], 0) == before + (written + Escape(arg[i..], 0));
      }
    }
    EscapeNothing();
    assert arg[i..] == "";
    out := out + "\"";
  }

  // ----- Quoted arguments are read back -----

  lemma {:induction false} SplitSlashes(n: nat, rest: string, started: bool, quoted: bool, pending: nat, current: string)
    ensures Split(Slashes(n) + rest, started, quoted, pending, current)
         == Split(rest, started || n > 0, quoted, pending + n, current)
  {
    if n == 0 {
      assert Slashes(0) + rest == rest;
    } else {
      var s := Slashes(n) + rest;
      assert s[0] == '\\' && s[1..] == Slashes(n - 1) + rest;
      SplitSlashes(n - 1, rest, true, quoted, pending + 1, current);
    }
  }

  lemma SplitQuote(rest: string, started: bool, quoted: bool, pending: nat, current: string)
    ensures Split("\"" + rest, started, quoted, pending, current)
         == if pending % 2 == 0 then Split(rest, true, !quoted, 0, current + Slashes(pending / 2))
            else Split(rest, true, quoted, 0, current + Slashes(pending / 2) + "\"")
  {
    assert ("\"" + rest)[1..] == rest;
  }

  lemma SplitOrdinary(c: char, rest: string, started: bool, quoted: bool, pending: nat, current: string)
    requires c != '\\' && c != '"' && (quoted || (c != ' ' && c != '\t'))
    ensures Split([c] + rest, started, quoted, pending, current)
         == Split(rest, true, quoted, 0, current + Slashes(pending) + [c])
  {
    assert ([c] + rest)[1..] == rest;
  }

  lemma EscapeFirst(s: string, pending: nat)
    requires s != ""
    ensures Escape(s, pending)
         == if s[0] == '\\' then Escape(s[1..], pending + 1)
            else if s[0] == '"' then Slashes(2 * pending + 1) + ("\"" + Escape(s[1..], 0))
            else Slashes(pending) + ([s[0]] + Escape(s[1..], 0))
  {
    if s[0] == '"' {
      assert Slashes(2 * pending + 1) == Slashes(2 * pending) + "\\";
    }
  }

  /** The text read so far, one character later. */
  lemma ReadOn(current: string, pending: nat, s: string)
    requires s != ""
    ensures s[0] == '\\' ==> current + Slashes(pending + 1) + s[1..] == current + Slashes(pending) + s
    ensures current + Slashes(pending) + [s[0]] + Slashes(0) + s[1..] == current + Slashes(pending) + s
  {
    assert s == [s[0]] + s[1..];
    assert s[0] == '\\' ==> Slashes(pending + 1) == Slashes(pending) + [s[0]];
  }

  /** Reading an escaped text and its closing quote gives the text. */
  lemma {:induction false} SplitEscaped(s: string, pending: nat, rest: string, current: string)
    ensures Split(Escape(s, pending) + ("\"" + rest), true, true, 0, current)
         == Split(rest, true, false, 0, current + Slashes(pending) + s)
    decreases |s|
  {
    hide Split, Escape;
    var tail := "\"" + rest;
    if s == "" {
      EscapeEnd(pending);
      SplitSlashes(2 * pending, tail, true, true, 0, current);
      SplitQuote(rest, true, true, 2 * pending, current);
      assert current + Slashes(pending) + s == current + Slashes(pending);
      return;
    }
    EscapeFirst(s, pending);
    ReadOn(current, pending, s);
    var after := Escape(s[1..], 0) + tail;
    if s[0] == '\\' {
      SplitEscaped(s[1..], pending + 1, rest, current);
    } else if s[0] == '"' {
      assert Escape(s, pending) + tail == Slashes(2 * pending + 1) + ("\"" + after);
      SplitSlashes(2 * pending + 1, "\"" + after, true, true, 0, current);
      SplitQuote(after, true, true, 2 * pending + 1, current);
      assert [s[0]] == "\"";
      SplitEscaped(s[1..], 0, rest, current + Slashes(pending) + [s[0]]);
    } else {
      assert Escape(s, pending) + tail == Slashes(pending) + ([s[0]] + after);
      SplitSlashes(pending, [s[0]] + after, true, true, 0, current);
      SplitOrdinary(s[0], after, true, true, pending, current);
      SplitEscaped(s[1..], 0, rest, current + Slashes(pending) + [s[0]]);
    }
  }

  lemma EscapeEnd(pending: nat)
    ensures Escape("", pending) == Slashes(2 * pending)
  {
  }

  /** A quoted argument, wherever an argument may start or go on. */
  lemma SplitQuoted(arg: string, rest: string, started: bool, current: string)
    ensures Split("\"" + Escape(arg, 0) + "\"" + rest, started, false, 0, current)
         == Split(rest, true, false, 0, current + arg)
  {
    hide Split, Escape;
    var inside := Escape(arg, 0) + ("\"" + rest);
    assert "\"" + Escape(arg, 0) + "\"" + rest == "\"" + inside;
    SplitQuote(inside, started, false, 0, current);
    assert current + Slashes(0) == current;
    SplitEscaped(arg, 0, rest, current);
  }

  // ----- Whole command lines -----

  /** An argument that the quoting carries through: it is not empty, and a tab in it comes with
      a character that makes it quoted. */
  predicate Survives(arg: string, placeholders: bool)
  {
    arg != "" && ('\t' in arg ==> NeedsQuoting(arg, placeholders))
  }

  lemma SplitBlank(rest: string, started: bool, current: string)
    ensures Split(" " + rest, started, false, 0, current) == (if started then [current] else []) + Parse(rest)
    ensures Split("", started, false, 0, current) == if started then [current] else []
  {
    assert (" " + rest)[1..] == rest;
    assert current + Slashes(0) == current;
  }

  /** Text without blanks, quotes and backslashes is read as it stands. */
  lemma {:induction false} SplitPlain(text: string, rest: string, started: bool, current: string)
    requires forall i | 0 <= i < |text| :: text[i] !in " \t\\\""
    ensures Split(text + rest, started, false, 0, current)
         == Split(rest, started || text != "", false, 0, current + text)
    decreases |text|
  {
    hide Split;
    if text == "" {
      assert text + rest == rest && current + text == current;
    } else {
      assert text + rest == [text[0]] + (text[1..] + rest);
      SplitOrdinary(text[0], text[1..] + rest, started, false, 0, current);
      SplitPlain(text[1..], rest, true, current + Slashes(0) + [text[0]]);
      assert current + Slashes(0) + [text[0]] + text[1..] == current + text;
    }
  }

  /** A surviving argument is read back as one argument. */
  lemma SplitSurviving(arg: string, placeholders: bool, rest: string)
    requires Survives(arg, placeholders)
    ensures Split(Quote(arg, placeholders) + rest, false, false, 0, "") == Split(rest, true, false, 0, arg)
  {
    hide Split, Escape;
    if NeedsQuoting(arg, placeholders) {
      SplitQuoted(arg, rest, false, "");
    } else {
      SplitPlain(arg, rest, false, "");
    }
    assert "" + arg == arg;
  }

  /** The arguments quoted one by one and joined with single spaces. */
  function JoinQuoted(args: seq<string>, placeholders: bool): string
  {
    if args == [] then ""
    else Quote(args[0], placeholders) + (if |args| == 1 then "" else " " + JoinQuoted(args[1..], placeholders))
  }

  /** What follows an argument in a joined line: nothing, or a space and the others. */
  lemma SplitRest(args: seq<string>, placeholders: bool, started: bool, current: string)
    requires args != []
    ensures var rest := if |args| == 1 then "" else " " + JoinQuoted(args[1..], placeholders);
            Split(rest, started, false, 0, current)
            == (if started then [current] else []) + Parse(JoinQuoted(args[1..], placeholders))
  {
    hide Quote;
    SplitBlank(JoinQuoted(args[1..], placeholders), started, current);
  }

  lemma {:induction false} SurvivorsReadBack(args: seq<string>, placeholders: bool)
    requires forall a | a in args :: Survives(a, placeholders)
    ensures Parse(JoinQuoted(args, placeholders)) == args
    decreases |args|
  {
    hide Split, Quote, Survives;
    if args == [] {
      SplitBlank("", false, "");
    } else {
      var rest := if |args| == 1 then "" else " " + JoinQuoted(args[1..], placeholders);
      SplitSurviving(args[0], placeholders, rest);
      SplitRest(args, placeholders, true, args[0]);
      SurvivorsReadBack(args[1..], placeholders);
      assert args == [args[0]] + args[1..];
    }
  }

  ghost predicate AllSurvive(args: seq<string>, placeholders: bool)
  {
    forall a | a in args :: Survives(a, placeholders)
  }

  /** Unquoted text may be cut at its tabs, but every piece of it survives. */
  lemma {:induction false} PiecesSurvive(text: string, args: seq<string>, placeholders: bool, started: bool, current: string)
    requires args != [] && AllSurvive(Parse(JoinQuoted(args[1..], placeholders)), placeholders)
    requires forall i | 0 <= i < |text| :: text[i] !in " \\\""
    requires '\t' !in current && (started <==> current != "")
    ensures var rest := if |args| == 1 then "" else " " + JoinQuoted(args[1..], placeholders);
            AllSurvive(Split(text + rest, started, false, 0, current), placeholders)
    decreases |text|
  {
    hide Split, Quote;
    var rest := if |args| == 1 then "" else " " + JoinQuoted(args[1..], placeholders);
    if text == "" {
      assert text + rest == rest;
      SplitRest(args, placeholders, started, current);
    } else {
      assert text + rest == [text[0]] + (text[1..] + rest);
      if text[0] == '\t' {
        SplitTab(text[1..] + rest, started, current);
        PiecesSurvive(text[1..], args, placeholders, false, "");
      } else {
        SplitOrdinary(text[0], text[1..] + rest, started, false, 0, current);
        assert current + Slashes(0) + [text[0]] == current + [text[0]];
        PiecesSurvive(text[1..], args, placeholders, true, current + [text[0]]);
      }
    }
  }

  lemma SplitTab(rest: string, started: bool, current: string)
    ensures Split("\t" + rest, started, false, 0, current)
         == (if started then [current] else []) + Split(rest, false, false, 0, "")
  {
    assert ("\t" + rest)[1..] == rest;
    assert current + Slashes(0) == current;
  }

  /** Whatever is read from a joined line survives. */
  lemma {:induction false} OnlySurvivorsAreRead(args: seq<string>, placeholders: bool)
    ensures AllSurvive(Parse(JoinQuoted(args, placeholders)), placeholders)
    decreases |args|
  {
    hide Split, Escape;
    if args == [] {
      SplitBlank("", false, "");
    } else {
      OnlySurvivorsAreRead(args[1..], placeholders);
      var rest := if |args| == 1 then "" else " " + JoinQuoted(args[1..], placeholders);
      if NeedsQuoting(args[0], placeholders) {
        SplitSurviving(args[0], placeholders, rest);
        SplitRest(args, placeholders, true, args[0]);
      } else {
        PiecesSurvive(args[0], args, placeholders, false, "");
      }
    }
  }

  /** Quoting and joining is undone by the documented rules, with or without placeholder
      quoting, exactly when every argument survives. */
  lemma ReadsBackIffAllSurvive(args: seq<string>, placeholders: bool)
    ensures Parse(JoinQuoted(args, placeholders)) == args <==> AllSurvive(args, placeholders)
  {
    hide Split, Quote, Survives;
    OnlySurvivorsAreRead(args, placeholders);
    if AllSurvive(args, placeholders) {
      SurvivorsReadBack(args, placeholders);
    }
  }

  /** In particular for every list of non-empty, tab-free arguments. */
  lemma TabFreeReadsBack(args: seq<string>, placeholders: bool)
    requires forall a | a in args :: a != "" && '\t' !in a
    ensures Parse(JoinQuoted(args, placeholders)) == args
  {
    ReadsBackIffAllSurvive(args, placeholders);
  }

  /** An empty argument is printed as nothing and lost, and one with a tab alone is cut. */
  lemma LostArguments(placeholders: bool)
    ensures Parse(JoinQuoted([""], placeholders)) != [""]
    ensures Parse(JoinQuoted(["a\tb"], placeholders)) != ["a\tb"]
  {
    hide Split, JoinQuoted;
    ReadsBackIffAllSurvive([""], placeholders);
    ReadsBackIffAllSurvive(["a\tb"], placeholders);
    assert "" in [""] && "a\tb" in ["a\tb"];
    assert "a\tb"[1] == '\t';
  }
  // ----- The documented rules, one by one -----

  predicate Plain(text: string)
  {
    forall i | 0 <= i < |text| :: text[i] !in " \t\\\""
  }

  /** Text that may stand between quotes as it is. */
  predicate Unmarked(text: string)
  {
    '\\' !in text && '"' !in text
  }

  predicate IsRun(run: string)
  {
    forall i | 0 <= i < |run| :: run[i] == '\\'
  }

  lemma RunIsSlashes(run: string)
    requires IsRun(run)
    ensures run == Slashes(|run|)
  {
  }

  lemma {:induction false} SplitInQuotes(text: string, rest: string, current: string)
    requires Unmarked(text)
    ensures Split(text + rest, true, true, 0, current) == Split(rest, true, true, 0, current + text)
    decreases |text|
  {
    hide Split;
    if text == "" {
      assert text + rest == rest && current + text == current;
    } else {
      assert text + rest == [text[0]] + (text[1..] + rest);
      assert text[0] in text;
      SplitOrdinary(text[0], text[1..] + rest, true, true, 0, current);
      SplitInQuotes(text[1..], rest, current + Slashes(0) + [text[0]]);
      assert current + Slashes(0) + [text[0]] + text[1..] == current + text;
    }
  }

  /** Plain text and a run of backslashes, in any argument. */
  lemma SplitPlainRun(text: string, run: string, rest: string)
    requires Plain(text) && IsRun(run)
    ensures Split(text + run + rest, false, false, 0, "") == Split(rest, text + run != "", false, |run|, text)
  {
    hide Split;
    RunIsSlashes(run);
    assert text + run + rest == text + (Slashes(|run|) + rest);
    SplitPlain(text, Slashes(|run|) + rest, false, "");
    assert "" + text == text;
    SplitSlashes(|run|, rest, text != "", false, 0, text);
  }

  /** Backslashes that no quote follows are literal. */
  lemma ReadsLiteralRun(before: string, run: string, after: string)
    requires Plain(before) && IsRun(run) && Plain(after) && before + run + after != ""
    ensures Parse(before + run + after) == [before + run + after]
  {
    hide Split;
    RunIsSlashes(run);
    SplitPlainRun(before, run, after);
    if after == "" {
      SplitNothing(|run|, before);
      assert before + run + after == before + run;
    } else {
      assert after == [after[0]] + after[1..];
      assert after[0] !in " \t\\\"";
      SplitOrdinary(after[0], after[1..], before + run != "", false, |run|, before);
      SplitPlain(after[1..], "", true, before + run + [after[0]]);
      assert after[1..] + "" == after[1..];
      assert before + run + [after[0]] + after[1..] == before + run + after;
      SplitNothing(0, before + run + after);
      assert before + run + after + Slashes(0) == before + run + after;
    }
  }

  lemma SplitNothing(pending: nat, current: string)
    ensures Split("", true, false, pending, current) == [current + Slashes(pending)]
  {
  }

  /** An even run before a quote gives half as many backslashes, and the quote opens text in which
      blanks do not separate. */
  lemma ReadsEvenRun(before: string, run: string, text: string, after: string)
    requires Plain(before) && IsRun(run) && |run| % 2 == 0 && Unmarked(text) && Plain(after)
    ensures Parse(before + run + "\"" + text + "\"" + after) == [before + run[..|run| / 2] + text + after]
  {
    hide Split;
    var half := run[..|run| / 2];
    RunIsSlashes(half);
    var tail := "\"" + after;
    assert before + run + "\"" + text + "\"" + after == before + run + ("\"" + (text + tail));
    SplitPlainRun(before, run, "\"" + (text + tail));
    SplitQuote(text + tail, before + run != "", false, |run|, before);
    SplitInQuotes(text, tail, before + half);
    SplitQuote(after, true, true, 0, before + half + text);
    assert before + half + text + Slashes(0) == before + half + text;
    SplitPlain(after, "", true, before + half + text);
    assert after + "" == after;
    SplitNothing(0, before + half + text + after);
    assert before + half + text + after + Slashes(0) == before + half + text + after;
  }

  /** An odd run before a quote gives half as many backslashes and the quote itself. */
  lemma ReadsOddRun(before: string, run: string, after: string)
    requires Plain(before) && IsRun(run) && |run| % 2 == 1 && Plain(after)
    ensures Parse(before + run + "\"" + after) == [before + run[..|run| / 2] + "\"" + after]
  {
    hide Split;
    var half := run[..|run| / 2];
    RunIsSlashes(half);
    assert before + run + "\"" + after == before + run + ("\"" + after);
    SplitPlainRun(before, run, "\"" + after);
    SplitQuote(after, before + run != "", false, |run|, before);
    SplitPlain(after, "", true, before + half + "\"");
    assert after + "" == after;
    SplitNothing(0, before + half + "\"" + after);
    assert before + half + "\"" + after + Slashes(0) == before + half + "\"" + after;
  }

  /** Blanks separate arguments. */
  lemma ReadsBlank(before: string, blank: char, rest: string)
    requires Plain(before) && blank in " \t"
    ensures Parse(before + [blank] + rest) == (if before == "" then [] else [before]) + Parse(rest)
  {
    hide Split;
    assert before + [blank] + rest == before + ([blank] + rest);
    SplitPlain(before, [blank] + rest, false, "");
    assert "" + before == before;
    if blank == ' ' {
      SplitBlank(rest, before != "", before);
    } else {
      SplitTab(rest, before != "", before);
    }
  }

  // What the quoting writes.

  lemma {:induction false} EscapeUnmarked(text: string, rest: string)
    requires Unmarked(text)
    ensures Escape(text + rest, 0) == text + Escape(rest, 0)
    decreases |text|
  {
    hide Escape;
    if text == "" {
      assert text + rest == rest;
    } else {
      var s := text + rest;
      assert s[0] == text[0] && text[0] in text;
      AfterCharacter(s, 0);
      assert s[0..] == s && s[1..] == text[1..] + rest;
      EscapeUnmarked(text[1..], rest);
    }
  }

  /** Without backslashes and quotes an argument is written as it is, between quotes if it holds a
      space or, where placeholders are quoted, a percent sign. */
  lemma QuotesUnmarked(text: string, placeholders: bool)
    requires Unmarked(text)
    ensures Quote(text, placeholders)
         == if ' ' in text || (placeholders && '%' in text) then "\"" + text + "\"" else text
  {
    hide Escape;
    EscapeUnmarked(text, "");
    EscapeNothing();
    assert text + "" == text;
    assert forall i | 0 <= i < |text| :: text[i] in text;
  }

  /** A run of backslashes is doubled before a quote or at the end, and kept elsewhere; a quote gets
      a backslash. */
  lemma QuotesRun(before: string, run: string, quote: bool, after: string, placeholders: bool)
    requires Unmarked(before) && IsRun(run) && Unmarked(after) && (run != "" || quote)
    ensures
      Quote(before + run + (if quote then "\"" else "") + after, placeholders)
      == "\"" + (before + (if quote || after == "" then run + run else run) + (if quote then "\\\"" else "") + after) + "\""
  {
    hide Escape;
    var mark := if quote then "\"" else "";
    var arg := before + run + mark + after;
    assert arg == before + (run + (mark + after));
    assert NeedsQuoting(arg, placeholders) by {
      assert arg[|before|] == if run != "" then run[0] else '"';
      assert Quotable(arg[|before|], placeholders);
    }
    hide NeedsQuoting, IsRun;
    EscapeUnmarked(before, run + (mark + after));
    EscapeRunMarked(run, quote, after);
    hide Unmarked;
    var doubled := if quote || after == "" then run + run else run;
    assert before + (doubled + ((if quote then "\\\"" else "") + after))
        == before + doubled + (if quote then "\\\"" else "") + after;
  }

  lemma EscapeRunMarked(run: string, quote: bool, after: string)
    requires IsRun(run) && Unmarked(after)
    ensures
      Escape(run + ((if quote then "\"" else "") + after), 0)
      == (if quote || after == "" then run + run else run) + ((if quote then "\\\"" else "") + after)
  {
    hide Escape;
    var rest := (if quote then "\"" else "") + after;
    EscapeMarked(quote, after);
    if run == "" {
      assert run + rest == rest;
    } else {
      var s := run + rest;
      assert rest != "" ==> s[|run|] == if quote then '"' else after[0];
      assert !quote && after != "" ==> after[0] in after;
      AfterRun(s, 0, |run|);
      assert s[0..] == s && s[|run|..] == rest;
      RunIsSlashes(run);
      RunIsSlashes(run + run);
    }
  }

  lemma EscapeMarked(quote: bool, after: string)
    requires Unmarked(after)
    ensures Escape((if quote then "\"" else "") + after, 0) == (if quote then "\\\"" else "") + after
  {
    hide Escape;
    EscapeUnmarked(after, "");
    EscapeNothing();
    assert after + "" == after;
    if quote {
      var s := "\"" + after;
      AfterCharacter(s, 0);
      assert s[0..] == s && s[1..] == after;
    } else {
      assert "" + after == after;
    }
  }
}
