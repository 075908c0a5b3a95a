/** Strings: searching, trimming as base/strings/string_util.cc does it, and how much text a list of
    strings holds. */
module Text {

  /** The first position of `c`, or the length. */
  function IndexOf(s: string, c: char): (i: nat)
    ensures i <= |s| && c !in s[..i] && (i < |s| ==> s[i] == c)
  {
    if s == "" || s[0] == c then 0
    else
      var i := 1 + IndexOf(s[1..], c);
      assert s[..i] == [s[0]] + s[1..][..i - 1];
      i
  }

  lemma IndexOfIs(s: string, c: char, i: nat)
    requires i <= |s| && c !in s[..i] && (i < |s| ==> s[i] == c)
    ensures IndexOf(s, c) == i
  {
    hide IndexOf;
    var f := IndexOf(s, c);
  }

  // ----- Trimming -----

  datatype Blanks = Ascii | Utf16

  /** kWhitespaceASCII or kWhitespaceUTF16. */
  predicate IsBlank(b: Blanks, c: char)
  {
    var n := c as int;
    if b == Ascii then 0x9 <= n <= 0xd || n == 0x20
    else
      || 0x9 <= n <= 0xd || n == 0x20 || n == 0x85 || n == 0xa0 || n == 0x1680
      || 0x2000 <= n <= 0x200a || n == 0x2028 || n == 0x2029 || n == 0x202f || n == 0x205f || n == 0x3000
  }

  function TrimRight(b: Blanks, s: string): (r: string)
    ensures |r| <= |s| && r == s[..|r|]
    ensures r == "" || !IsBlank(b, r[|r| - 1])
    ensures s != "" && !IsBlank(b, s[|s| - 1]) ==> r == s
  {
    if s != "" && IsBlank(b, s[|s| - 1]) then TrimRight(b, s[..|s| - 1]) else s
  }

  function TrimLeft(b: Blanks, s: string): (r: string)
    ensures |r| <= |s| && r == s[|s| - |r|..]
    ensures r == "" || !IsBlank(b, r[0])
    ensures s != "" && !IsBlank(b, s[0]) ==> r == s
  {
    if s != "" && IsBlank(b, s[0]) then TrimLeft(b, s[1..]) else s
  }

  /** TrimWhitespace and TrimWhitespaceASCII, at both ends. */
  function Trim(b: Blanks, s: string): string
  {
    TrimRight(b, TrimLeft(b, s))
  }

  predicate Trimmed(b: Blanks, s: string)
  {
    s == "" || (!IsBlank(b, s[0]) && !IsBlank(b, s[|s| - 1]))
  }

  lemma TrimFacts(b: Blanks, s: string)
    ensures Trimmed(b, Trim(b, s))
    ensures Trimmed(b, s) ==> Trim(b, s) == s
    ensures |Trim(b, s)| <= |s|
    ensures s != "" && !IsBlank(b, s[0]) ==> Trim(b, s) == s[..|Trim(b, s)|]
    ensures s != "" && IsBlank(b, s[|s| - 1]) ==> |Trim(b, s)| < |s|
    ensures !Trimmed(b, s) ==> |Trim(b, s)| < |s|
  {
    hide IsBlank;
    var left := TrimLeft(b, s);
    var r := TrimRight(b, left);
    if r != "" {
      assert r[0] == left[0];
    }
  }

  /** kWhitespaceASCII and kWhitespaceUTF16, as lists. */
  lemma BlanksAre(c: char)
    ensures IsBlank(Ascii, c) <==> c in "\U{9}\U{a}\U{b}\U{c}\U{d} "
    ensures IsBlank(Utf16, c) <==>
      || c in "\U{9}\U{a}\U{b}\U{c}\U{d} \U{85}\U{a0}\U{1680}"
      || c in "\U{2000}\U{2001}\U{2002}\U{2003}\U{2004}\U{2005}\U{2006}\U{2007}\U{2008}\U{2009}\U{200a}"
      || c in "\U{2028}\U{2029}\U{202f}\U{205f}\U{3000}"
  {
  }

  /** Trimming takes off the blanks at both ends and nothing else. */
  lemma {:induction false} TrimAround(b: Blanks, before: string, s: string, after: string)
    requires Trimmed(b, s) && (forall c | c in before + after :: IsBlank(b, c))
    ensures Trim(b, before + s + after) == s
    decreases |before| + |after|
  {
    hide IsBlank;
    var all := before + s + after;
    if before != [] {
      assert all[0] == before[0] && before[0] in before + after;
      assert all[1..] == before[1..] + s + after;
      TrimAround(b, before[1..], s, after);
    } else if s != "" {
      assert all[0] == s[0];
      TrimRightAround(b, s, after);
      assert all == s + after;
    } else {
      assert all == after;
      AllTrimmed(b, after);
    }
  }

  lemma {:induction false} TrimRightAround(b: Blanks, s: string, after: string)
    requires s != "" && !IsBlank(b, s[|s| - 1]) && (forall c | c in after :: IsBlank(b, c))
    ensures TrimRight(b, s + after) == s
    decreases |after|
  {
    hide IsBlank;
    var all := s + after;
    if after == [] {
      assert all == s;
    } else {
      assert all[|all| - 1] == after[|after| - 1] && after[|after| - 1] in after;
      assert all[..|all| - 1] == s + after[..|after| - 1];
      TrimRightAround(b, s, after[..|after| - 1]);
    }
  }

  lemma {:induction false} AllTrimmed(b: Blanks, s: string)
    requires forall c | c in s :: IsBlank(b, c)
    ensures Trim(b, s) == ""
  {
    hide IsBlank;
    if s != "" {
      assert s[0] in s;
      AllTrimmed(b, s[1..]);
    }
  }
  // ----- Weight -----

  /** One for every string and one for every character of it. */
  function Weight(ss: seq<string>): nat
  {
    if ss == [] then 0 else Weight(ss[..|ss| - 1]) + 1 + |ss[|ss| - 1]|
  }

  lemma {:induction false} WeightConcat(a: seq<string>, b: seq<string>)
    ensures Weight(a + b) == Weight(a) + Weight(b)
    decreases |b|
  {
    if b == [] {
      assert a + b == a;
    } else {
      WeightConcat(a, b[..|b| - 1]);
      assert (a + b)[..|a + b| - 1] == a + b[..|b| - 1];
    }
  }

  lemma WeightOne(x: string)
    ensures Weight([x]) == 1 + |x|
  {
    assert [x][..0] == [];
  }
}
