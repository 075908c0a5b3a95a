/** base/environment.cc: a modified copy of an environment, packed into one block. */
module Environment {
  import opened OrderedMap
  import opened Text

  const NUL: char := '\0'

  /** The changes: a new value for a key, or the empty string to remove it. */
  type Changes = seq<Entry<string>>

  // ----- Lines -----

  /** The key of a line: what comes before its first '='. */
  function KeyOf(line: string): string
  {
    line[..IndexOf(line, '=')]
  }

  /** ParseEnvLine: the key, and the length of the line with its terminating null. */
  method ParseEnvLine(input: string, start: nat, ghost line: string) returns (length: nat, key: string)
    requires NUL !in line && start + |line| < |input|
    requires input[start..start + |line|] == line && input[start + |line|] == NUL
    ensures length == |line| + 1 && key == KeyOf(line)
  {
    hide IndexOf;
    assert forall j | 0 <= j < |line| :: input[start + j] == line[j];
    var cur := 0;
    while input[start + cur] != NUL && input[start + cur] != '='
      invariant cur <= |line| && forall j | 0 <= j < cur :: line[j] != '='
      decreases |line| - cur
    {
      assert cur < |line|;
      cur := cur + 1;
    }
    key := input[start..start + cur];
    assert key == line[..cur];
    IndexOfIs(line, '=', cur);
    while input[start + cur] != NUL
      invariant cur <= |line|
      decreases |line| - cur
    {
      assert cur < |line|;
      cur := cur + 1;
    }
    length := cur + 1;
  }

  // ----- What the result holds -----

  ghost predicate Changed(changes: Changes, key: string)
  {
    exists i | 0 <= i < |changes| :: changes[i].key == key
  }

  /** The lines whose key is not changed, in order. */
  ghost function Unchanged(env: seq<string>, changes: Changes): seq<string>
  {
    if env == [] then []
    else Unchanged(env[..|env| - 1], changes)
         + if Changed(changes, KeyOf(env[|env| - 1])) then [] else [env[|env| - 1]]
  }

  function LineFor(change: Entry<string>): string
  {
    change.key + "=" + change.value
  }

  /** The changes that set a value, in key order. */
  function Added(changes: Changes): seq<string>
  {
    if changes == [] then []
    else Added(changes[..|changes| - 1])
         + if changes[|changes| - 1].value == "" then [] else [LineFor(changes[|changes| - 1])]
  }

  ghost function Altered(env: seq<string>, changes: Changes): seq<string>
  {
    Unchanged(env, changes) + Added(changes)
  }

  // ----- The storage -----

  /** The lines one after the other, each with its terminating null. */
  function Packed(lines: seq<string>): string
  {
    if lines == [] then "" else Packed(lines[..|lines| - 1]) + lines[|lines| - 1] + [NUL]
  }

  /** Where each line starts. */
  function Offsets(lines: seq<string>): (o: seq<nat>)
    ensures |o| == |lines|
  {
    if lines == [] then [] else Offsets(lines[..|lines| - 1]) + [|Packed(lines[..|lines| - 1])|]
  }

  /** A null-terminated string in memory. */
  function CString(bytes: string, at: nat): string
    requires at <= |bytes|
  {
    bytes[at..at + IndexOf(bytes[at..], NUL)]
  }

  ghost predicate NoNul(lines: seq<string>)
  {
    forall i | 0 <= i < |lines| :: NUL !in lines[i]
  }

  lemma {:induction false} PackedReads(lines: seq<string>, i: nat)
    requires NoNul(lines) && i < |lines|
    ensures var bytes, at := Packed(lines), Offsets(lines)[i];
            && at + |lines[i]| < |bytes|
            && bytes[at..at + |lines[i]|] == lines[i] && bytes[at + |lines[i]|] == NUL
    decreases |lines|
  {
    var front, last := lines[..|lines| - 1], lines[|lines| - 1];
    if i < |front| {
      PackedReads(front, i);
      var at := Offsets(front)[i];
      assert Packed(lines)[..|Packed(front)|] == Packed(front);
      assert Packed(lines)[at..at + |lines[i]|] == Packed(front)[at..at + |lines[i]|];
    }
  }

  lemma CStringIs(bytes: string, at: nat, line: string)
    requires at + |line| < |bytes| && bytes[at..at + |line|] == line && bytes[at + |line|] == NUL && NUL !in line
    ensures CString(bytes, at) == line
  {
    hide IndexOf;
    var rest := bytes[at..];
    assert rest[..|line|] == line && rest[|line|] == NUL;
    IndexOfIs(rest, NUL, |line|);
  }

  // ----- POSIX -----

  /** The allocated block: `slots` is its view as words of `wordSize` bytes, `bytes` its view as
      characters; it starts at address `base`. */
  class Block {
    const base: nat
    const wordSize: nat
    const slots: array<nat>
    const bytes: array<char>

    ghost predicate Valid()
    {
      base > 0 && wordSize > 0 && bytes.Length == wordSize * slots.Length
    }

    constructor (base: nat, wordSize: nat, count: nat)
      requires base > 0 && wordSize > 0
      ensures Valid() && this.base == base && this.wordSize == wordSize && slots.Length == count
      ensures fresh(slots) && fresh(bytes)
    {
      this.base := base;
      this.wordSize := wordSize;
      slots := new nat[count](_ => 0);
      bytes := new char[wordSize * count](_ => NUL);
    }
  }

  /** What a reader of the pointer array finds, from pointer `i` up to the null pointer. */
  ghost function ReadLines(base: nat, slots: seq<nat>, bytes: string, i: nat): seq<string>
    requires i <= |slots|
    decreases if i <= |slots| then |slots| - i else 0
  {
    if i == |slots| || slots[i] == 0 || slots[i] < base || slots[i] - base > |bytes| then []
    else [CString(bytes, slots[i] - base)] + ReadLines(base, slots, bytes, i + 1)
  }

  /** The strings and where they start, before they are packed. */
  method CollectLines(env: seq<string>, changes: Changes) returns (storage: string, indices: seq<nat>)
    requires NoNul(env) && Sorted(changes)
    ensures storage == Packed(Altered(env, changes)) && indices == Offsets(Altered(env, changes))
  {
    hide AsMap, KeyOf, LineFor, Packed, Offsets, Changed;
    storage, indices := "", [];
    ghost var lines := [];
    PackedEmpty([]);
    for i := 0 to |env|
      invariant lines == Unchanged(env[..i], changes)
      invariant storage == Packed(lines) && indices == Offsets(lines)
    {
      var memory := env[i] + [NUL];
      assert memory[0..|env[i]|] == env[i];
      var length, key := ParseEnvLine(memory, 0, env[i]);
      var found := Find(changes, key);
      FoundIsChanged(changes, key);
      assert env[..i + 1][..i] == env[..i];
      if found == |changes| {
        indices := indices + [|storage|];
        assert memory[..length] == memory;
        PackedLast(lines, env[i]);
        assert Packed(lines) + memory == Packed(lines) + env[i] + [NUL];
        storage := storage + memory[..length];
        lines := lines + [env[i]];
      } else {
        assert lines + [] == lines;
      }
    }
    assert env[..|env|] == env;
    ghost var kept := lines;
    for i := 0 to |changes|
      invariant lines == kept + Added(changes[..i])
      invariant storage == Packed(lines) && indices == Offsets(lines)
    {
      assert changes[..i + 1][..i] == changes[..i];
      if changes[i].value != "" {
        indices := indices + [|storage|];
        PackedLast(lines, LineFor(changes[i]));
        storage := storage + changes[i].key;
        storage := storage + "=";
        storage := storage + changes[i].value;
        storage := storage + [NUL];
        assert storage == Packed(lines) + LineFor(changes[i]) + [NUL] by { AppendedInParts(Packed(lines), changes[i]); }
        lines := lines + [LineFor(changes[i])];
      }
      assert lines == kept + Added(changes[..i + 1]) by { AddedLast(kept, changes, i); }
    }
    assert changes[..|changes|] == changes;
  }

  lemma AppendedInParts(s: string, change: Entry<string>)
    ensures s + change.key + "=" + change.value + [NUL] == s + LineFor(change) + [NUL]
  {
  }

  lemma AddedLast(kept: seq<string>, changes: Changes, i: nat)
    requires i < |changes|
    ensures kept + Added(changes[..i + 1])
         == kept + Added(changes[..i]) + if changes[i].value == "" then [] else [LineFor(changes[i])]
  {
    assert changes[..i + 1][..i] == changes[..i];
  }

  lemma PackedLast(lines: seq<string>, line: string)
    ensures Packed(lines + [line]) == Packed(lines) + line + [NUL]
    ensures Offsets(lines + [line]) == Offsets(lines) + [|Packed(lines)|]
  {
    assert (lines + [line])[..|lines|] == lines;
  }

  lemma FoundIsChanged(changes: Changes, key: string)
    requires Sorted(changes)
    ensures key in AsMap(changes) <==> Changed(changes, key)
  {
    hide AsMap;
    if key in AsMap(changes) {
      var i := EntryFor(changes, key);
    }
    if Changed(changes, key) {
      var i :| 0 <= i < |changes| && changes[i].key == key;
      KeyOfEntry(changes, i);
    }
  }

  /** The number of words for `pointers` pointers, the null pointer and `size` bytes. */
  function WordsFor(pointers: nat, size: nat, wordSize: nat): nat
    requires wordSize > 0
  {
    pointers + 1 + (size + wordSize - 1) / wordSize
  }

  /** The pointers and the bytes both fit, and do not overlap. */
  lemma StorageFits(pointers: nat, size: nat, wordSize: nat)
    requires wordSize > 0
    ensures wordSize * (pointers + 1) + size <= wordSize * WordsFor(pointers, size, wordSize)
  {
    RoundedUp(size, wordSize);
    Distributes(wordSize, pointers + 1, (size + wordSize - 1) / wordSize);
  }

  lemma RoundedUp(size: nat, w: nat)
    requires w > 0
    ensures size <= w * ((size + w - 1) / w)
  {
    var n := size + w - 1;
    assert n == w * (n / w) + n % w;
  }

  lemma Distributes(w: nat, a: nat, b: nat)
    ensures w * (a + b) == w * a + w * b
  {
  }

  /** The pointers to the lines, then the null pointer, and from `start` on the bytes of the lines. */
  ghost predicate Holds(base: nat, start: nat, slots: seq<nat>, bytes: string, lines: seq<string>)
  {
    && |lines| < |slots| && start + |Packed(lines)| <= |bytes|
    && bytes[start..start + |Packed(lines)|] == Packed(lines)
    && (forall i | 0 <= i < |lines| :: slots[i] == base + start + Offsets(lines)[i])
    && slots[|lines|] == 0
  }

  /** AlterEnvironment on POSIX. The pointers take the first words of the block and the strings
      start right after them; every pointer and every byte lies in the block. */
  method AlterEnvironment(env: seq<string>, changes: Changes, base: nat, wordSize: nat) returns (block: Block)
    requires NoNul(env) && Sorted(changes) && base > 0 && wordSize > 0
    ensures fresh(block) && block.Valid() && block.base == base && block.wordSize == wordSize
    ensures
      var lines := Altered(env, changes);
      && block.slots.Length == WordsFor(|lines|, |Packed(lines)|, wordSize)
      && Holds(base, wordSize * (|lines| + 1), block.slots[..], block.bytes[..], lines)
    ensures NoNulIn(changes) ==>
      ReadLines(base, block.slots[..], block.bytes[..], 0) == Altered(env, changes)
  {
    hide Altered, Packed, Offsets, Sorted, Changed, ReadLines, NoNul, NoNulIn;
    var storage, indices := CollectLines(env, changes);
    var n := |indices|;
    var count := WordsFor(n, |storage|, wordSize);
    StorageFits(n, |storage|, wordSize);
    block := new Block(base, wordSize, count);
    var start := wordSize * (n + 1);
    forall i | 0 <= i < |storage| {
      block.bytes[start + i] := storage[i];
    }
    assert block.bytes[start..start + |storage|] == storage;
    for i := 0 to n
      invariant forall j | 0 <= j < i :: block.slots[j] == base + start + indices[j]
      invariant block.bytes[start..start + |storage|] == storage
    {
      block.slots[i] := base + start + indices[i];
    }
    block.slots[n] := 0;
    assert block.bytes[..][start..start + |storage|] == block.bytes[start..start + |storage|];
    if NoNulIn(changes) {
      ghost var lines := Altered(env, changes);
      AlteredNoNul(env, changes);
      ReadsAltered(base, block.slots[..], block.bytes[..], start, lines, 0);
      assert lines[0..] == lines;
    }
  }

  ghost predicate NoNulIn(changes: Changes)
  {
    forall i | 0 <= i < |changes| :: NUL !in changes[i].key && NUL !in changes[i].value
  }

  lemma {:induction false} UnchangedNoNul(env: seq<string>, changes: Changes)
    requires NoNul(env)
    ensures NoNul(Unchanged(env, changes))
    decreases |env|
  {
    hide KeyOf, Changed;
    if env != [] {
      UnchangedNoNul(env[..|env| - 1], changes);
    }
  }

  lemma {:induction false} AddedNoNul(changes: Changes)
    requires NoNulIn(changes)
    ensures NoNul(Added(changes))
    decreases |changes|
  {
    if changes != [] {
      AddedNoNul(changes[..|changes| - 1]);
    }
  }

  lemma AlteredNoNul(env: seq<string>, changes: Changes)
    requires NoNul(env) && NoNulIn(changes)
    ensures NoNul(Altered(env, changes))
  {
    hide Unchanged, Added;
    UnchangedNoNul(env, changes);
    AddedNoNul(changes);
  }

  lemma LineWithin(bytes: string, start: nat, part: string, at: nat, line: string)
    requires start + |part| <= |bytes| && bytes[start..start + |part|] == part
    requires at + |line| < |part| && part[at..at + |line|] == line && part[at + |line|] == NUL
    ensures bytes[start + at..start + at + |line|] == line && bytes[start + at + |line|] == NUL
  {
    forall k | 0 <= k < |part|
      ensures bytes[start + k] == part[k]
    {
      assert bytes[start..start + |part|][k] == bytes[start + k];
    }
    assert bytes[start + at..start + at + |line|] == part[at..at + |line|];
  }

  /** A reader of the block finds the altered lines and nothing else. */
  lemma {:induction false} ReadsAltered(base: nat, slots: seq<nat>, bytes: string, start: nat, lines: seq<string>, i: nat)
    requires base > 0 && NoNul(lines) && i <= |lines| && Holds(base, start, slots, bytes, lines)
    ensures ReadLines(base, slots, bytes, i) == lines[i..]
    decreases |lines| - i
  {
    hide Packed, Offsets, CString;
    if i < |lines| {
      ReadsAltered(base, slots, bytes, start, lines, i + 1);
      ReadsLine(bytes, start, lines, i);
      assert lines[i..] == [lines[i]] + lines[i + 1..];
    }
  }

  lemma ReadsLine(bytes: string, start: nat, lines: seq<string>, i: nat)
    requires NoNul(lines) && i < |lines|
    requires start + |Packed(lines)| <= |bytes| && bytes[start..start + |Packed(lines)|] == Packed(lines)
    ensures start + Offsets(lines)[i] <= |bytes| && CString(bytes, start + Offsets(lines)[i]) == lines[i]
  {
    hide Packed, Offsets, CString;
    PackedReads(lines, i);
    var at, line := Offsets(lines)[i], lines[i];
    LineWithin(bytes, start, Packed(lines), at, line);
    CStringIs(bytes, start + at, line);
  }

  // ----- Windows -----

  /** A block of null-terminated lines, ended by an empty one. */
  function WindowsBlock(lines: seq<string>): string
  {
    (if lines == [] then [NUL] else Packed(lines)) + [NUL]
  }

  /** `env` starts with a block of the given lines, none of them empty. */
  ghost predicate BlockOf(env: string, lines: seq<string>)
  {
    && NoNul(lines) && (forall i | 0 <= i < |lines| :: lines[i] != "")
    && Packed(lines) + [NUL] <= env
  }

  /** The lines of a block from position `at` on. */
  ghost function WindowsLines(block: string, at: nat): seq<string>
    decreases if at <= |block| then |block| - at else 0
  {
    if at >= |block| || block[at] == NUL then []
    else [CString(block, at)] + WindowsLines(block, at + |CString(block, at)| + 1)
  }

  lemma NothingCopied(lines: seq<string>, changes: Changes)
    ensures Packed(lines[..0]) == "" && Packed(Unchanged(lines[..0], changes)) == ""
  {
  }

  lemma CopyStep(lines: seq<string>, changes: Changes, done: nat)
    requires done < |lines|
    ensures
      var before := Packed(Unchanged(lines[..done], changes));
      Packed(Unchanged(lines[..done + 1], changes))
      == if Changed(changes, KeyOf(lines[done])) then before else before + (lines[done] + [NUL])
  {
    hide Packed, KeyOf, Changed;
    var kept, line := Unchanged(lines[..done], changes), lines[done];
    assert lines[..done + 1][..done] == lines[..done];
    assert kept + [] == kept;
    PackedLast(kept, line);
    assert Packed(kept) + line + [NUL] == Packed(kept) + (line + [NUL]);
  }

  /** The unmodified lines of a block. */
  method CopyUnchanged(env: string, changes: Changes, ghost lines: seq<string>) returns (result: string)
    requires Sorted(changes) && BlockOf(env, lines)
    ensures result == Packed(Unchanged(lines, changes))
  {
    hide AsMap, KeyOf, Sorted, Changed, Packed, BlockOf, IndexOf, Unchanged;
    result := "";
    var cur := 0;
    ghost var done := 0;
    NothingCopied(lines, changes);
    EndAt(env, lines, 0);
    while env[cur] != NUL
      invariant done <= |lines| && cur == |Packed(lines[..done])| < |env|
      invariant done == |lines| ==> env[cur] == NUL
      invariant result == Packed(Unchanged(lines[..done], changes))
      decreases |lines| - done
    {
      LineAt(env, lines, done);
      var length, key := ParseEnvLine(env, cur, lines[done]);
      var found := Find(changes, key);
      FoundIsChanged(changes, key);
      CopyStep(lines, changes, done);
      if found == |changes| {
        assert env[cur..cur + length] == lines[done] + [NUL];
        result := result + env[cur..cur + length];
      }
      cur := cur + length;
      done := done + 1;
      EndAt(env, lines, done);
    }
    if done < |lines| {
      LineAt(env, lines, done);
    }
    assert lines[..done] == lines;
  }

  /** AlterEnvironment on Windows; `lines` are the lines of the block that is given. */
  method AlterWindowsEnvironment(env: string, changes: Changes, ghost lines: seq<string>) returns (result: string)
    requires Sorted(changes) && BlockOf(env, lines)
    ensures result == WindowsBlock(Altered(lines, changes))
    ensures NoNulIn(changes) ==> WindowsLines(result, 0) == Altered(lines, changes)
  {
    hide NoNulIn, WindowsLines;
    hide Sorted, Packed, LineFor, Unchanged, BlockOf;
    result := CopyUnchanged(env, changes, lines);
    ghost var kept := Unchanged(lines, changes);
    assert changes[..0] == [] && kept + [] == kept;
    for i := 0 to |changes|
      invariant result == Packed(kept + Added(changes[..i]))
    {
      AddedLast(kept, changes, i);
      if changes[i].value != "" {
        PackedLast(kept + Added(changes[..i]), LineFor(changes[i]));
        AppendedInParts(result, changes[i]);
        result := result + changes[i].key;
        result := result + "=";
        result := result + changes[i].value;
        result := result + [NUL];
      } else {
        assert kept + Added(changes[..i]) + [] == kept + Added(changes[..i]);
      }
    }
    assert changes[..|changes|] == changes;
    PackedEmpty(kept + Added(changes));
    if result == "" {
      result := result + [NUL];
    }
    result := result + [NUL];
    if NoNulIn(changes) {
      AlteredBlockReads(env, lines, changes);
    }
  }

  /** The altered lines are not empty either, so that their block is read back. */
  lemma AlteredBlockReads(env: string, lines: seq<string>, changes: Changes)
    requires BlockOf(env, lines) && NoNulIn(changes)
    ensures WindowsLines(WindowsBlock(Altered(lines, changes)), 0) == Altered(lines, changes)
  {
    hide Packed, WindowsLines, WindowsBlock;
    var all := Altered(lines, changes);
    AlteredNoNul(lines, changes);
    UnchangedNotEmpty(lines, changes);
    AddedNotEmpty(changes);
    PackedEmpty([]);
    assert all[..0] == [] && all[0..] == all;
    WindowsBlockReads(all, 0);
  }

  lemma {:induction false} UnchangedNotEmpty(env: seq<string>, changes: Changes)
    requires forall i | 0 <= i < |env| :: env[i] != ""
    ensures forall i | 0 <= i < |Unchanged(env, changes)| :: Unchanged(env, changes)[i] != ""
    decreases |env|
  {
    hide KeyOf, Changed;
    if env != [] {
      UnchangedNotEmpty(env[..|env| - 1], changes);
    }
  }

  lemma {:induction false} AddedNotEmpty(changes: Changes)
    ensures forall i | 0 <= i < |Added(changes)| :: Added(changes)[i] != ""
    decreases |changes|
  {
    if changes != [] {
      AddedNotEmpty(changes[..|changes| - 1]);
    }
  }

  lemma PackedEmpty(lines: seq<string>)
    ensures Packed(lines) == "" <==> lines == []
  {
  }

  /** Line `i` of a block, in place. */
  lemma {:induction false} LineAt(env: string, lines: seq<string>, i: nat)
    requires i < |lines| && BlockOf(env, lines)
    ensures NUL !in lines[i]
    ensures var at := |Packed(lines[..i])|;
            && at + |lines[i]| + 1 < |env| && env[at..at + |lines[i]|] == lines[i] && env[at + |lines[i]|] == NUL
            && env[at] != NUL
            && |Packed(lines[..i + 1])| == at + |lines[i]| + 1
  {
    hide Packed;
    PackedLast(lines[..i], lines[i]);
    assert lines[..i + 1] == lines[..i] + [lines[i]];
    PackedPrefix(lines, i + 1);
    var at := |Packed(lines[..i])|;
    assert env[..|Packed(lines)|] == Packed(lines);
    assert Packed(lines)[..at + |lines[i]| + 1] == Packed(lines[..i]) + lines[i] + [NUL];
    assert env[..at + |lines[i]| + 1] == Packed(lines)[..at + |lines[i]| + 1];
    assert env[at..at + |lines[i]|] == env[..at + |lines[i]| + 1][at..at + |lines[i]|] == lines[i];
    assert env[at] == lines[i][0];
  }

  lemma EndAt(env: string, lines: seq<string>, i: nat)
    requires i <= |lines| && BlockOf(env, lines)
    ensures |Packed(lines[..i])| < |env|
    ensures i == |lines| ==> env[|Packed(lines[..i])|] == NUL
  {
    hide Packed;
    PackedPrefix(lines, i);
    assert lines[..|lines|] == lines;
    assert (Packed(lines) + [NUL])[|Packed(lines)|] == NUL;
  }

  lemma {:induction false} PackedPrefix(lines: seq<string>, i: nat)
    requires i <= |lines|
    ensures Packed(lines[..i]) <= Packed(lines)
    decreases |lines|
  {
    if i == |lines| {
      assert lines[..i] == lines;
    } else {
      PackedPrefix(lines[..|lines| - 1], i);
      assert lines[..|lines| - 1][..i] == lines[..i];
    }
  }

  /** A block is read back as the lines it was made of. */
  lemma {:induction false} WindowsBlockReads(lines: seq<string>, i: nat)
    requires NoNul(lines) && (forall j | 0 <= j < |lines| :: lines[j] != "") && i <= |lines|
    ensures WindowsLines(WindowsBlock(lines), |Packed(lines[..i])|) == lines[i..]
    decreases |lines| - i
  {
    hide Packed, CString;
    var block := WindowsBlock(lines);
    if lines == [] {
      PackedEmpty([]);
    } else if i == |lines| {
      EndAt(block, lines, i);
    } else {
      LineAt(block, lines, i);
      CStringIs(block, |Packed(lines[..i])|, lines[i]);
      WindowsBlockReads(lines, i + 1);
      assert lines[i..] == [lines[i]] + lines[i + 1..];
    }
  }

  // ----- What the changes mean -----

  ghost predicate NamesHaveNoEquals(changes: Changes)
  {
    forall i | 0 <= i < |changes| :: '=' !in changes[i].key
  }

  /** Whether a line sets `key`, as getenv looks for it. */
  predicate Sets(line: string, key: string)
  {
    |key| < |line| && line[..|key|] == key && line[|key|] == '='
  }

  /** The value of the first line that sets `key`. */
  function Lookup(lines: seq<string>, key: string): (found: (bool, string))
  {
    if lines == [] then (false, "")
    else if Sets(lines[0], key) then (true, lines[0][|key| + 1..])
    else Lookup(lines[1..], key)
  }

  lemma {:induction false} LookupConcat(a: seq<string>, b: seq<string>, key: string)
    ensures Lookup(a + b, key) == if Lookup(a, key).0 then Lookup(a, key) else Lookup(b, key)
    decreases |a|
  {
    hide Sets;
    if a == [] {
      assert a + b == b;
    } else {
      assert (a + b)[1..] == a[1..] + b;
      LookupConcat(a[1..], b, key);
    }
  }

  lemma SetsIsKey(line: string, key: string)
    requires '=' !in key
    ensures Sets(line, key) ==> KeyOf(line) == key
  {
    hide IndexOf;
    if Sets(line, key) {
      assert forall j | 0 <= j < |key| :: line[j] == line[..|key|][j];
      IndexOfIs(line, '=', |key|);
    }
  }

  lemma LookupOne(line: string, key: string)
    ensures Lookup([line], key) == if Sets(line, key) then (true, line[|key| + 1..]) else (false, "")
  {
    assert [line][1..] == [];
  }

  lemma {:induction false} LookupUnchanged(env: seq<string>, changes: Changes, key: string)
    requires '=' !in key
    ensures Lookup(Unchanged(env, changes), key) == if Changed(changes, key) then (false, "") else Lookup(env, key)
    decreases |env|
  {
    hide KeyOf, Sets, Changed, Lookup;
    if env == [] {
      LookupNothing(key);
    } else {
      var front, last := env[..|env| - 1], env[|env| - 1];
      LookupUnchanged(front, changes, key);
      LookupFound(front, key);
      SetsIsKey(last, key);
      assert env == front + [last];
      LookupConcat(front, [last], key);
      LookupOne(last, key);
      var kept := Unchanged(front, changes);
      assert kept + [] == kept;
      LookupConcat(kept, [last], key);
    }
  }

  lemma LookupNothing(key: string)
    ensures Lookup([], key) == (false, "")
  {
  }

  lemma LineForSets(change: Entry<string>, key: string)
    requires '=' !in key && '=' !in change.key
    ensures Sets(LineFor(change), key) <==> change.key == key
    ensures LineFor(change)[|change.key| + 1..] == change.value
  {
    hide IndexOf;
    var line := LineFor(change);
    assert line[..|change.key|] == change.key;
    SetsIsKey(line, key);
    SetsIsKey(line, change.key);
  }

  /** The value a change sets, if it sets one. */
  lemma {:induction false} LookupAdded(changes: Changes, key: string)
    requires Sorted(changes) && NamesHaveNoEquals(changes) && '=' !in key
    ensures forall i | 0 <= i < |changes| && changes[i].key == key ::
      Lookup(Added(changes), key) == if changes[i].value == "" then (false, "") else (true, changes[i].value)
    ensures !Changed(changes, key) ==> Lookup(Added(changes), key) == (false, "")
    decreases |changes|
  {
    hide Lookup, LineFor, Sets, Less;
    if changes == [] {
      LookupNothing(key);
    } else {
      var n := |changes| - 1;
      var front, last := changes[..n], changes[n];
      LookupAdded(front, key);
      LineForSets(last, key);
      LookupOne(LineFor(last), key);
      assert Added(front) + [] == Added(front);
      LookupConcat(Added(front), [LineFor(last)], key);
      forall i | 0 <= i < n && changes[i].key == key
        ensures last.key != key && front[i].key == key
      {
        SortedKeysDiffer(changes, i, n);
      }
      assert last.key == key ==> !Changed(front, key);
      assert !Changed(changes, key) ==> !Changed(front, key) && last.key != key;
    }
  }

  /** A changed variable has its new value, or none if that is empty; any other variable is as it was. */
  lemma AlteredLookup(env: seq<string>, changes: Changes, key: string)
    requires Sorted(changes) && NamesHaveNoEquals(changes) && '=' !in key
    ensures !Changed(changes, key) ==> Lookup(Altered(env, changes), key) == Lookup(env, key)
    ensures forall i | 0 <= i < |changes| && changes[i].key == key ::
      Lookup(Altered(env, changes), key) == if changes[i].value == "" then (false, "") else (true, changes[i].value)
  {
    hide Lookup, Added, Unchanged, NamesHaveNoEquals, Sorted;
    LookupUnchanged(env, changes, key);
    LookupAdded(changes, key);
    LookupConcat(Unchanged(env, changes), Added(changes), key);
    LookupFound(env, key);
  }

  lemma {:induction false} LookupFound(lines: seq<string>, key: string)
    ensures !Lookup(lines, key).0 ==> Lookup(lines, key) == (false, "")
    decreases |lines|
  {
    hide Sets;
    if lines != [] {
      LookupFound(lines[1..], key);
    }
  }

  // ----- Applying the same changes twice -----

  lemma {:induction false} UnchangedConcat(a: seq<string>, b: seq<string>, changes: Changes)
    ensures Unchanged(a + b, changes) == Unchanged(a, changes) + Unchanged(b, changes)
    decreases |b|
  {
    hide KeyOf, Changed;
    if b == [] {
      assert a + b == a;
    } else {
      assert (a + b)[..|a + b| - 1] == a + b[..|b| - 1];
      UnchangedConcat(a, b[..|b| - 1], changes);
    }
  }

  lemma {:induction false} UnchangedTwice(env: seq<string>, changes: Changes)
    ensures Unchanged(Unchanged(env, changes), changes) == Unchanged(env, changes)
    decreases |env|
  {
    hide KeyOf, Changed;
    if env != [] {
      var front, last := env[..|env| - 1], env[|env| - 1];
      UnchangedTwice(front, changes);
      var kept := Unchanged(front, changes);
      assert kept + [] == kept;
      assert (kept + [last])[..|kept|] == kept;
    }
  }

  /** The line of a change has the changed key, cut at its first '='. */
  lemma KeyOfLineFor(change: Entry<string>)
    ensures KeyOf(LineFor(change)) == KeyOf(change.key)
  {
    hide IndexOf;
    var line, e := LineFor(change), IndexOf(change.key, '=');
    assert forall j | 0 <= j < |change.key| :: line[j] == change.key[j];
    IndexOfIs(line, '=', e);
    assert line[..e] == change.key[..e];
  }

  /** A set change whose key, cut at its first '=', is no changed key: its line survives. */
  ghost predicate Escapes(changes: Changes, i: nat)
    requires i < |changes|
  {
    changes[i].value != "" && !Changed(changes, KeyOf(changes[i].key))
  }

  lemma UnchangedNothing(changes: Changes)
    ensures Unchanged([], changes) == []
  {
  }

  lemma UnchangedOne(line: string, changes: Changes)
    ensures Unchanged([line], changes) == if Changed(changes, KeyOf(line)) then [] else [line]
  {
    hide KeyOf, Changed;
    assert [line][..0] == [];
  }

  lemma {:induction false} AddedSurvivors(changes: Changes, all: Changes)
    ensures Unchanged(Added(changes), all) == []
       <==> forall i | 0 <= i < |changes| && changes[i].value != "" :: Changed(all, KeyOf(changes[i].key))
    decreases |changes|
  {
    hide KeyOf, LineFor, Changed, Unchanged;
    if changes == [] {
      UnchangedNothing(all);
    } else {
      var n := |changes| - 1;
      var front, last := changes[..n], changes[n];
      AddedSurvivors(front, all);
      assert forall i | 0 <= i < n :: front[i] == changes[i];
      KeyOfLineFor(last);
      UnchangedConcat(Added(front), [LineFor(last)], all);
      UnchangedOne(LineFor(last), all);
      assert Added(front) + [] == Added(front);
    }
  }

  /** Applying the changes a second time changes nothing exactly when no set change escapes; so
      in particular when no changed key holds '='. */
  lemma AppliedTwiceIffNoneEscapes(env: seq<string>, changes: Changes)
    ensures Altered(Altered(env, changes), changes) == Altered(env, changes)
       <==> forall i | 0 <= i < |changes| :: !Escapes(changes, i)
  {
    hide KeyOf, Changed, Added, Unchanged;
    var kept, added := Unchanged(env, changes), Added(changes);
    UnchangedConcat(kept, added, changes);
    UnchangedTwice(env, changes);
    AddedSurvivors(changes, changes);
    var again := Unchanged(added, changes);
    assert Altered(Altered(env, changes), changes) == kept + again + added;
    if again == [] {
      assert kept + again + added == kept + added;
    } else {
      assert |kept + again + added| > |kept + added|;
      var i :| 0 <= i < |changes| && changes[i].value != "" && !Changed(changes, KeyOf(changes[i].key));
      assert Escapes(changes, i);
    }
  }

  lemma NoEqualsNoneEscapes(changes: Changes)
    requires NamesHaveNoEquals(changes)
    ensures forall i | 0 <= i < |changes| :: !Escapes(changes, i)
  {
    hide IndexOf;
    forall i | 0 <= i < |changes|
      ensures !Escapes(changes, i)
    {
      IndexOfIs(changes[i].key, '=', |changes[i].key|);
      assert KeyOf(changes[i].key) == changes[i].key;
    }
  }

  /** A set key with '=' in it is added again each time the changes are applied. */
  lemma AddedTwice()
    ensures var changes := [Entry("a=b", "v")]; Altered(Altered([], changes), changes) != Altered([], changes)
  {
    hide Altered;
    var changes := [Entry("a=b", "v")];
    IndexOfIs("a=b", '=', 1);
    hide IndexOf;
    assert KeyOf("a=b") == "a";
    assert !Changed(changes, "a") by { assert "a=b" != "a" by { assert |"a=b"| != |"a"|; } }
    assert Escapes(changes, 0);
    AppliedTwiceIffNoneEscapes([], changes);
  }
  // ----- One variable, spelled out -----

  /** A variable set, changed or removed: the line is the name, '=' and the value. */
  lemma OneVariable(key: string, value: string, changed: string)
    requires '=' !in key
    ensures
      var changes, lines := [Entry(key, changed)], if changed == "" then [] else [key + "=" + changed];
      Altered([], changes) == lines && Altered([key + "=" + value], changes) == lines
  {
    hide IndexOf;
    var change := Entry(key, changed);
    var changes := [change];
    var line := LineFor(Entry(key, value));
    KeyOfLineFor(Entry(key, value));
    IndexOfIs(key, '=', |key|);
    assert key[..|key|] == key;
    assert Changed(changes, key) by { assert changes[0].key == key; }
    hide Changed, KeyOf;
    UnchangedNothing(changes);
    UnchangedOne(line, changes);
    assert changes[..0] == [];
    assert Added(changes) == if changed == "" then [] else [LineFor(change)];
  }

  lemma LineOfKey(line: string)
    ensures line == KeyOf(line) || KeyOf(line) + "=" <= line
  {
    hide IndexOf;
    var e := IndexOf(line, '=');
    if e < |line| {
      assert line[..e] + "=" == line[..e + 1];
    }
  }

  /** Any other line stays, and comes first. */
  lemma OtherVariable(line: string, key: string, changed: string)
    requires '=' !in key && line != key && !(key + "=" <= line)
    ensures
      Altered([line], [Entry(key, changed)]) == [line] + if changed == "" then [] else [key + "=" + changed]
  {
    hide KeyOf;
    var changes := [Entry(key, changed)];
    LineOfKey(line);
    assert !Changed(changes, KeyOf(line));
    hide Changed;
    UnchangedOne(line, changes);
    assert changes[..0] == [];
    assert Added(changes) == if changed == "" then [] else [LineFor(changes[0])];
  }

  /** The blocks of no line, of one and of two. */
  lemma SmallBlocks(a: string, b: string)
    ensures WindowsBlock([]) == "\0\0" && Packed([]) == ""
    ensures WindowsBlock([a]) == a + "\0\0" && Packed([a]) == a + "\0"
    ensures WindowsBlock([a, b]) == a + "\0" + b + "\0\0" && Packed([a, b]) == a + "\0" + b + "\0"
  {
    PackedEmpty([]);
    assert [] + [a] == [a] && [a] + [b] == [a, b];
    PackedLast([], a);
    PackedLast([a], b);
    hide Packed;
  }
}
