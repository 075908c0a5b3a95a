/** std::map with string keys: the entries, in key order. */
module OrderedMap {

  datatype Entry<+V> = Entry(key: string, value: V)

  /** Lexicographic order by character. */
  predicate Less(a: string, b: string)
  {
    b != "" && (a == "" || a[0] < b[0] || (a[0] == b[0] && Less(a[1..], b[1..])))
  }

  lemma {:induction false} LessIrreflexive(a: string)
    ensures !Less(a, a)
  {
    if a != "" {
      LessIrreflexive(a[1..]);
    }
  }

  lemma {:induction false} LessTransitive(a: string, b: string, c: string)
    requires Less(a, b) && Less(b, c)
    ensures Less(a, c)
  {
    if a != "" && a[0] == b[0] == c[0] {
      LessTransitive(a[1..], b[1..], c[1..]);
    }
  }

  lemma {:induction false} LessTotal(a: string, b: string)
    ensures Less(a, b) || Less(b, a) || a == b
  {
    if a != "" && b != "" && a[0] == b[0] {
      LessTotal(a[1..], b[1..]);
      if a[1..] == b[1..] {
        assert a == [a[0]] + a[1..] && b == [b[0]] + b[1..];
      }
    }
  }

  /** The first difference decides: a smaller character, or an earlier end. */
  lemma {:induction false} LessAt(common: string, a: string, b: string)
    requires a == "" || b == "" || a[0] != b[0]
    ensures Less(common + a, common + b) <==> b != "" && (a == "" || a[0] < b[0])
    decreases |common|
  {
    if common == "" {
      assert common + a == a && common + b == b;
    } else {
      assert (common + a)[1..] == common[1..] + a && (common + b)[1..] == common[1..] + b;
      LessAt(common[1..], a, b);
    }
  }

  ghost predicate Sorted<V>(m: seq<Entry<V>>)
  {
    forall i, j | 0 <= i < j < |m| :: Less(m[i].key, m[j].key)
  }

  /** The mapping that the entries stand for. */
  ghost function AsMap<V>(m: seq<Entry<V>>): map<string, V>
  {
    if m == [] then map[] else AsMap(m[..|m| - 1])[m[|m| - 1].key := m[|m| - 1].value]
  }

  /** Every key of the mapping has an entry. */
  lemma {:induction false} EntryFor<V>(m: seq<Entry<V>>, k: string) returns (i: nat)
    requires k in AsMap(m)
    ensures i < |m| && m[i] == Entry(k, AsMap(m)[k])
  {
    var n := |m| - 1;
    if m[n].key == k {
      i := n;
    } else {
      i := EntryFor(m[..n], k);
    }
  }

  lemma {:induction false} KeyOfEntry<V>(m: seq<Entry<V>>, i: nat)
    requires i < |m|
    ensures m[i].key in AsMap(m)
  {
    var n := |m| - 1;
    if i < n {
      KeyOfEntry(m[..n], i);
    }
  }

  lemma SortedKeysDiffer<V>(m: seq<Entry<V>>, i: nat, j: nat)
    requires Sorted(m) && i < |m| && j < |m| && i != j
    ensures m[i].key != m[j].key
  {
    LessIrreflexive(m[i].key);
  }

  lemma EntryOf<V>(m: seq<Entry<V>>, i: nat)
    requires Sorted(m) && i < |m|
    ensures m[i].key in AsMap(m) && AsMap(m)[m[i].key] == m[i].value
  {
    hide AsMap, Sorted;
    KeyOfEntry(m, i);
    var j := EntryFor(m, m[i].key);
    if i != j {
      SortedKeysDiffer(m, i, j);
    }
  }

  /** map::find: the position of the key, or the size. */
  method Find<V>(m: seq<Entry<V>>, key: string) returns (i: nat)
    requires Sorted(m)
    ensures i <= |m| && (i < |m| <==> key in AsMap(m))
    ensures i < |m| ==> m[i] == Entry(key, AsMap(m)[key])
  {
    hide AsMap, Sorted;
    i := 0;
    while i < |m| && m[i].key != key
      invariant i <= |m| && forall j | 0 <= j < i :: m[j].key != key
    {
      i := i + 1;
    }
    if i < |m| {
      EntryOf(m, i);
    } else if key in AsMap(m) {
      ghost var j := EntryFor(m, key);
    }
  }

  /** Where a key belongs: after the smaller keys. */
  function Position<V>(m: seq<Entry<V>>, key: string): (i: nat)
    ensures i <= |m|
    ensures forall j | 0 <= j < i :: Less(m[j].key, key)
    ensures i < |m| ==> !Less(m[i].key, key)
  {
    if m == [] || !Less(m[0].key, key) then 0 else 1 + Position(m[1..], key)
  }

  function Inserted<V>(m: seq<Entry<V>>, key: string, value: V): seq<Entry<V>>
  {
    var i := Position(m, key);
    if i < |m| && m[i].key == key then m else m[..i] + [Entry(key, value)] + m[i..]
  }

  lemma SmallerBefore<V>(m: seq<Entry<V>>, key: string, i: nat)
    requires Sorted(m) && i <= |m| && (i < |m| ==> !Less(m[i].key, key) && m[i].key != key)
    ensures forall j | i <= j < |m| :: Less(key, m[j].key)
  {
    forall j | i <= j < |m|
      ensures Less(key, m[j].key)
    {
      LessTotal(m[i].key, key);
      if i < j {
        LessTransitive(key, m[i].key, m[j].key);
      }
    }
  }

  lemma SortedMapEqual<V>(m: seq<Entry<V>>, r: map<string, V>)
    requires Sorted(m)
    requires forall k | k in r :: Entry(k, r[k]) in m
    requires forall i | 0 <= i < |m| :: m[i].key in r
    ensures AsMap(m) == r
  {
    hide AsMap, Sorted;
    forall k | k in r
      ensures k in AsMap(m) && AsMap(m)[k] == r[k]
    {
      var i :| 0 <= i < |m| && m[i] == Entry(k, r[k]);
      EntryOf(m, i);
    }
    forall k | k in AsMap(m)
      ensures k in r
    {
      var i := EntryFor(m, k);
    }
  }

  /** map::insert does not overwrite, and keeps the order. */
  lemma InsertedIsInsert<V>(m: seq<Entry<V>>, key: string, value: V)
    requires Sorted(m)
    ensures Sorted(Inserted(m, key, value))
    ensures AsMap(Inserted(m, key, value)) == if key in AsMap(m) then AsMap(m) else AsMap(m)[key := value]
  {
    hide AsMap, Less, Position;
    var i := Position(m, key);
    if i < |m| && m[i].key == key {
      EntryOf(m, i);
    } else {
      SmallerBefore(m, key, i);
      forall j | 0 <= j < |m|
        ensures m[j].key != key
      {
        LessIrreflexive(key);
      }
      var r := m[..i] + [Entry(key, value)] + m[i..];
      assert Sorted(r);
      assert key !in AsMap(m) by {
        if key in AsMap(m) {
          var j := EntryFor(m, key);
        }
      }
      var expected := AsMap(m)[key := value];
      forall k | k in expected
        ensures Entry(k, expected[k]) in r
      {
        if k == key {
          assert r[i] == Entry(k, expected[k]);
        } else {
          var j := EntryFor(m, k);
          assert m[j] == r[if j < i then j else j + 1];
        }
      }
      forall j | 0 <= j < |r|
        ensures r[j].key in expected
      {
        if j < i {
          KeyOfEntry(m, j);
        } else if j > i {
          KeyOfEntry(m, j - 1);
        }
      }
      SortedMapEqual(r, expected);
    }
  }

  /** Two sorted lists of entries for one mapping are the same list. */
  lemma {:induction false} SortedIsCanonical<V>(m: seq<Entry<V>>, n: seq<Entry<V>>)
    requires Sorted(m) && Sorted(n) && AsMap(m) == AsMap(n)
    ensures m == n
  {
    hide AsMap, Less, Sorted;
    NoEntries(m);
    NoEntries(n);
    if m != [] {
      LastIsGreatest(m, n);
      LastIsGreatest(n, m);
      EntryOf(m, |m| - 1);
      EntryOf(n, |n| - 1);
      WithoutLast(m);
      WithoutLast(n);
      SortedIsCanonical(m[..|m| - 1], n[..|n| - 1]);
      assert m == m[..|m| - 1] + [m[|m| - 1]] && n == n[..|n| - 1] + [n[|n| - 1]];
    }
  }

  lemma NoEntries<V>(m: seq<Entry<V>>)
    ensures AsMap(m) == map[] <==> m == []
  {
    if m != [] {
      KeyOfEntry(m, 0);
    }
  }

  lemma LastIsGreatest<V>(m: seq<Entry<V>>, n: seq<Entry<V>>)
    requires Sorted(m) && Sorted(n) && AsMap(m) == AsMap(n) && m != [] && n != []
    ensures !Less(n[|n| - 1].key, m[|m| - 1].key)
    ensures m[|m| - 1].key == n[|n| - 1].key || Less(m[|m| - 1].key, n[|n| - 1].key)
  {
    hide AsMap, Less;
    var k := m[|m| - 1].key;
    KeyOfEntry(m, |m| - 1);
    var i := EntryFor(n, k);
    LessIrreflexive(k);
    if i < |n| - 1 && Less(n[|n| - 1].key, k) {
      LessTransitive(k, n[|n| - 1].key, k);
    }
  }

  lemma WithoutLast<V>(m: seq<Entry<V>>)
    requires Sorted(m) && m != []
    ensures Sorted(m[..|m| - 1]) && AsMap(m[..|m| - 1]) == AsMap(m) - {m[|m| - 1].key}
  {
    hide AsMap, Less;
    var front, last := m[..|m| - 1], m[|m| - 1];
    var r := AsMap(m) - {last.key};
    forall k | k in r
      ensures Entry(k, r[k]) in front
    {
      var i := EntryFor(m, k);
      assert front[i] == m[i];
    }
    forall i | 0 <= i < |front|
      ensures front[i].key in r
    {
      KeyOfEntry(m, i);
      SortedKeysDiffer(m, i, |m| - 1);
    }
    SortedMapEqual(front, r);
  }
}
