/**
 `getSortedMap` and `entry` in corpus/corpus.go: the entries of a table
 listed by descending count. The order among equal counts is left open,
 as the unstable sort of the program leaves it.
 */
module Sorting {
  import opened Counts
  import opened SeqFacts

  /** One key of a table with its count. */
  datatype Entry = Entry(key: string, value: nat)

  /** Counts never increase along the list. */
  predicate ByDescendingCount(es: seq<Entry>) {
    forall i, j :: 0 <= i < j < |es| ==> es[i].value >= es[j].value
  }

  /** The entries of a table whose keys lie in `ks`. */
  function EntriesIn(m: Table, ks: set<string>): set<Entry> {
    set k | k in ks && k in m :: Entry(k, m[k])
  }

  /** All entries of a table. */
  function Entries(m: Table): set<Entry> {
    EntriesIn(m, m.Keys)
  }

  /** Inserts `e` into a list ordered by descending count, keeping it ordered. */
  function Insert(es: seq<Entry>, e: Entry): (r: seq<Entry>)
    requires ByDescendingCount(es)
    ensures ByDescendingCount(r)
    ensures multiset(r) == multiset(es) + multiset{e}
    ensures |r| == |es| + 1
  {
    if es == [] || es[0].value <= e.value then
      ConsLargest(e, es);
      [e] + es
    else
      var rest := Insert(es[1..], e);
      ConsAfterInsert(es, e, rest);
      [es[0]] + rest
  }

  /** An entry at least as large as the head of an ordered list can go in front of it. */
  lemma ConsLargest(x: Entry, es: seq<Entry>)
    requires ByDescendingCount(es)
    requires es == [] || es[0].value <= x.value
    ensures ByDescendingCount([x] + es)
  {
    var r := [x] + es;
    forall i, j | 0 <= i < j < |r| ensures r[i].value >= r[j].value {
      if i == 0 && j > 1 {
        assert r[j] == es[j - 1] && es[0].value >= es[j - 1].value;
      }
    }
  }

  /** The head of an ordered list stays in front of the rest with a smaller entry inserted. */
  lemma ConsAfterInsert(es: seq<Entry>, e: Entry, rest: seq<Entry>)
    requires ByDescendingCount(es) && es != [] && es[0].value > e.value
    requires ByDescendingCount(rest) && multiset(rest) == multiset(es[1..]) + multiset{e}
    ensures ByDescendingCount([es[0]] + rest)
    ensures multiset([es[0]] + rest) == multiset(es) + multiset{e}
  {
    var r := [es[0]] + rest;
    forall j | 0 < j < |r| ensures es[0].value >= r[j].value {
      assert r[j] == rest[j - 1] && rest[j - 1] in multiset(rest);
      if rest[j - 1] != e {
        assert rest[j - 1] in multiset(es[1..]);
        var k :| 0 <= k < |es[1..]| && es[1..][k] == rest[j - 1];
        assert es[k + 1] == rest[j - 1];
      }
    }
    forall i, j | 0 <= i < j < |r| ensures r[i].value >= r[j].value {
      if i > 0 {
        assert r[i] == rest[i - 1] && r[j] == rest[j - 1];
      }
    }
    RemoveFirst(es);
  }

  /**
   Lists every entry of `m` exactly once, ordered by descending count.
   The program collects the entries in map order and sorts them; this
   inserts each one into place in map order.
   */
  method GetSortedMap(m: Table) returns (es: seq<Entry>)
    ensures ByDescendingCount(es)
    ensures multiset(es) == multiset(Entries(m))
    ensures |es| == |m|
    ensures forall i :: 0 <= i < |es| ==> es[i].key in m && es[i].value == m[es[i].key]
    ensures forall k :: k in m ==> exists i :: 0 <= i < |es| && es[i].key == k
  {
    es := [];
    var rest := m.Keys;
    while rest != {}
      invariant rest <= m.Keys
      invariant ByDescendingCount(es)
      invariant multiset(es) == multiset(EntriesIn(m, m.Keys - rest))
      invariant |es| + |rest| == |m|
      decreases |rest|
    {
      var k :| k in rest;
      var e := Entry(k, m[k]);
      assert EntriesIn(m, m.Keys - (rest - {k})) == EntriesIn(m, m.Keys - rest) + {e};
      assert e !in EntriesIn(m, m.Keys - rest);
      es := Insert(es, e);
      rest := rest - {k};
    }
    assert m.Keys - rest == m.Keys;
    PermutationOfEntries(m, es);
  }

  /**
   What a permutation of a table's entries lists: each entry carries its
   key's count, every key appears, and no key appears twice.
   */
  lemma PermutationOfEntries(m: Table, es: seq<Entry>)
    requires multiset(es) == multiset(Entries(m))
    ensures forall i :: 0 <= i < |es| ==> es[i].key in m && es[i].value == m[es[i].key]
    ensures forall k :: k in m ==> exists i :: 0 <= i < |es| && es[i].key == k
    ensures forall i, j :: 0 <= i < j < |es| ==> es[i].key != es[j].key
  {
    forall i | 0 <= i < |es|
      ensures es[i].key in m && es[i].value == m[es[i].key]
    {
      assert es[i] in multiset(es);
    }
    forall k | k in m
      ensures exists i :: 0 <= i < |es| && es[i].key == k
    {
      var e := Entry(k, m[k]);
      assert e in Entries(m);
      assert e in multiset(es);
      var i :| 0 <= i < |es| && es[i] == e;
    }
    forall i, j | 0 <= i < j < |es|
      ensures es[i].key != es[j].key
    {
      assert es == es[..j] + es[j..];
      assert es[i] in multiset(es[..j]) by { assert es[..j][i] == es[i]; }
      assert es[j] in multiset(es[j..]) by { assert es[j..][0] == es[j]; }
      assert multiset(es)[es[j]] == multiset(es[..j])[es[j]] + multiset(es[j..])[es[j]];
      assert multiset(es)[es[j]] <= 1;
      assert es[i] != es[j];
    }
  }

  /** The counts of a list of entries, in order. */
  function Values(es: seq<Entry>): (vs: seq<nat>)
    ensures |vs| == |es|
  {
    if es == [] then [] else [es[0].value] + Values(es[1..])
  }

  /** A list of counts never increases; `ValuesOrdered` ties it to `ByDescendingCount`. */
  predicate NonIncreasing(vs: seq<nat>) {
    forall i, j :: 0 <= i < j < |vs| ==> vs[i] >= vs[j]
  }

  lemma {:induction false} ValuesAppend(a: seq<Entry>, b: seq<Entry>)
    ensures Values(a + b) == Values(a) + Values(b)
  {
    if a != [] {
      assert (a + b)[1..] == a[1..] + b;
      ValuesAppend(a[1..], b);
    } else {
      assert a + b == b;
    }
  }

  /**
   `ByDescendingCount` on entries and `NonIncreasing` on their counts are
   one order: a list is ordered by descending count exactly when its counts
   never increase.
   */
  lemma ValuesOrdered(es: seq<Entry>)
    ensures ByDescendingCount(es) <==> NonIncreasing(Values(es))
  {
    ValuesAt(es);
  }

  /** Each count sits at its entry's position. */
  lemma {:induction false} ValuesAt(es: seq<Entry>)
    ensures forall i :: 0 <= i < |es| ==> Values(es)[i] == es[i].value
  {
    if es != [] {
      ValuesAt(es[1..]);
    }
  }

  /** Taking one entry out of a list takes its count out of the list's counts. */
  lemma ValuesSplit(front: seq<Entry>, x: Entry, back: seq<Entry>)
    ensures multiset(Values(front + [x] + back)) == multiset{x.value} + multiset(Values(front + back))
  {
    ValuesAppend(front + [x], back);
    ValuesAppend(front, [x]);
    ValuesAppend(front, back);
    assert Values([x]) == [x.value];
    var F, B := Values(front), Values(back);
    assert multiset(F + [x.value] + B) == multiset(F) + multiset{x.value} + multiset(B);
  }

  /** Permuting entries permutes their counts. */
  lemma {:induction false} ValuesPermutation(xs: seq<Entry>, ys: seq<Entry>)
    requires multiset(xs) == multiset(ys)
    ensures multiset(Values(xs)) == multiset(Values(ys))
    decreases |xs|
  {
    if xs == [] {
      assert |ys| == |multiset(ys)| == 0;
    } else {
      var x := xs[0];
      assert x in multiset(ys);
      var j :| 0 <= j < |ys| && ys[j] == x;
      var front, back := ys[..j], ys[j + 1..];
      RemoveFirst(xs);
      RemoveAt(ys, j);
      ValuesPermutation(xs[1..], front + back);
      ValuesSplit(front, x, back);
      assert Values(xs) == [x.value] + Values(xs[1..]);
    }
  }

  /** The largest count of a non-increasing list comes first. */
  lemma HeadIsLargest(a: seq<nat>, v: nat)
    requires NonIncreasing(a) && v in multiset(a)
    ensures a[0] >= v
  {
    var i :| 0 <= i < |a| && a[i] == v;
    assert i == 0 || a[0] >= a[i];
  }

  /** Dropping the head of a non-increasing list leaves it non-increasing. */
  lemma TailNonIncreasing(a: seq<nat>)
    requires NonIncreasing(a) && a != []
    ensures NonIncreasing(a[1..])
  {
    forall i, j | 0 <= i < j < |a| - 1 ensures a[1..][i] >= a[1..][j] {
      assert a[1..][i] == a[i + 1] && a[1..][j] == a[j + 1];
    }
  }

  /** Two non-increasing lists of counts with the same counts are equal. */
  lemma {:induction false} SortedCountsUnique(a: seq<nat>, b: seq<nat>)
    requires NonIncreasing(a) && NonIncreasing(b)
    requires multiset(a) == multiset(b)
    ensures a == b
    decreases |a|
  {
    if a == [] {
      assert |b| == |multiset(b)| == 0;
    } else {
      assert a[0] in multiset(b);
      assert b != [];
      assert b[0] in multiset(a);
      HeadIsLargest(a, b[0]);
      HeadIsLargest(b, a[0]);
      RemoveFirst(a);
      RemoveFirst(b);
      TailNonIncreasing(a);
      TailNonIncreasing(b);
      SortedCountsUnique(a[1..], b[1..]);
      assert a[0] == b[0];
      calc {
        a;
        [a[0]] + a[1..];
        [b[0]] + b[1..];
        b;
      }
    }
  }

  /**
   The listing is determined up to the order of equal counts: any two
   listings of the same table by descending count have the same counts
   position by position. In particular sorting an already sorted listing
   again changes nothing but the order among ties.
   */
  lemma SortedListingsAgree(m: Table, xs: seq<Entry>, ys: seq<Entry>)
    requires ByDescendingCount(xs) && multiset(xs) == multiset(Entries(m))
    requires ByDescendingCount(ys) && multiset(ys) == multiset(Entries(m))
    ensures Values(xs) == Values(ys)
  {
    ValuesPermutation(xs, ys);
    ValuesOrdered(xs);
    ValuesOrdered(ys);
    SortedCountsUnique(Values(xs), Values(ys));
  }
}
