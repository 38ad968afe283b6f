/**
 Frequency tables: the `map[string]int` tables of corpus/corpus.go and the
 single update the program makes to them (`addToMapAndIncrement`).

 A table is related to the multiset of keys recorded in it: `FromBag` reads
 a multiset as a table, `Merge` is the key-wise sum of two tables, and
 `Tally(t, ks)` is `t` with every key of `ks` recorded once more.
 */
module Counts {

  /** Occurrence count per key; a key is present only once it has been recorded. */
  type Table = map<string, nat>

  /** The count of `k`, zero when `k` was never recorded. */
  function Get(t: Table, k: string): nat {
    if k in t then t[k] else 0
  }

  /** Every present key has been recorded at least once. */
  predicate Positive(t: Table) {
    forall k :: k in t ==> t[k] >= 1
  }

  /**
   Records one more occurrence of `k`: its count goes up by one (from zero
   when absent), the key set gains at most `k`, and nothing else changes.
   */
  function Increment(t: Table, k: string): (r: Table)
    ensures r.Keys == t.Keys + {k}
    ensures Get(r, k) == Get(t, k) + 1
    ensures forall j :: j != k ==> Get(r, j) == Get(t, j)
    ensures Positive(t) ==> Positive(r)
  {
    if k in t then t[k := t[k] + 1] else t[k := 1]
  }

  /** Key-wise sum of two tables. */
  function Merge(a: Table, b: Table): (r: Table)
    ensures r.Keys == a.Keys + b.Keys
    ensures forall k :: Get(r, k) == Get(a, k) + Get(b, k)
    ensures Positive(a) && Positive(b) ==> Positive(r)
  {
    map k | k in a.Keys + b.Keys :: Get(a, k) + Get(b, k)
  }

  /** The table that counts each element of a multiset. */
  function FromBag(b: multiset<string>): (r: Table)
    ensures forall k :: Get(r, k) == b[k]
    ensures Positive(r)
  {
    map k | k in b :: b[k]
  }

  /** `t` with every key of `ks` recorded once more per occurrence. */
  function Tally(t: Table, ks: seq<string>): Table {
    Merge(t, FromBag(multiset(ks)))
  }

  /** Two positive tables that agree on every count are equal. */
  lemma PositiveExtensionality(a: Table, b: Table)
    requires Positive(a) && Positive(b)
    requires forall k :: Get(a, k) == Get(b, k)
    ensures a == b
  {
    assert a.Keys == b.Keys by {
      forall k | k in a ensures k in b {
        assert Get(a, k) >= 1;
      }
      forall k | k in b ensures k in a {
        assert Get(b, k) >= 1;
      }
    }
    Extensionality(a, b);
  }

  /** Two tables with the same keys that agree on every count are equal. */
  lemma Extensionality(a: Table, b: Table)
    requires a.Keys == b.Keys
    requires forall k :: Get(a, k) == Get(b, k)
    ensures a == b
  {
    forall k | k in a ensures a[k] == b[k] {
      assert Get(a, k) == Get(b, k);
    }
  }

  /** Tallying adds the multiset of the tallied keys to the counts. */
  lemma TallyCounts(t: Table, ks: seq<string>)
    ensures Tally(t, ks).Keys == t.Keys + set k | k in ks
    ensures forall k :: Get(Tally(t, ks), k) == Get(t, k) + multiset(ks)[k]
  {
  }

  /** Incrementing one key is tallying the one-key sequence. */
  lemma IncrementIsTally(t: Table, k: string)
    ensures Increment(t, k) == Tally(t, [k])
  {
    Extensionality(Increment(t, k), Tally(t, [k]));
  }

  /** Incrementing two keys in turn is tallying the two-key sequence. */
  lemma IncrementTwiceIsTally(t: Table, a: string, b: string)
    ensures Increment(Increment(t, a), b) == Tally(t, [a, b])
  {
    IncrementIsTally(t, a);
    IncrementIsTally(Increment(t, a), b);
    TallyAppend(t, [a], [b]);
    assert [a] + [b] == [a, b];
  }

  /** Tallying nothing leaves a table unchanged. */
  lemma TallyNothing(t: Table)
    ensures Tally(t, []) == t
  {
    Extensionality(Tally(t, []), t);
  }

  /** Tallying two sequences one after the other is tallying their concatenation. */
  lemma TallyAppend(t: Table, a: seq<string>, b: seq<string>)
    ensures Tally(Tally(t, a), b) == Tally(t, a + b)
  {
    calc {
      Tally(Tally(t, a), b);
      Merge(Merge(t, FromBag(multiset(a))), FromBag(multiset(b)));
      { MergeAssociative(t, FromBag(multiset(a)), FromBag(multiset(b))); }
      Merge(t, Merge(FromBag(multiset(a)), FromBag(multiset(b))));
      { MergeFromBag(multiset(a), multiset(b)); }
      Merge(t, FromBag(multiset(a) + multiset(b)));
      { assert multiset(a + b) == multiset(a) + multiset(b); }
      Tally(t, a + b);
    }
  }

  /** Reading a multiset union as a table is the key-wise sum of the two tables. */
  lemma MergeFromBag(a: multiset<string>, b: multiset<string>)
    ensures Merge(FromBag(a), FromBag(b)) == FromBag(a + b)
  {
    PositiveExtensionality(Merge(FromBag(a), FromBag(b)), FromBag(a + b));
  }

  /** Tallying onto a table is merging in the table of the tallied keys. */
  lemma TallyIsMerge(t: Table, ks: seq<string>)
    ensures Tally(t, ks) == Merge(t, Tally(map[], ks))
  {
    Extensionality(Tally(t, ks), Merge(t, Tally(map[], ks)));
  }

  /** The key-wise sum is associative. */
  lemma MergeAssociative(a: Table, b: Table, c: Table)
    ensures Merge(Merge(a, b), c) == Merge(a, Merge(b, c))
  {
    Extensionality(Merge(Merge(a, b), c), Merge(a, Merge(b, c)));
  }

  /** The empty table is the unit of the key-wise sum. */
  lemma MergeEmpty(a: Table)
    ensures Merge(map[], a) == a
    ensures Merge(a, map[]) == a
  {
    Extensionality(Merge(map[], a), a);
    Extensionality(Merge(a, map[]), a);
  }
}
