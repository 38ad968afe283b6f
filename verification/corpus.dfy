/**
 Parsing files into shared tables: `parseCorpus` for one file and the
 accumulation loop of `main` over all files (corpus/corpus.go). The left
 neighbour is reset at the start of every file while the tables are
 shared, so a run's tables are the key-wise sum of what each file counts
 on its own, whatever the order of the file contents.
 */
module Corpus {
  import opened Counts
  import opened Parse
  import opened SeqFacts

  /** The tables at the start of a run. */
  const NoTables: Tables := Tables(map[], map[])

  /** Key-wise sum of both tables. */
  function Add(x: Tables, y: Tables): Tables {
    Tables(Merge(x.singles, y.singles), Merge(x.digraphs, y.digraphs))
  }

  /**
   Parses one file into the tables `t`, starting without a left neighbour.
   The single table gains the keystrokes of the file's counted characters
   and the digraph table gains their digraph keys.
   */
  function ParseCorpus(lower: char -> char, t: Tables, f: seq<char>): (r: Tables)
    ensures r.singles == Tally(t.singles, Keystrokes(Symbols(lower, f)))
    ensures r.digraphs == Tally(t.digraphs, DigraphKeys(Symbols(lower, f)))
  {
    RunMatchesReference(lower, t.singles, t.digraphs, f);
    var st := Run(lower, StartOfFile(t), f);
    Tables(st.singles, st.digraphs)
  }

  /** What one file counts on its own, into empty tables. */
  function FileTables(lower: char -> char, f: seq<char>): Tables {
    ParseCorpus(lower, NoTables, f)
  }

  /** The key-wise sum of what each file counts on its own. */
  function SumOfFiles(lower: char -> char, files: seq<seq<char>>): Tables {
    if files == [] then NoTables
    else Add(SumOfFiles(lower, files[..|files| - 1]), FileTables(lower, files[|files| - 1]))
  }

  /** A file adds to the shared tables exactly what it counts on its own. */
  lemma ParseCorpusAddsFileTables(lower: char -> char, t: Tables, f: seq<char>)
    ensures ParseCorpus(lower, t, f) == Add(t, FileTables(lower, f))
  {
    var syms := Symbols(lower, f);
    TallyIsMerge(t.singles, Keystrokes(syms));
    TallyIsMerge(t.digraphs, DigraphKeys(syms));
  }

  /**
   The loop of `main`: every file in turn parsed into one pair of shared
   tables. The result is the key-wise sum of the files' own tables, so no
   digraph spans two files.
   */
  function Accumulate(lower: char -> char, files: seq<seq<char>>): (r: Tables)
    ensures r == SumOfFiles(lower, files)
  {
    if files == [] then NoTables
    else
      var before := Accumulate(lower, files[..|files| - 1]);
      ParseCorpusAddsFileTables(lower, before, files[|files| - 1]);
      ParseCorpus(lower, before, files[|files| - 1])
  }

  lemma AddCommutative(x: Tables, y: Tables)
    ensures Add(x, y) == Add(y, x)
  {
    Extensionality(Merge(x.singles, y.singles), Merge(y.singles, x.singles));
    Extensionality(Merge(x.digraphs, y.digraphs), Merge(y.digraphs, x.digraphs));
  }

  lemma AddAssociative(x: Tables, y: Tables, z: Tables)
    ensures Add(Add(x, y), z) == Add(x, Add(y, z))
  {
    MergeAssociative(x.singles, y.singles, z.singles);
    MergeAssociative(x.digraphs, y.digraphs, z.digraphs);
  }

  lemma AddNoTables(x: Tables)
    ensures Add(NoTables, x) == x
    ensures Add(x, NoTables) == x
  {
    MergeEmpty(x.singles);
    MergeEmpty(x.digraphs);
  }

  /** Parsing two lists of files in turn adds up what each list counts. */
  lemma {:induction false} AccumulateAppend(lower: char -> char, a: seq<seq<char>>, b: seq<seq<char>>)
    ensures Accumulate(lower, a + b) == Add(Accumulate(lower, a), Accumulate(lower, b))
    decreases |b|
  {
    if b == [] {
      assert a + b == a;
      AddNoTables(Accumulate(lower, a));
    } else {
      var b', f := b[..|b| - 1], b[|b| - 1];
      assert (a + b)[..|a + b| - 1] == a + b' && (a + b)[|a + b| - 1] == f;
      AccumulateAppend(lower, a, b');
      AddAssociative(Accumulate(lower, a), Accumulate(lower, b'), FileTables(lower, f));
    }
  }

  /** Moving one file to the end of a sum does not change it. */
  lemma AddSwap(a: Tables, one: Tables, b: Tables)
    ensures Add(Add(a, one), b) == Add(Add(a, b), one)
  {
    AddAssociative(a, one, b);
    AddCommutative(one, b);
    AddAssociative(a, b, one);
  }

  /** Splits a permutation of `xs` around an occurrence of its last element. */
  lemma SplitAtLast<T>(xs: seq<T>, ys: seq<T>) returns (front: seq<T>, back: seq<T>)
    requires xs != [] && multiset(xs) == multiset(ys)
    ensures ys == front + [xs[|xs| - 1]] + back
    ensures multiset(front + back) == multiset(xs[..|xs| - 1])
  {
    var f := xs[|xs| - 1];
    assert f in multiset(ys);
    var j :| 0 <= j < |ys| && ys[j] == f;
    front, back := ys[..j], ys[j + 1..];
    RemoveAt(ys, j);
    RemoveLast(xs);
  }

  /** A run over one file counts what the file counts on its own. */
  lemma AccumulateOne(lower: char -> char, f: seq<char>)
    ensures Accumulate(lower, [f]) == FileTables(lower, f)
  {
    assert [f][..0] == [];
    AddNoTables(FileTables(lower, f));
  }

  /** Moving one file of a run to the end does not change the run's tables. */
  lemma AccumulateMoveToEnd(lower: char -> char, front: seq<seq<char>>, f: seq<char>, back: seq<seq<char>>)
    ensures Accumulate(lower, front + [f] + back) == Accumulate(lower, front + back + [f])
  {
    var A, B, one := Accumulate(lower, front), Accumulate(lower, back), Accumulate(lower, [f]);
    AccumulateAppend(lower, front + [f], back);
    AccumulateAppend(lower, front, [f]);
    AccumulateAppend(lower, front, back);
    AddSwap(A, one, B);
    AccumulateAppend(lower, front + back, [f]);
  }

  /** The tables of a run depend only on the multiset of file contents, not on the order in which they are parsed. */
  lemma {:induction false} AccumulateOrderIndependent(lower: char -> char, xs: seq<seq<char>>, ys: seq<seq<char>>)
    requires multiset(xs) == multiset(ys)
    ensures Accumulate(lower, xs) == Accumulate(lower, ys)
    decreases |xs|
  {
    if xs == [] {
      assert |ys| == |multiset(ys)| == 0;
    } else {
      var xs', f := xs[..|xs| - 1], xs[|xs| - 1];
      var front, back := SplitAtLast(xs, ys);
      AccumulateOrderIndependent(lower, xs', front + back);
      AccumulateMoveToEnd(lower, front, f, back);
      var zs := front + back + [f];
      assert Accumulate(lower, zs) == Accumulate(lower, ys);
      assert zs[..|zs| - 1] == front + back && zs[|zs| - 1] == f;
      assert Accumulate(lower, zs) == ParseCorpus(lower, Accumulate(lower, front + back), f);
      assert Accumulate(lower, xs) == ParseCorpus(lower, Accumulate(lower, xs'), f);
      assert Accumulate(lower, xs) == Accumulate(lower, zs);
    }
  }

  /** A file parsed into tables free of control characters leaves them free of them. */
  lemma ParseCorpusNoControlKeys(lower: char -> char, t: Tables, f: seq<char>)
    requires KeepsCounted(lower)
    requires forall k :: k in t.singles ==> NoControl(k)
    requires forall k :: k in t.digraphs ==> NoControl(k)
    ensures forall k :: k in ParseCorpus(lower, t, f).singles ==> NoControl(k)
    ensures forall k :: k in ParseCorpus(lower, t, f).digraphs ==> NoControl(k)
  {
    var syms := Symbols(lower, f);
    SymbolsNoControl(lower, f);
    KeystrokesNoControl(syms);
    DigraphKeysNoControl(syms);
    TallyNoControl(t.singles, Keystrokes(syms));
    TallyNoControl(t.digraphs, DigraphKeys(syms));
  }

  /**
   No key of either table holds a character with code 31 or below: the
   program tests each character before lower-casing it, and lower-casing
   never produces such a character.
   */
  lemma {:induction false} NoControlKeys(lower: char -> char, files: seq<seq<char>>)
    requires KeepsCounted(lower)
    ensures forall k :: k in Accumulate(lower, files).singles ==> NoControl(k)
    ensures forall k :: k in Accumulate(lower, files).digraphs ==> NoControl(k)
    decreases |files|
  {
    if files != [] {
      var init := files[..|files| - 1];
      NoControlKeys(lower, init);
      ParseCorpusNoControlKeys(lower, Accumulate(lower, init), files[|files| - 1]);
    }
  }
}
