/**
 When the digraphs the program records are the true keystroke neighbours.

 Typing a file presses the keys `Keystrokes` lists; the honest digraph
 table would count each pair of neighbouring keystrokes. The program
 records exactly those pairs for a file unless a dead-key character comes
 first in the file (it then records the lone dead key as a digraph) or
 directly follows another dead-key character (it then pairs the accented
 character itself, not its live key, with the dead key).
 */
module Adjacency {
  import opened KeyMap
  import opened Parse
  import opened SeqFacts

  /** The pairs of neighbouring keystrokes, in order. */
  function Adjacent(ks: seq<string>): seq<string> {
    if ks == [] then [] else seq(|ks| - 1, i requires 0 <= i < |ks| - 1 => ks[i] + ks[i + 1])
  }

  /** No dead-key symbol comes first, and none comes right after another. */
  predicate TypedAsWritten(syms: seq<string>) {
    && (syms != [] ==> !IsDeadKeySymbol(syms[0]))
    && forall i :: 0 < i < |syms| && IsDeadKeySymbol(syms[i]) ==> !IsDeadKeySymbol(syms[i - 1])
  }

  /** The last keystroke of a symbol sequence is the last keystroke of its last symbol. */
  lemma KeystrokesEnd(syms: seq<string>)
    requires syms != []
    ensures Keystrokes(syms) != []
    ensures Keystrokes(syms)[|Keystrokes(syms)| - 1] == LastStroke(syms[|syms| - 1])
  {
  }

  /** One more keystroke adds the pair it forms with the keystroke before it. */
  lemma AdjacentAppend(ks: seq<string>, k: string)
    ensures Adjacent(ks + [k]) == Adjacent(ks) + (if ks == [] then [] else [ks[|ks| - 1] + k])
  {
    if ks != [] {
      var r := Adjacent(ks + [k]);
      var e := Adjacent(ks) + [ks[|ks| - 1] + k];
      assert |r| == |e|;
      forall i | 0 <= i < |r| ensures r[i] == e[i] {
        if i < |ks| - 1 {
          assert (ks + [k])[i] == ks[i] && (ks + [k])[i + 1] == ks[i + 1];
        }
      }
    }
  }

  /** Extending a symbol sequence by one symbol keeps `TypedAsWritten` exactly when the new neighbours allow it. */
  lemma TypedAsWrittenAppend(pre: seq<string>, s: string)
    ensures TypedAsWritten(pre + [s]) <==>
              if pre == [] then !IsDeadKeySymbol(s)
              else TypedAsWritten(pre) && (IsDeadKeySymbol(s) ==> !IsDeadKeySymbol(pre[|pre| - 1]))
  {
    var syms := pre + [s];
    if pre != [] && TypedAsWritten(syms) {
      assert syms[0] == pre[0];
      forall i | 0 < i < |pre| && IsDeadKeySymbol(pre[i])
        ensures !IsDeadKeySymbol(pre[i - 1])
      {
        assert syms[i] == pre[i] && syms[i - 1] == pre[i - 1];
      }
      assert syms[|pre|] == s && syms[|pre| - 1] == pre[|pre| - 1];
    }
  }

  /** The keystrokes and digraph keys of one more symbol. */
  lemma ExtendByOne(pre: seq<string>, s: string)
    ensures Keystrokes(pre + [s]) == Keystrokes(pre) + Strokes(s)
    ensures DigraphKeys(pre + [s]) == DigraphKeys(pre) + PairsAt(pre + [s], |pre|)
  {
    assert (pre + [s])[..|pre|] == pre;
  }

  /** A file of one symbol: its digraphs are the neighbouring keystrokes exactly when it is direct. */
  lemma OneSymbol(s: string)
    ensures DigraphKeys([s]) == Adjacent(Keystrokes([s])) <==> !IsDeadKeySymbol(s)
  {
    ExtendByOne([], s);
    assert [] + [s] == [s];
  }

  /** Two more keystrokes add the pairs they form with each other and with the one before. */
  lemma AdjacentAppendTwo(ks: seq<string>, d: string, l: string)
    requires ks != []
    ensures Adjacent(ks + [d, l]) == Adjacent(ks) + [ks[|ks| - 1] + d, d + l]
  {
    var k1 := ks + [d];
    AdjacentAppend(ks, d);
    AdjacentAppend(k1, l);
    assert k1[|k1| - 1] == d;
    assert ks + [d, l] == k1 + [l];
  }

  /** A dead key after a symbol forms the same digraph with it as with its last keystroke exactly when the symbol is direct. */
  lemma DeadKeyAnchor(p: string, d: string)
    requires |p| == 1
    ensures p + d == LastStroke(p) + d <==> !IsDeadKeySymbol(p)
  {
    if IsDeadKeySymbol(p) {
      LiveKeyDiffersFromSymbol(p);
      assert (p + d)[..1] == p;
      assert (LastStroke(p) + d)[..1] == LastStroke(p);
    }
  }

  /** After a dead-key symbol, the extension matches exactly when the symbol before is direct. */
  lemma DeadAfter(pre: seq<string>, s: string)
    requires SingleChars(pre) && pre != [] && IsDeadKeySymbol(s)
    ensures DigraphKeys(pre + [s]) == Adjacent(Keystrokes(pre + [s]))
        <==> DigraphKeys(pre) == Adjacent(Keystrokes(pre)) && !IsDeadKeySymbol(pre[|pre| - 1])
  {
    var p, K, dk := pre[|pre| - 1], Keystrokes(pre), GetDeadKey(s);
    ExtendByOne(pre, s);
    KeystrokesEnd(pre);
    assert PairsAt(pre + [s], |pre|) == [p + dk.deadchar, dk.deadchar + dk.livechar];
    AdjacentAppendTwo(K, dk.deadchar, dk.livechar);
    ConcatEqual(DigraphKeys(pre), PairsAt(pre + [s], |pre|), Adjacent(K), [LastStroke(p) + dk.deadchar, dk.deadchar + dk.livechar]);
    DeadKeyAnchor(p, dk.deadchar);
  }

  /** After a direct symbol, the extension matches exactly when the sequence before does. */
  lemma DirectAfter(pre: seq<string>, s: string)
    requires pre != [] && !IsDeadKeySymbol(s)
    ensures DigraphKeys(pre + [s]) == Adjacent(Keystrokes(pre + [s]))
        <==> DigraphKeys(pre) == Adjacent(Keystrokes(pre))
  {
    var p, K := pre[|pre| - 1], Keystrokes(pre);
    ExtendByOne(pre, s);
    KeystrokesEnd(pre);
    assert (pre + [s])[|pre| - 1] == p;
    AdjacentAppend(K, s);
    ConcatEqual(DigraphKeys(pre), PairsAt(pre + [s], |pre|), Adjacent(K), [LastStroke(p) + s]);
  }

  /**
   The program's digraph keys for a file are the pairs of neighbouring
   keystrokes if and only if no dead-key character comes first and no
   dead-key character follows another.
   */
  lemma {:induction false} DigraphsAreAdjacentKeystrokes(syms: seq<string>)
    requires SingleChars(syms)
    ensures DigraphKeys(syms) == Adjacent(Keystrokes(syms)) <==> TypedAsWritten(syms)
  {
    if syms != [] {
      var pre, s := syms[..|syms| - 1], syms[|syms| - 1];
      assert syms == pre + [s];
      TypedAsWrittenAppend(pre, s);
      if pre == [] {
        OneSymbol(s);
      } else {
        DigraphsAreAdjacentKeystrokes(pre);
        if IsDeadKeySymbol(s) {
          DeadAfter(pre, s);
        } else {
          DirectAfter(pre, s);
        }
      }
    }
  }
}
