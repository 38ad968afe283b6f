/**
 Worked examples: the symbols, keystrokes and digraph keys the model yields
 for a few short files, lower-cased text throughout (so lower-casing is the
 identity).
 */
module Scenarios {
  import opened Counts
  import opened KeyMap
  import opened Parse
  import opened Corpus

  /** Lower-casing of text that is already lower case. */
  function AlreadyLower(c: char): char {
    c
  }

  // ---------------------------------------------------------------------
  // Unfolding the reference description on one- and two-character files

  lemma SymbolsOfOne(c: char)
    requires Counted(c)
    ensures Symbols(AlreadyLower, [c]) == [MapToAscii(c)]
  {
    assert [c][..0] == [];
  }

  lemma SymbolsOfTwo(c: char, d: char)
    requires Counted(c) && Counted(d)
    ensures Symbols(AlreadyLower, [c, d]) == [MapToAscii(c), MapToAscii(d)]
  {
    assert [c, d][..1] == [c];
    SymbolsOfOne(c);
  }

  lemma ReferenceOfOne(s: string)
    ensures Keystrokes([s]) == Strokes(s)
    ensures DigraphKeys([s]) == PairsAt([s], 0)
  {
    assert [s][..0] == [];
  }

  lemma ReferenceOfTwo(s: string, t: string)
    ensures Keystrokes([s, t]) == Strokes(s) + Strokes(t)
    ensures DigraphKeys([s, t]) == PairsAt([s], 0) + PairsAt([s, t], 1)
  {
    assert [s, t][..1] == [s];
    ReferenceOfOne(s);
  }

  /** The tables of a file whose counted symbols, keystrokes and digraph keys are known. */
  lemma FileTablesFrom(f: seq<char>, syms: seq<string>, ks: seq<string>, ds: seq<string>, singles: Table, digraphs: Table)
    requires Symbols(AlreadyLower, f) == syms
    requires Keystrokes(syms) == ks && DigraphKeys(syms) == ds
    requires Positive(singles) && forall k :: Get(singles, k) == multiset(ks)[k]
    requires Positive(digraphs) && forall k :: Get(digraphs, k) == multiset(ds)[k]
    ensures FileTables(AlreadyLower, f) == Tables(singles, digraphs)
  {
    MergeEmpty(FromBag(multiset(ks)));
    MergeEmpty(FromBag(multiset(ds)));
    PositiveExtensionality(FromBag(multiset(ks)), singles);
    PositiveExtensionality(FromBag(multiset(ds)), digraphs);
  }

  // ---------------------------------------------------------------------
  // The characters the examples use

  /** A character outside every table of the layout is its own single keystroke. */
  lemma Plain(c: char)
    requires Counted(c) && c !in Brackets && c !in AccentKeys && c !in DeadKeyChars
    ensures MapToAscii(c) == [c] && !IsDeadKeySymbol([c])
    ensures Strokes([c]) == [[c]] && LastStroke([c]) == [c]
  {
  }

  lemma DiaeresisA()
    ensures MapToAscii('ä') == "ä" && IsDeadKeySymbol("ä")
    ensures GetDeadKey("ä") == DeadKey("¨", "a")
    ensures Strokes("ä") == ["¨", "a"] && LastStroke("ä") == "a"
  {
  }

  lemma DiaeresisO()
    ensures MapToAscii('ö') == "ö" && IsDeadKeySymbol("ö")
    ensures GetDeadKey("ö") == DeadKey("¨", "o")
    ensures Strokes("ö") == ["¨", "o"]
  {
  }

  // ---------------------------------------------------------------------
  // The examples

  lemma CountsAB()
    ensures forall k :: Get(map["a" := 1, "b" := 1], k) == multiset(["a", "b"])[k]
    ensures forall k :: Get(map["ab" := 1], k) == multiset(["ab"])[k]
  {
  }

  lemma ReferenceAB()
    ensures Symbols(AlreadyLower, "ab") == ["a", "b"]
    ensures Keystrokes(["a", "b"]) == ["a", "b"]
    ensures DigraphKeys(["a", "b"]) == ["ab"]
  {
    assert "ab" == ['a', 'b'];
    Plain('a');
    Plain('b');
    SymbolsOfTwo('a', 'b');
    ReferenceOfTwo("a", "b");
    assert PairsAt(["a", "b"], 1) == ["a" + "b"];
    assert "a" + "b" == "ab";
  }

  /** Two plain letters: each counted once, and one digraph. */
  lemma TwoLetters()
    ensures FileTables(AlreadyLower, "ab") == Tables(map["a" := 1, "b" := 1], map["ab" := 1])
  {
    ReferenceAB();
    CountsAB();
    FileTablesFrom("ab", ["a", "b"], ["a", "b"], ["ab"], map["a" := 1, "b" := 1], map["ab" := 1]);
  }

  lemma PairsOfFirstA()
    ensures PairsAt(["ä"], 0) == ["¨", "¨a"]
  {
    DiaeresisA();
    assert "" + "¨" == "¨" && "¨" + "a" == "¨a";
  }

  /**
   A dead-key character first in a file records its lone dead key as a
   digraph; a direct character after it pairs with its live key.
   */
  lemma DeadKeyFirst()
    ensures Symbols(AlreadyLower, "äb") == ["ä", "b"]
    ensures Keystrokes(["ä", "b"]) == ["¨", "a", "b"]
    ensures DigraphKeys(["ä", "b"]) == ["¨", "¨a", "ab"]
  {
    assert "äb" == ['ä', 'b'];
    DiaeresisA();
    Plain('b');
    SymbolsOfTwo('ä', 'b');
    ReferenceOfTwo("ä", "b");
    PairsOfFirstA();
    assert PairsAt(["ä", "b"], 1) == ["a" + "b"];
    assert "a" + "b" == "ab";
  }

  lemma PairsOfXA()
    ensures PairsAt(["x", "ä"], 1) == ["x¨", "¨a"]
  {
    DiaeresisA();
    assert "x" + "¨" == "x¨" && "¨" + "a" == "¨a";
  }

  /** After a letter, a dead-key character pairs its dead key with that letter. */
  lemma DeadKeyAfterLetter()
    ensures Symbols(AlreadyLower, "xä") == ["x", "ä"]
    ensures Keystrokes(["x", "ä"]) == ["x", "¨", "a"]
    ensures DigraphKeys(["x", "ä"]) == ["x¨", "¨a"]
  {
    assert "xä" == ['x', 'ä'];
    Plain('x');
    DiaeresisA();
    SymbolsOfTwo('x', 'ä');
    ReferenceOfTwo("x", "ä");
    PairsOfXA();
  }

  lemma PairsOfAO()
    ensures PairsAt(["ä", "ö"], 1) == ["ä¨", "¨o"]
  {
    DiaeresisO();
    assert "ä" + "¨" == "ä¨" && "¨" + "o" == "¨o";
  }

  /**
   After a dead-key character, a second one pairs its dead key with the
   first accented character, not with the first one's live key.
   */
  lemma DeadKeyAfterDeadKey()
    ensures Symbols(AlreadyLower, "äö") == ["ä", "ö"]
    ensures Keystrokes(["ä", "ö"]) == ["¨", "a", "¨", "o"]
    ensures DigraphKeys(["ä", "ö"]) == ["¨", "¨a", "ä¨", "¨o"]
  {
    assert "äö" == ['ä', 'ö'];
    DiaeresisA();
    DiaeresisO();
    SymbolsOfTwo('ä', 'ö');
    ReferenceOfTwo("ä", "ö");
    PairsOfFirstA();
    PairsOfAO();
  }

  /** `î` is typed as circumflex then `a`. */
  lemma CircumflexI()
    ensures Symbols(AlreadyLower, "î") == ["î"]
    ensures Keystrokes(["î"]) == ["^", "a"]
    ensures DigraphKeys(["î"]) == ["^", "^a"]
  {
    assert "î" == ['î'];
    assert MapToAscii('î') == "î" && IsDeadKeySymbol("î");
    assert GetDeadKey("î") == DeadKey("^", "a");
    SymbolsOfOne('î');
    ReferenceOfOne("î");
    assert PairsAt(["î"], 0) == ["" + "^", "^" + "a"];
    assert "" + "^" == "^" && "^" + "a" == "^a";
  }

  /** `ê` has a key of its own, labelled `}`. */
  lemma CircumflexE()
    ensures Symbols(AlreadyLower, "êê") == ["}", "}"]
    ensures Keystrokes(["}", "}"]) == ["}", "}"]
    ensures DigraphKeys(["}", "}"]) == ["}}"]
  {
    assert "êê" == ['ê', 'ê'];
    assert MapToAscii('ê') == "}";
    assert !IsDeadKeySymbol("}");
    SymbolsOfTwo('ê', 'ê');
    ReferenceOfTwo("}", "}");
    assert PairsAt(["}", "}"], 1) == ["}" + "}"];
    assert "}" + "}" == "}}";
  }

  /** `é` types the key labelled `)`, while the bracket `(` types a space. */
  lemma AccentAndBracket()
    ensures Symbols(AlreadyLower, "é(") == [")", " "]
    ensures DigraphKeys([")", " "]) == [") "]
  {
    assert "é(" == ['é', '('];
    assert MapToAscii('é') == ")" && MapToAscii('(') == " ";
    assert !IsDeadKeySymbol(")") && !IsDeadKeySymbol(" ");
    SymbolsOfTwo('é', '(');
    ReferenceOfTwo(")", " ");
    assert PairsAt([")", " "], 1) == [")" + " "];
    assert ")" + " " == ") ";
  }

  lemma SymbolsAcrossLineBreak()
    ensures Symbols(AlreadyLower, "a\nb") == ["a", "b"]
  {
    var f := "a\nb";
    assert f[..2] == ['a', '\n'];
    assert ['a', '\n'][..1] == ['a'];
    assert !Counted('\n');
    Plain('a');
    Plain('b');
    SymbolsOfOne('a');
  }

  /** A line break inside a file does not break the digraph across it. */
  lemma AcrossLineBreak()
    ensures Symbols(AlreadyLower, "a\nb") == ["a", "b"]
    ensures FileTables(AlreadyLower, "a\nb") == Tables(map["a" := 1, "b" := 1], map["ab" := 1])
  {
    SymbolsAcrossLineBreak();
    ReferenceAB();
    CountsAB();
    FileTablesFrom("a\nb", ["a", "b"], ["a", "b"], ["ab"], map["a" := 1, "b" := 1], map["ab" := 1]);
  }

  /** A file of one direct symbol counts no digraph. */
  lemma OneSymbolFile(c: char)
    requires Counted(c) && !IsDeadKeySymbol(MapToAscii(c))
    ensures FileTables(AlreadyLower, [c]).digraphs == map[]
  {
    SymbolsOfOne(c);
    ReferenceOfOne(MapToAscii(c));
    TallyNothing(map[]);
  }

  lemma NoDigraphInA()
    ensures FileTables(AlreadyLower, "a").digraphs == map[]
  {
    Plain('a');
    assert "a" == ['a'];
    OneSymbolFile('a');
  }

  lemma NoDigraphInB()
    ensures FileTables(AlreadyLower, "b").digraphs == map[]
  {
    Plain('b');
    assert "b" == ['b'];
    OneSymbolFile('b');
  }

  /** The same two letters in two files count no digraph. */
  lemma AcrossFiles()
    ensures Accumulate(AlreadyLower, ["a", "b"]).digraphs == map[]
  {
    assert ["a"] + ["b"] == ["a", "b"];
    AccumulateAppend(AlreadyLower, ["a"], ["b"]);
    AccumulateOne(AlreadyLower, "a");
    AccumulateOne(AlreadyLower, "b");
    NoDigraphInA();
    NoDigraphInB();
    MergeEmpty(map[]);
  }
}
