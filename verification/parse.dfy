/**
 The per-character loop of `parseCorpus` in corpus/corpus.go: a state
 machine over the characters of one file whose state is the left
 neighbour (`prev_c`, `prev_c_dk`) and the two shared tables.

 Beside the state machine stands a reference description that needs no
 state: the symbols of the counted characters (`Symbols`), the keystrokes
 they type (`Keystrokes`) and the digraph keys the program records for
 them (`DigraphKeys`, stated symbol by symbol in `PairsAt`).
 `RunMatchesReference` proves the two agree.
 */
module Parse {
  import opened KeyMap
  import opened Counts

  /** The two frequency tables: single keystrokes and digraphs. */
  datatype Tables = Tables(singles: Table, digraphs: Table)

  /**
   The loop state: the symbol of the last counted character (`prev`, empty
   before the first one), the live key of that character when it was a
   dead-key character (`prevDk`, empty otherwise), and the tables.
   */
  datatype State = State(prev: string, prevDk: string, singles: Table, digraphs: Table)

  /** The state at the start of a file: no left neighbour, the given tables. */
  function StartOfFile(t: Tables): State {
    State("", "", t.singles, t.digraphs)
  }

  /** Characters with code 31 or below (newline among them) are skipped. */
  predicate Counted(c: char) {
    c as int > 31
  }

  /**
   Records one dead-key character: its dead key and live key as single
   keystrokes, then the digraph `prev` + dead key (even when `prev` is
   empty) and the digraph dead key + live key.
   */
  function AddDeadKeyChar(dk: DeadKey, prev: string, singles: Table, digraphs: Table): (r: Tables)
    ensures r.singles == Tally(singles, [dk.deadchar, dk.livechar])
    ensures r.digraphs == Tally(digraphs, [prev + dk.deadchar, dk.deadchar + dk.livechar])
  {
    var s1 := Increment(singles, dk.deadchar);
    var d1 := Increment(digraphs, prev + dk.deadchar);
    IncrementTwiceIsTally(singles, dk.deadchar, dk.livechar);
    IncrementTwiceIsTally(digraphs, prev + dk.deadchar, dk.deadchar + dk.livechar);
    Tables(Increment(s1, dk.livechar), Increment(d1, dk.deadchar + dk.livechar))
  }

  /**
   One iteration of the character loop, with lower-casing supplied as
   `lower`. A skipped character changes nothing. A dead-key character
   counts its two keystrokes and two digraphs, then leaves its own symbol
   in `prev` and its live key in `prevDk`. A direct symbol counts itself,
   counts one digraph unless it is the first of the file (anchored on the
   live key when the character before was a dead-key character), and
   clears `prevDk`.
   */
  function Step(lower: char -> char, st: State, c: char): (r: State)
    ensures !Counted(c) ==> r == st
    ensures Counted(c) ==> r.prev == MapToAscii(lower(c))
    ensures Counted(c) && IsDeadKeySymbol(r.prev) ==>
              var dk := GetDeadKey(r.prev);
              && r.prevDk == dk.livechar
              && r.singles == Tally(st.singles, [dk.deadchar, dk.livechar])
              && r.digraphs == Tally(st.digraphs, [st.prev + dk.deadchar, dk.deadchar + dk.livechar])
    ensures Counted(c) && !IsDeadKeySymbol(r.prev) ==>
              && r.prevDk == ""
              && r.singles == Tally(st.singles, [r.prev])
              && (st.prev == "" ==> r.digraphs == st.digraphs)
              && (st.prev != "" && st.prevDk != "" ==> r.digraphs == Tally(st.digraphs, [st.prevDk + r.prev]))
              && (st.prev != "" && st.prevDk == "" ==> r.digraphs == Tally(st.digraphs, [st.prev + r.prev]))
  {
    if !Counted(c) then st
    else
      var s := MapToAscii(lower(c));
      if IsDeadKeySymbol(s) then
        var dk := GetDeadKey(s);
        var t := AddDeadKeyChar(dk, st.prev, st.singles, st.digraphs);
        State(s, dk.livechar, t.singles, t.digraphs)
      else
        var left := if st.prevDk != "" then st.prevDk else st.prev;
        IncrementIsTally(st.singles, s);
        IncrementIsTally(st.digraphs, left + s);
        var digraphs := if st.prev != "" then Increment(st.digraphs, left + s) else st.digraphs;
        State(s, "", Increment(st.singles, s), digraphs)
  }

  /**
   The character loop over a whole file, from state `st`: `Step` folded
   over the characters in order. The tables only gain keys, and a count
   once recorded stays positive. `RunMatchesReference` states what the
   loop adds.
   */
  function Run(lower: char -> char, st: State, f: seq<char>): (r: State)
    ensures st.singles.Keys <= r.singles.Keys && st.digraphs.Keys <= r.digraphs.Keys
    ensures Positive(st.singles) && Positive(st.digraphs) ==> Positive(r.singles) && Positive(r.digraphs)
    decreases |f|
  {
    if f == [] then st else Step(lower, Run(lower, st, f[..|f| - 1]), f[|f| - 1])
  }

  // ---------------------------------------------------------------------
  // The reference description

  /** The symbols of the counted characters of `f`, in order. */
  function Symbols(lower: char -> char, f: seq<char>): (syms: seq<string>)
    ensures forall i :: 0 <= i < |syms| ==> |syms[i]| == 1
    ensures |syms| <= |f|
    decreases |f|
  {
    if f == [] then []
    else
      var c := f[|f| - 1];
      Symbols(lower, f[..|f| - 1]) + (if Counted(c) then [MapToAscii(lower(c))] else [])
  }

  /** The keystrokes that type one symbol: dead key then live key, or the symbol itself. */
  function Strokes(s: string): seq<string> {
    if IsDeadKeySymbol(s) then [GetDeadKey(s).deadchar, GetDeadKey(s).livechar] else [s]
  }

  /** The last keystroke that types a symbol. */
  function LastStroke(s: string): string {
    if IsDeadKeySymbol(s) then GetDeadKey(s).livechar else s
  }

  /** All keystrokes of a symbol sequence, in order. */
  function Keystrokes(syms: seq<string>): seq<string> {
    if syms == [] then [] else Keystrokes(syms[..|syms| - 1]) + Strokes(syms[|syms| - 1])
  }

  /**
   The digraph keys recorded for the symbol at position `i`. A direct symbol
   pairs with the last keystroke of the symbol before it, and with nothing
   when it is first. A dead-key symbol pairs its dead key with the symbol
   before it as read (the accented character itself when that was a
   dead-key character, the empty string when there is none), and then its
   dead key with its live key.
   */
  function PairsAt(syms: seq<string>, i: nat): seq<string>
    requires i < |syms|
  {
    var s := syms[i];
    if IsDeadKeySymbol(s) then
      var dk := GetDeadKey(s);
      [(if i == 0 then "" else syms[i - 1]) + dk.deadchar, dk.deadchar + dk.livechar]
    else if i == 0 then []
    else [LastStroke(syms[i - 1]) + s]
  }

  /** All digraph keys recorded for a symbol sequence, in order. */
  function DigraphKeys(syms: seq<string>): seq<string> {
    if syms == [] then [] else DigraphKeys(syms[..|syms| - 1]) + PairsAt(syms, |syms| - 1)
  }

  /** The state the reference description predicts after the symbols `syms`. */
  function Predicted(syms: seq<string>, singles: Table, digraphs: Table): State {
    var last := if syms == [] then "" else syms[|syms| - 1];
    State(last, if IsDeadKeySymbol(last) then GetDeadKey(last).livechar else "",
          Tally(singles, Keystrokes(syms)), Tally(digraphs, DigraphKeys(syms)))
  }

  /** Each symbol has one character. */
  predicate SingleChars(syms: seq<string>) {
    forall i :: 0 <= i < |syms| ==> |syms[i]| == 1
  }

  /** The predicted state after one more symbol, in terms of the one before. */
  lemma PredictedAppend(syms: seq<string>, s: string, singles: Table, digraphs: Table)
    ensures Predicted(syms + [s], singles, digraphs)
         == State(s, if IsDeadKeySymbol(s) then GetDeadKey(s).livechar else "",
                  Tally(Predicted(syms, singles, digraphs).singles, Strokes(s)),
                  Tally(Predicted(syms, singles, digraphs).digraphs, PairsAt(syms + [s], |syms|)))
  {
    var next := syms + [s];
    assert next[..|next| - 1] == syms;
    assert Keystrokes(next) == Keystrokes(syms) + Strokes(s);
    assert DigraphKeys(next) == DigraphKeys(syms) + PairsAt(next, |syms|);
    TallyAppend(singles, Keystrokes(syms), Strokes(s));
    TallyAppend(digraphs, DigraphKeys(syms), PairsAt(next, |syms|));
  }

  /** The digraph keys the reference records for the symbol after `syms` are the ones `Step` records. */
  lemma PairsAtMatchesStep(syms: seq<string>, s: string, singles: Table, digraphs: Table)
    requires SingleChars(syms)
    ensures var st := Predicted(syms, singles, digraphs);
            var pairs := PairsAt(syms + [s], |syms|);
            && (IsDeadKeySymbol(s) ==> pairs == [st.prev + GetDeadKey(s).deadchar, GetDeadKey(s).deadchar + GetDeadKey(s).livechar])
            && (!IsDeadKeySymbol(s) && st.prev == "" ==> pairs == [])
            && (!IsDeadKeySymbol(s) && st.prev != "" ==> pairs == [(if st.prevDk != "" then st.prevDk else st.prev) + s])
  {
    var st := Predicted(syms, singles, digraphs);
    if syms != [] {
      assert st.prev == syms[|syms| - 1] && st.prev != "";
      if IsDeadKeySymbol(st.prev) {
        assert |st.prevDk| == 1;
      }
    }
  }

  /** One more counted character takes the predicted state to the next predicted state. */
  lemma StepExtendsPrediction(lower: char -> char, syms: seq<string>, c: char, singles: Table, digraphs: Table)
    requires SingleChars(syms)
    requires Counted(c)
    ensures Step(lower, Predicted(syms, singles, digraphs), c)
         == Predicted(syms + [MapToAscii(lower(c))], singles, digraphs)
  {
    var st := Predicted(syms, singles, digraphs);
    var s := MapToAscii(lower(c));
    PredictedAppend(syms, s, singles, digraphs);
    PairsAtMatchesStep(syms, s, singles, digraphs);
    if !IsDeadKeySymbol(s) && st.prev == "" {
      TallyNothing(st.digraphs);
    }
  }

  /**
   The character loop, started at the beginning of a file, ends in the
   state the reference description predicts: the single table gains the
   keystrokes of the counted characters, the digraph table gains their
   digraph keys, and the left neighbour is the last counted symbol.
   */
  lemma {:induction false} RunMatchesReference(lower: char -> char, singles: Table, digraphs: Table, f: seq<char>)
    ensures Run(lower, State("", "", singles, digraphs), f) == Predicted(Symbols(lower, f), singles, digraphs)
    decreases |f|
  {
    if f == [] {
      TallyNothing(singles);
      TallyNothing(digraphs);
    } else {
      var init, c := f[..|f| - 1], f[|f| - 1];
      var st0 := State("", "", singles, digraphs);
      RunMatchesReference(lower, singles, digraphs, init);
      assert Run(lower, st0, f) == Step(lower, Run(lower, st0, init), c);
      var pre := Symbols(lower, init);
      if Counted(c) {
        assert Symbols(lower, f) == pre + [MapToAscii(lower(c))];
        StepExtendsPrediction(lower, pre, c, singles, digraphs);
      } else {
        assert Symbols(lower, f) == pre;
      }
    }
  }

  // ---------------------------------------------------------------------
  // Consequences

  /** The counted characters of `f`, in order. */
  function StripControls(f: seq<char>): (g: seq<char>)
    ensures forall i :: 0 <= i < |g| ==> Counted(g[i])
    ensures |g| <= |f|
    decreases |f|
  {
    if f == [] then []
    else StripControls(f[..|f| - 1]) + (if Counted(f[|f| - 1]) then [f[|f| - 1]] else [])
  }

  /**
   Characters with code 31 or below, line breaks among them, make no
   difference: the loop ends in the same state without them. In particular
   a digraph spans a line break inside a file.
   */
  lemma {:induction false} ControlCharsIgnored(lower: char -> char, st: State, f: seq<char>)
    ensures Run(lower, st, StripControls(f)) == Run(lower, st, f)
    decreases |f|
  {
    if f != [] {
      var init, c := f[..|f| - 1], f[|f| - 1];
      ControlCharsIgnored(lower, st, init);
      if Counted(c) {
        var g := StripControls(init) + [c];
        assert StripControls(f) == g;
        assert g[..|g| - 1] == StripControls(init);
      } else {
        assert StripControls(f) == StripControls(init);
      }
    }
  }

  /**
   Every keystroke of a file has a digraph ending in it, except the first
   keystroke of a file that starts with a direct symbol: a direct symbol
   records one digraph (none when first), a dead-key symbol always two.
   */
  lemma {:induction false} DigraphCount(syms: seq<string>)
    ensures |DigraphKeys(syms)| + (if syms != [] && !IsDeadKeySymbol(syms[0]) then 1 else 0)
         == |Keystrokes(syms)|
  {
    if syms != [] {
      var pre := syms[..|syms| - 1];
      DigraphCount(pre);
      if pre != [] {
        assert pre[0] == syms[0];
      }
    }
  }

  // ---------------------------------------------------------------------
  // No control character reaches a key

  /** A key none of whose characters has code 31 or below. */
  predicate NoControl(k: string) {
    forall i :: 0 <= i < |k| ==> Counted(k[i])
  }

  /**
   A lower-casing that never turns a counted character into a control
   character, as `strings.ToLower` never does.
   */
  predicate KeepsCounted(lower: char -> char) {
    forall c :: Counted(c) ==> Counted(lower(c))
  }

  lemma NoControlConcat(a: string, b: string)
    requires NoControl(a) && NoControl(b)
    ensures NoControl(a + b)
  {
    forall i | 0 <= i < |a + b| ensures Counted((a + b)[i]) {
      if i < |a| {
        assert (a + b)[i] == a[i];
      } else {
        assert (a + b)[i] == b[i - |a|];
      }
    }
  }

  /** The symbol of a counted character holds no control character. */
  lemma SymbolNoControl(c: char)
    requires Counted(c)
    ensures NoControl(MapToAscii(c))
  {
    if c !in Brackets && c in AccentKeys {
      assert c == 'é' || c == 'è' || c == 'à' || c == 'ê' || c == 'ç' || c == 'ù';
    }
  }

  /** The keystrokes of a symbol without control characters have none either. */
  lemma StrokesNoControl(s: string)
    requires NoControl(s)
    ensures forall j :: 0 <= j < |Strokes(s)| ==> NoControl(Strokes(s)[j])
    ensures NoControl(LastStroke(s))
  {
    if IsDeadKeySymbol(s) {
      var i :| 0 <= i < |DeadKeyChars| && DeadKeyChars[i] == s[0];
      assert s == [DeadKeyChars[i]];
      assert i == 0 || i == 1 || i == 2 || i == 3 || i == 4 || i == 5 || i == 6 || i == 7 || i == 8;
      assert Counted(BareVowels[i]);
    }
  }

  /** Every symbol of a file is free of control characters. */
  lemma {:induction false} SymbolsNoControl(lower: char -> char, f: seq<char>)
    requires KeepsCounted(lower)
    ensures forall j :: 0 <= j < |Symbols(lower, f)| ==> NoControl(Symbols(lower, f)[j])
    decreases |f|
  {
    if f != [] {
      var c := f[|f| - 1];
      SymbolsNoControl(lower, f[..|f| - 1]);
      if Counted(c) {
        SymbolNoControl(lower(c));
      }
    }
  }

  /** Keystrokes of symbols free of control characters are free of them. */
  lemma {:induction false} KeystrokesNoControl(syms: seq<string>)
    requires forall j :: 0 <= j < |syms| ==> NoControl(syms[j])
    ensures forall j :: 0 <= j < |Keystrokes(syms)| ==> NoControl(Keystrokes(syms)[j])
  {
    if syms != [] {
      var pre := syms[..|syms| - 1];
      KeystrokesNoControl(pre);
      StrokesNoControl(syms[|syms| - 1]);
      var a, b := Keystrokes(pre), Strokes(syms[|syms| - 1]);
      forall j | 0 <= j < |a + b| ensures NoControl((a + b)[j]) {
        if j < |a| {
          assert (a + b)[j] == a[j];
        } else {
          assert (a + b)[j] == b[j - |a|];
        }
      }
    }
  }

  /** The digraph keys recorded at one symbol join keys free of control characters. */
  lemma PairsAtNoControl(syms: seq<string>, i: nat)
    requires i < |syms|
    requires forall j :: 0 <= j < |syms| ==> NoControl(syms[j])
    ensures forall j :: 0 <= j < |PairsAt(syms, i)| ==> NoControl(PairsAt(syms, i)[j])
  {
    var s := syms[i];
    StrokesNoControl(s);
    if IsDeadKeySymbol(s) {
      var dk := GetDeadKey(s);
      assert Strokes(s)[0] == dk.deadchar && Strokes(s)[1] == dk.livechar;
      var left := if i == 0 then "" else syms[i - 1];
      assert NoControl(left);
      NoControlConcat(left, dk.deadchar);
      NoControlConcat(dk.deadchar, dk.livechar);
    } else if i > 0 {
      StrokesNoControl(syms[i - 1]);
      NoControlConcat(LastStroke(syms[i - 1]), s);
    }
  }

  /** Digraph keys of symbols free of control characters are free of them. */
  lemma {:induction false} DigraphKeysNoControl(syms: seq<string>)
    requires forall j :: 0 <= j < |syms| ==> NoControl(syms[j])
    ensures forall j :: 0 <= j < |DigraphKeys(syms)| ==> NoControl(DigraphKeys(syms)[j])
  {
    if syms != [] {
      var pre := syms[..|syms| - 1];
      DigraphKeysNoControl(pre);
      PairsAtNoControl(syms, |syms| - 1);
      var a, b := DigraphKeys(pre), PairsAt(syms, |syms| - 1);
      forall j | 0 <= j < |a + b| ensures NoControl((a + b)[j]) {
        if j < |a| {
          assert (a + b)[j] == a[j];
        } else {
          assert (a + b)[j] == b[j - |a|];
        }
      }
    }
  }

  /** Tallying keys free of control characters into a table free of them keeps it so. */
  lemma TallyNoControl(t: Table, ks: seq<string>)
    requires forall k :: k in t ==> NoControl(k)
    requires forall j :: 0 <= j < |ks| ==> NoControl(ks[j])
    ensures forall k :: k in Tally(t, ks) ==> NoControl(k)
  {
    TallyCounts(t, ks);
    forall k | k in Tally(t, ks) ensures NoControl(k) {
      if k !in t {
        var j :| 0 <= j < |ks| && ks[j] == k;
      }
    }
  }
}
