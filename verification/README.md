# Keystroke and digraph frequencies of a text corpus

The program (corpus/corpus.go) reads every file of a corpus and counts two
things:

- **Single keystrokes.** Each counted character is mapped to the keystroke
  symbol of a French-style layout. Brackets become the space key. `é è à ê ç ù`
  become the labels of their own keys. `ä ë ï ü ö â û î ô` are typed as a dead
  key (`¨` or `^`) followed by a live key.
- **Digraphs.** Each keystroke is paired with the left neighbour the program
  keeps while reading. `Adjacency` says when these pairs are exactly the
  adjacent keystrokes.

At the end it lists both tables by descending count.

This Dafny project models that core:

- **`KeyMap`** (keymap.dfy) holds the layout tables as data, together with
  `mapToAscii` and `getDeadKey`.
- **`Counts`** (counts.dfy) holds the `map[string]int` tables and
  `addToMapAndIncrement`. It relates a table to the multiset of keys recorded
  in it (`Tally`).
- **`Parse`** (parse.dfy) holds `addDeadKeyChar` and the per-character loop
  of `parseCorpus`:
  - The loop is a state machine (`Step`, `Run`) over the left neighbour
    `prev_c`, `prev_c_dk` and the two tables.
  - Beside it sits a stateless reference description of the same loop: the
    symbols of a file (`Symbols`), the keystrokes they type (`Keystrokes`) and
    the digraph keys recorded for them (`DigraphKeys`).
- **`Corpus`** (corpus.dfy) holds `parseCorpus` for one file and the loop of
  `main` that parses every file into the same two tables.
- **`Sorting`** (sorting.dfy) holds `getSortedMap` and `entry`.
- **`Adjacency`** (adjacency.dfy) characterises when the recorded digraphs
  are exactly the adjacent pairs of keystrokes typed.
- **`Scenarios`** (scenarios.dfy) works out short files by hand.
- **`SeqFacts`** (seqs.dfy) holds sequence facts shared by the proofs.

Lower-casing (`strings.ToLower` of one character) is a parameter
`lower: char -> char` of every operation that reads characters. The
control-character test (`int(c) > 31`) applies to the raw character, as in
the program. Where a result needs it, `KeepsCounted(lower)` assumes that
lower-casing never turns a character above code 31 into a control character.
Go's `strings.ToLower` satisfies this.

The model follows the code as written, including these points a reader might
not expect:

- **The left neighbour does not cross files.** `prev_c` and `prev_c_dk` are
  local to `parseCorpus`, so each file starts without a left neighbour. No
  digraph spans two files, even though only the tables are shared
  (`Corpus.Accumulate`, `Scenarios.AcrossFiles`).
- **A dead-key character first in a file still records a digraph.** The
  digraph is the empty neighbour followed by the dead key, that is `"¨"` or
  `"^"` alone (`Scenarios.DeadKeyFirst`).
- **After a dead-key character, `prev_c` holds the accented character itself,
  not its live key.**
  - A direct character that follows pairs with the live key, through
    `prev_c_dk`.
  - A second dead-key character pairs its dead key with the accented
    character, e.g. `"ä¨"` (`Scenarios.DeadKeyAfterDeadKey`).
- **`ê` is the key labelled `}`.** `mapToAscii` maps it before the dead-key
  test, so `"êê"` counts `}` twice and the digraph `}}` once
  (`Scenarios.CircumflexE`).
- **`î` is typed as `^` then `a`,** exactly as the table in the code says
  (`Scenarios.CircumflexI`).

## Model

| member | source | states |
|---|---|---|
| KeyMap.MapToAscii | corpus/corpus.go:60-80 | The symbol is a single character. Brackets give the space, the six accented letters give their key label, and every other character is passed through. `ê` never survives. The result is a dead-key character exactly when the input is one. |
| KeyMap.GetDeadKey | corpus/corpus.go:97-127 | A dead-key character yields its dead key (`¨` for the first five, `^` for the last four) and its bare vowel (`a` for `î`). Every other string, `ê` included, yields the empty decomposition. |
| KeyMap.LiveKeyDiffersFromSymbol | corpus/corpus.go:102-127 | For a dead-key character, its live key differs from the character and from its dead key. |
| Counts.Increment | corpus/corpus.go:82-88 | Recording a key raises its count by one (from zero when absent) and adds at most that key. No other count changes. Counts stay positive. |
| Counts.IncrementIsTally | corpus/corpus.go:82-88 | Recording one key equals adding the one-key multiset to the table. |
| Counts.IncrementTwiceIsTally | corpus/corpus.go:82-88 | Recording two keys in turn equals adding both as a multiset. |
| Counts.TallyAppend | corpus/corpus.go:82-88 | Recording two sequences of keys one after the other equals recording their concatenation. |
| Counts.TallyIsMerge | corpus/corpus.go:82-88 | Recording keys into a table equals adding, key by key, the table those keys make on their own. |
| Parse.AddDeadKeyChar | corpus/corpus.go:90-95 | The dead key and the live key are each counted once. The digraphs neighbour+dead key (even when the neighbour is empty) and dead key+live key are each counted once. |
| Parse.Step | corpus/corpus.go:27-48 | A character with code 31 or below changes nothing. Any other character leaves its symbol as the new neighbour. A dead-key symbol counts its two keystrokes and two digraphs and keeps its live key as `prevDk`. A direct symbol counts itself and clears `prevDk`. It records no digraph when first, otherwise one digraph anchored on `prevDk` when that is set and on the neighbour when it is not. |
| Parse.Run | corpus/corpus.go:21-56 | The loop folds `Step` over the characters of a file in order. The tables only gain keys, and counts stay positive. `Parse.RunMatchesReference` states what the loop adds. |
| Parse.StepExtendsPrediction | corpus/corpus.go:27-48 | One step from the predicted state of some symbols gives the predicted state of those symbols plus the new character's symbol. |
| Parse.RunMatchesReference | corpus/corpus.go:14-58 | The character loop over a file, started without a neighbour, ends with the tables plus the keystrokes of the file's counted characters and their digraph keys, as the stateless description lists them. The neighbour ends as the last symbol. |
| Parse.ControlCharsIgnored | corpus/corpus.go:27-28 | Removing every control character from a file changes nothing the loop computes, so digraphs span line breaks. |
| Parse.DigraphCount | corpus/corpus.go:32-46 | The number of digraph keys is the number of keystrokes, less one when the first symbol is direct. |
| Parse.Symbols | corpus/corpus.go:27-30 | Every symbol of a file is a single character, and a file has no more symbols than characters. |
| Corpus.ParseCorpus | corpus/corpus.go:14-58 | Parsing one file into shared tables adds the file's keystrokes to the single table and its digraph keys to the digraph table. |
| Corpus.ParseCorpusAddsFileTables | corpus/corpus.go:14-58 | What a file adds to the shared tables equals what it counts into empty tables, so earlier files do not influence it. |
| Corpus.ParseCorpusNoControlKeys | corpus/corpus.go:27-30 | Parsing a file into tables whose keys hold no character with code 31 or below keeps them so, provided lower-casing never turns a counted character into a control one. |
| Corpus.Accumulate | corpus/corpus.go:167-182 | The tables after the loop over all files are the key-wise sum of each file's own tables. |
| Corpus.NoControlKeys | corpus/corpus.go:27-30 | After the loop over all files, no key of either table holds a character with code 31 or below, provided lower-casing never turns a counted character into a control one (Go's `strings.ToLower` never does). The control test runs on the raw character, before lower-casing, so the property rests on that proviso. |
| Corpus.AccumulateAppend | corpus/corpus.go:170-182 | Parsing two lists of files in turn gives the key-wise sum of the two lists' tables. |
| Corpus.AccumulateOrderIndependent | corpus/corpus.go:159-182 | Any permutation of the files' contents yields the same tables. |
| Sorting.Insert | corpus/corpus.go:211-213 | Inserting an entry into a list ordered by descending count keeps it ordered. It adds exactly that entry. |
| Sorting.GetSortedMap | corpus/corpus.go:200-215 | The listing is ordered by descending count and is a permutation of the table's entries. It has one entry per key, each with that key's count, and every key appears. |
| Sorting.PermutationOfEntries | corpus/corpus.go:205-209 | Any permutation of a table's entries gives each key its count, lists every key, and lists no key twice. |
| Sorting.ValuesOrdered | corpus/corpus.go:211-213 | A listing is ordered by descending count exactly when its counts, read in order, never increase. |
| Sorting.ValuesPermutation | corpus/corpus.go:211-213 | Permuting entries permutes their counts. |
| Sorting.SortedCountsUnique | corpus/corpus.go:211-213 | Two non-increasing lists with the same counts are equal. |
| Sorting.SortedListingsAgree | corpus/corpus.go:205-215 | Any two listings of the same table by descending count agree on the count at every position. Only the order among ties is left open. |
| Adjacency.DigraphsAreAdjacentKeystrokes | corpus/corpus.go:27-48 | The digraph keys of a file are exactly the adjacent pairs of its keystrokes if and only if it does not start with a dead-key character and no dead-key character directly follows another. |
| Scenarios.TwoLetters | corpus/corpus.go:36-48 | The file `ab` counts `a` and `b` once each and the digraph `ab` once. |
| Scenarios.DeadKeyFirst | corpus/corpus.go:32-45 | The file `äb` has keystrokes `¨ a b` and digraphs `¨`, `¨a`, `ab`: the dead key alone, then the live key with `b`. |
| Scenarios.DeadKeyAfterLetter | corpus/corpus.go:32-35 | The file `xä` has keystrokes `x ¨ a` and digraphs `x¨`, `¨a`. |
| Scenarios.DeadKeyAfterDeadKey | corpus/corpus.go:32-48 | The file `äö` has keystrokes `¨ a ¨ o` and digraphs `¨`, `¨a`, `ä¨`, `¨o`. |
| Scenarios.CircumflexI | corpus/corpus.go:116-117 | `î` is typed `^ a`, with digraphs `^` and `^a`. |
| Scenarios.CircumflexE | corpus/corpus.go:71-72 | The file `êê` gives the symbols `} }` and the single digraph `}}`. |
| Scenarios.AccentAndBracket | corpus/corpus.go:60-72 | The file `é(` gives the symbols `)` and space, and the digraph `) `. |
| Scenarios.AcrossLineBreak | corpus/corpus.go:21-48 | The newline in `a\nb` yields no symbol, so the file counts `a` and `b` once each and the digraph `ab` once, spanning the line break. |
| Scenarios.AcrossFiles | corpus/corpus.go:18-19 | The files `a` and `b` parsed in turn count no digraph. |

## Left out

- Reading files: the directory walk, opening files and the buffered reads are
  not modelled. A file is its content as a sequence of Unicode characters.
  - The decoding of UTF-8 by `range` is not modelled. An invalid byte would
    arrive as U+FFFD.
  - The line-by-line reading is not modelled. Joining the lines gives the
    file back, and the state is not reset per line.
- Read errors: a read error other than end of file stops a file early,
  dropping the partial line. This is not modelled.
- Unopenable files: such a file reaches `parseCorpus` as a nil `*os.File`.
  Its first read returns an error other than end of file, so the read loop
  stops at once and the file counts nothing. The model treats it as an empty
  file.
- Corpus.Accumulate: the deferred `Close` at corpus/corpus.go:176 keeps every
  file open until the run ends. Past the process's open-file limit, later
  files fail to open and count nothing, and which files those are depends on
  the walk order. The model, like `Corpus.AccumulateOrderIndependent`, takes
  every file as opened with its contents.
- `parseCorpus`'s error result is always nil, so the model returns only the
  tables.
- Lower-casing: Go's Unicode case tables are not modelled. Lower-casing is
  the parameter `lower` and is assumed to map one character to one
  character, as `strings.ToLower` does for a single character.
- Output: the usage message, creating `chars.txt` and `digraphs.txt`, the
  `"%s %d\n"` formatting and the flushing are I/O and are not modelled.
- Sorting.GetSortedMap does not fix the order among equal counts, because
  `sort.Slice` is not stable and Go's map iteration order is unspecified. The
  model inserts entries in an arbitrary key order. Its contract states
  everything the program guarantees.
- Counts.Increment does not model wrap-around of Go's platform-width `int`
  (64-bit on the usual targets). Counts are unbounded naturals. On a 64-bit
  build no corpus reaches 2^63 occurrences of a key. On a 32-bit build a
  corpus of several gigabytes could push the space key past 2^31, and the
  program's count would wrap where the model's does not.
