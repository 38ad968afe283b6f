/**
 Key mapping of one lower-cased character to the keystrokes that type it
 (`mapToAscii`, `deadKey` and `getDeadKey` in corpus/corpus.go).

 The three fixed tables are written out as data; the two functions are
 written the way the program branches, and their contracts tie each branch
 back to the tables.
 */
module KeyMap {

  /** The bracket characters, which all collapse to the space keystroke. */
  const Brackets: string := "()[]{}"

  /** Accented letters that have a key of their own, with that key's label. */
  const AccentKeys: map<char, char> :=
    map['é' := ')', 'è' := '(', 'à' := '{', 'ê' := '}', 'ç' := '[', 'ù' := ']']

  /** The characters typed with a dead key: five with a diaeresis, then four with a circumflex. */
  const DeadKeyChars: string := "äëïüöâûîô"

  /** The number of diaeresis characters at the front of `DeadKeyChars`. */
  const DiaeresisCount: nat := 5

  /** The bare vowel under each character of `DeadKeyChars`, position by position. */
  const BareVowels: string := "aeiuoauio"

  const Diaeresis: string := "¨"
  const Circumflex: string := "^"

  /** The dead key and the live key that together type one accented character. */
  datatype DeadKey = DeadKey(deadchar: string, livechar: string)

  /** The empty decomposition returned for a character that is not typed with a dead key. */
  const NoDeadKey: DeadKey := DeadKey("", "")

  /** The dead-key test the parser applies to a mapped symbol. */
  predicate IsDeadKeySymbol(s: string) {
    |s| == 1 && s[0] in DeadKeyChars
  }

  /**
   Maps one lower-cased character to the keystroke symbol of the layout.
   The symbol is always a single character, `ê` never survives it, and the
   mapping neither creates nor removes dead-key characters.
   */
  function MapToAscii(c: char): (r: string)
    ensures |r| == 1
    ensures c in Brackets ==> r == " "
    ensures c !in Brackets && c in AccentKeys ==> r == [AccentKeys[c]]
    ensures c !in Brackets && c !in AccentKeys ==> r == [c]
    ensures r != "ê"
    ensures IsDeadKeySymbol(r) <==> c in DeadKeyChars
  {
    if c in Brackets then " "
    else
      match c
      case 'é' => ")"
      case 'è' => "("
      case 'à' => "{"
      case 'ê' => "}"
      case 'ç' => "["
      case 'ù' => "]"
      case _ => [c]
  }

  /**
   Splits a dead-key character into its dead key and its live key. Every
   other input, `ê` included, gets the empty decomposition. The live key
   of `î` is `a`, as for `â`.
   */
  function GetDeadKey(s: string): (dk: DeadKey)
    ensures !IsDeadKeySymbol(s) ==> dk == NoDeadKey
    ensures IsDeadKeySymbol(s) ==> |dk.deadchar| == 1 && |dk.livechar| == 1
    ensures forall i :: 0 <= i < |DeadKeyChars| && s == [DeadKeyChars[i]] ==>
              && dk.deadchar == (if i < DiaeresisCount then Diaeresis else Circumflex)
              && dk.livechar == (if DeadKeyChars[i] == 'î' then "a" else [BareVowels[i]])
  {
    match s
    case "ä" => DeadKey("¨", "a")
    case "ï" => DeadKey("¨", "i")
    case "ë" => DeadKey("¨", "e")
    case "ü" => DeadKey("¨", "u")
    case "ö" => DeadKey("¨", "o")
    case "â" => DeadKey("^", "a")
    case "î" => DeadKey("^", "a")
    case "û" => DeadKey("^", "u")
    case "ô" => DeadKey("^", "o")
    case _ =>
      assert |s| == 1 ==> s == [s[0]];
      NoDeadKey
  }

  /** The live key of a dead-key character never equals the character itself. */
  lemma LiveKeyDiffersFromSymbol(s: string)
    requires IsDeadKeySymbol(s)
    ensures GetDeadKey(s).livechar != s
    ensures GetDeadKey(s).deadchar != GetDeadKey(s).livechar
  {
  }
}
