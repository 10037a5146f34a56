/** The seven sections of a dictionary entry: their labels, their keys, and the order they are visited in. */
module SectionLabels {
  import opened Chars
  import opened CamelCase

  /** The seven sections of an entry. */
  datatype Section =
    | Pronunciation | Definitions | Synonyms | Antonyms
    | Etymology | ExampleSentences | TurkishMeaning

  /** The array of labels, in the order the parser visits them. */
  const Sections: seq<Section> :=
    [Pronunciation, Definitions, Synonyms, Antonyms, Etymology, ExampleSentences, TurkishMeaning]

  /** The header label of a section. */
  function Label(s: Section): string {
    match s
    case Pronunciation => "Pronunciation"
    case Definitions => "Definitions"
    case Synonyms => "Synonyms"
    case Antonyms => "Antonyms"
    case Etymology => "Etymology"
    case ExampleSentences => "Example Sentences"
    case TurkishMeaning => "Turkish Meaning"
  }

  /** The key of a section in the default record. */
  function Key(s: Section): string {
    match s
    case Pronunciation => "pronunciation"
    case Definitions => "definitions"
    case Synonyms => "synonyms"
    case Antonyms => "antonyms"
    case Etymology => "etymology"
    case ExampleSentences => "exampleSentences"
    case TurkishMeaning => "turkishMeaning"
  }


  /** The five one-word labels derive their keys by lower-casing the first letter. */
  lemma OneWordLabelToKey(s: Section)
    requires !s.ExampleSentences? && !s.TurkishMeaning?
    ensures CamelCaseKey(Label(s)) == Key(s)
  {
    match s
    case Pronunciation =>
      CamelCaseKeySingleWord(Label(Pronunciation), Key(Pronunciation));
    case Definitions =>
      CamelCaseKeySingleWord(Label(Definitions), Key(Definitions));
    case Synonyms =>
      CamelCaseKeySingleWord(Label(Synonyms), Key(Synonyms));
    case Antonyms =>
      CamelCaseKeySingleWord(Label(Antonyms), Key(Antonyms));
    case Etymology =>
      CamelCaseKeySingleWord(Label(Etymology), Key(Etymology));
  }

  /** "Example Sentences" and "Turkish Meaning" derive "exampleSentences" and "turkishMeaning". */
  lemma TwoWordLabelToKey(s: Section)
    requires s.ExampleSentences? || s.TurkishMeaning?
    ensures CamelCaseKey(Label(s)) == Key(s)
  {
    if s.ExampleSentences? {
      CamelCaseKeyTwoWords(Label(ExampleSentences), 7, Key(ExampleSentences));
    } else {
      CamelCaseKeyTwoWords(Label(TurkishMeaning), 7, Key(TurkishMeaning));
    }
  }

  /** Every label derives exactly the key the default record uses for its section. */
  lemma LabelToKey(s: Section)
    ensures CamelCaseKey(Label(s)) == Key(s)
  {
    if s.ExampleSentences? || s.TurkishMeaning? {
      TwoWordLabelToKey(s);
    } else {
      OneWordLabelToKey(s);
    }
  }

  /** Different sections have different keys, so storing one never overwrites another. */
  lemma KeyInjective(s: Section, t: Section)
    requires s != t
    ensures Key(s) != Key(t)
  {
  }

  /** Where a section comes in the visiting order: every section is visited, exactly once. */
  function Position(s: Section): (n: nat)
    ensures n < |Sections| && Sections[n] == s
  {
    match s
    case Pronunciation => 0
    case Definitions => 1
    case Synonyms => 2
    case Antonyms => 3
    case Etymology => 4
    case ExampleSentences => 5
    case TurkishMeaning => 6
  }

  /** Visiting the `i`-th section of the order. */
  lemma PositionOfVisited(i: nat)
    requires i < |Sections|
    ensures Position(Sections[i]) == i
  {
  }
}
