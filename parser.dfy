/**
 * `parseGeminiResponse`: the record of seven fields, each filled from its
 * section of the response or left at `"N/A"`.
 */
module ResponseParser {
  import opened Chars
  import opened Strings
  import opened Wrappers
  import opened CamelCase
  import opened SectionLabels
  import opened HeaderRegex

  /** The record every parse starts from: each of the seven keys set to `"N/A"`. */
  function DefaultSections(): (m: map<string, string>)
    ensures forall s: Section :: Key(s) in m && m[Key(s)] == NotAvailable
    ensures forall k :: k in m ==> exists s: Section :: Key(s) == k
  {
    var m := map[
      "pronunciation" := NotAvailable, "definitions" := NotAvailable,
      "synonyms" := NotAvailable, "antonyms" := NotAvailable,
      "etymology" := NotAvailable, "exampleSentences" := NotAvailable,
      "turkishMeaning" := NotAvailable];
    assert forall k :: k in m ==>
      || k == Key(Pronunciation) || k == Key(Definitions) || k == Key(Synonyms) || k == Key(Antonyms)
      || k == Key(Etymology) || k == Key(ExampleSentences) || k == Key(TurkishMeaning);
    m
  }

  /**
   * One pass of the loop in `parseGeminiResponse`: match the label's header
   * and, when the capture is non-empty and the label's camel-case key is one
   * of the record's keys, store the trimmed capture under that key.
   */
  method StoreSection(text: string, section: Section, sections: map<string, string>)
    returns (updated: map<string, string>)
    requires sections.Keys == DefaultSections().Keys
    requires sections[Key(section)] == NotAvailable
    ensures updated == sections[Key(section) := FieldValue(text, Label(section))]
  {
    var name := Label(section);
    var found := Capture(text, name);
    updated := sections;
    if found.Some? && found.value != [] {
      var key := CamelCaseKey(name);
      LabelToKey(section);
      if key in sections {
        updated := sections[key := Trim(found.value)];
      }
    }
  }

  /** The loop invariant of `ParseResponse`: the sections before position `i` hold their value, the rest `"N/A"`. */
  predicate FilledUpTo(sections: map<string, string>, values: Section -> string, i: nat) {
    && sections.Keys == DefaultSections().Keys
    && forall s: Section :: sections[Key(s)] == if Position(s) < i then values(s) else NotAvailable
  }

  /** Before the loop, no section has been visited. */
  lemma FilledAtStart(values: Section -> string)
    ensures FilledUpTo(DefaultSections(), values, 0)
  {
  }

  /**
   * The section at position `i` is still `"N/A"`, and storing its value
   * extends the invariant by one position.
   */
  lemma FilledOneMore(sections: map<string, string>, values: Section -> string, i: nat)
    requires i < |Sections|
    requires FilledUpTo(sections, values, i)
    ensures sections.Keys == DefaultSections().Keys && sections[Key(Sections[i])] == NotAvailable
    ensures FilledUpTo(sections[Key(Sections[i]) := values(Sections[i])], values, i + 1)
  {
    PositionOfVisited(i);
    var after := sections[Key(Sections[i]) := values(Sections[i])];
    forall s: Section
      ensures after[Key(s)] == if Position(s) < i + 1 then values(s) else NotAvailable
    {
      if s != Sections[i] {
        KeyInjective(s, Sections[i]);
      }
    }
  }

  /** After the loop every section holds its value, and so every key holds a well-formed value. */
  lemma FilledAll(sections: map<string, string>, values: Section -> string)
    requires FilledUpTo(sections, values, |Sections|)
    requires forall s: Section :: WellFormedValue(values(s))
    ensures sections.Keys == DefaultSections().Keys
    ensures forall s: Section :: sections[Key(s)] == values(s)
    ensures forall k :: k in sections ==> WellFormedValue(sections[k])
  {
    forall k | k in sections ensures WellFormedValue(sections[k]) {
      var s: Section :| Key(s) == k;
      assert sections[k] == values(s);
    }
  }

  /**
   * `parseGeminiResponse`: start from the default record and, for each label
   * in turn, store the trimmed capture under the label's key when the capture
   * is non-empty and the key is one of the record's own.
   */
  method ParseResponse(text: string) returns (sections: map<string, string>)
    ensures sections.Keys == DefaultSections().Keys
    ensures forall s: Section :: sections[Key(s)] == FieldValue(text, Label(s))
    ensures forall k :: k in sections ==> WellFormedValue(sections[k])
  {
    var values := s => FieldValue(text, Label(s));
    sections := DefaultSections();
    FilledAtStart(values);
    for i := 0 to |Sections|
      invariant FilledUpTo(sections, values, i)
    {
      FilledOneMore(sections, values, i);
      sections := StoreSection(text, Sections[i], sections);
    }
    FilledAll(sections, values);
  }
}
