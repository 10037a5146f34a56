/**
 * The section extractor of the dictionary front end (`parseGeminiResponse`):
 * seven fixed bolded headers `**Label:**`, each looked up independently and
 * case-insensitively in the whole response, each capturing the text after its
 * leftmost header up to the next line that starts with `**` or the end.
 *
 * The regular expression `\*\*Label:\*\*\s*([\s\S]*?)(?=\n\*\*|$)` with flags
 * `is` is modelled by an explicit scan: once a header matches at some
 * position the rest of the pattern always succeeds (the alternative `$`
 * does), so the leftmost header wins, the greedy `\s*` eats all whitespace
 * after it, and the lazy capture stops at the first `"\n**"` or the end.
 */
module HeaderRegex {
  import opened Wrappers
  import opened Chars
  import opened Strings

  /** The placeholder every field starts with. */
  const NotAvailable: string := "N/A"

  /** The bolded header `**Label:**`. */
  function Header(name: string): string {
    "**" + name + ":**"
  }

  /** `name` occurs at position `q` of `text`, each character compared ignoring ASCII case. */
  predicate LabelAt(text: string, q: nat, name: string) {
    q + |name| <= |text| && forall i :: 0 <= i < |name| ==> SameIgnoringCase(text[q + i], name[i])
  }

  /**
   * The header of `name` occurs at position `p` of `text`: the asterisks and
   * the colon (which have no case) literally, the label ignoring ASCII case.
   */
  predicate HeaderAt(text: string, p: nat, name: string) {
    && p + |name| + 5 <= |text|
    && text[p] == '*' && text[p + 1] == '*'
    && LabelAt(text, p + 2, name)
    && text[p + 2 + |name|] == ':' && text[p + 3 + |name|] == '*' && text[p + 4 + |name|] == '*'
  }

  /** The characters of `**Label:**`, position by position. */
  lemma HeaderChars(name: string)
    ensures var h := Header(name);
      && |h| == |name| + 5 && h[0] == '*' && h[1] == '*'
      && (forall i :: 0 <= i < |name| ==> h[i + 2] == name[i])
      && h[|name| + 2] == ':' && h[|name| + 3] == '*' && h[|name| + 4] == '*'
  {
  }

  /** A header match agrees with `**Label:**` at every position once upper-cased. */
  lemma HeaderAtFolds(text: string, p: nat, name: string)
    requires HeaderAt(text, p, name)
    ensures p + |Header(name)| <= |text|
    ensures forall i :: 0 <= i < |Header(name)| ==> ToUpper(text[p + i]) == ToUpper(Header(name)[i])
  {
    var h := Header(name);
    HeaderChars(name);
    forall i | 0 <= i < |h| ensures ToUpper(text[p + i]) == ToUpper(h[i]) {
      if 2 <= i < |name| + 2 {
        assert SameIgnoringCase(text[p + 2 + (i - 2)], name[i - 2]);
      }
    }
  }

  /** Agreement with `**Label:**` at every position once upper-cased is a header match. */
  lemma FoldsHeaderAt(text: string, p: nat, name: string)
    requires p + |Header(name)| <= |text|
    requires forall i :: 0 <= i < |Header(name)| ==> ToUpper(text[p + i]) == ToUpper(Header(name)[i])
    ensures HeaderAt(text, p, name)
  {
    var h := Header(name);
    HeaderChars(name);
    assert ToUpper(text[p]) == ToUpper(h[0]) && ToUpper(text[p + 1]) == ToUpper(h[1]);
    assert ToUpper(text[p + |name| + 2]) == ToUpper(h[|name| + 2]);
    assert ToUpper(text[p + |name| + 3]) == ToUpper(h[|name| + 3]);
    assert ToUpper(text[p + |name| + 4]) == ToUpper(h[|name| + 4]);
    forall i | 0 <= i < |name| ensures SameIgnoringCase(text[p + 2 + i], name[i]) {
      assert ToUpper(text[p + (i + 2)]) == ToUpper(h[i + 2]);
    }
  }

  /**
   * The header match is the `i`-flag comparison of the literal header: the
   * text at `p` and `**Label:**` are equal once both are upper-cased.
   */
  lemma HeaderAtIsCaseFold(text: string, p: nat, name: string)
    ensures HeaderAt(text, p, name) <==>
      p + |Header(name)| <= |text| && UpperCase(text[p..p + |Header(name)|]) == UpperCase(Header(name))
  {
    var h := Header(name);
    if HeaderAt(text, p, name) {
      HeaderAtFolds(text, p, name);
      UpperCaseEqual(text[p..p + |h|], h);
    } else if p + |h| <= |text| {
      UpperCaseEqual(text[p..p + |h|], h);
      if UpperCase(text[p..p + |h|]) == UpperCase(h) {
        FoldsHeaderAt(text, p, name);
      }
    }
  }

  /** The header of `name` occurs somewhere in `text`. */
  predicate HasHeader(text: string, name: string) {
    exists p :: 0 <= p < |text| && HeaderAt(text, p, name)
  }

  /** The leftmost position at or after `from` where the header occurs, if any. */
  function FindHeader(text: string, name: string, from: nat): (r: Option<nat>)
    ensures r.Some? ==> from <= r.value && HeaderAt(text, r.value, name)
    ensures r.Some? ==> forall q :: from <= q < r.value ==> !HeaderAt(text, q, name)
    ensures r.None? ==> forall q :: from <= q ==> !HeaderAt(text, q, name)
    decreases |text| - from
  {
    if from + |name| + 5 > |text| then None
    else if HeaderAt(text, from, name) then Some(from)
    else FindHeader(text, name, from + 1)
  }

  /** The lookahead `\n\*\*`: a newline followed by two asterisks starts at `i`. */
  predicate TerminatorAt(s: string, i: int) {
    0 <= i && i + 3 <= |s| && s[i] == '\n' && s[i + 1] == '*' && s[i + 2] == '*'
  }

  predicate ContainsTerminator(s: string) {
    exists i :: 0 <= i < |s| && TerminatorAt(s, i)
  }

  /** Where the lazy capture stops: the first terminator, or the end of `s`. */
  function SectionLength(s: string): (n: nat)
    ensures n <= |s|
    ensures n == |s| || TerminatorAt(s, n)
    ensures forall j :: 0 <= j < n ==> !TerminatorAt(s, j)
  {
    if s == [] || TerminatorAt(s, 0) then 0
    else
      var n := 1 + SectionLength(s[1..]);
      assert forall j :: 1 <= j < n ==> TerminatorAt(s, j) == TerminatorAt(s[1..], j - 1);
      n
  }

  /** The capture group: `s` up to (not including) its first terminator. */
  function SectionText(s: string): (r: string)
    ensures |r| <= |s|
    ensures !ContainsTerminator(r)
    ensures |r| == |s| || TerminatorAt(s, |r|)
  {
    var n := SectionLength(s);
    var r := s[..n];
    assert forall j :: TerminatorAt(r, j) ==> TerminatorAt(s, j);
    r
  }

  /**
   * `match[1]` of `text.match(regex)` for the label `name`: absent when the
   * header does not occur; otherwise, after the leftmost header, the text
   * with its leading whitespace skipped, cut at the first terminator.
   */
  function Capture(text: string, name: string): (c: Option<string>)
    ensures c.None? ==> !HasHeader(text, name)
    ensures c.Some? ==> !ContainsTerminator(c.value)
    ensures c.Some? ==> c.value == [] || !IsSpace(c.value[0])
  {
    match FindHeader(text, name, 0)
    case None => None
    case Some(p) => Some(CaptureFrom(text, p + |Header(name)|))
  }

  /** `\s*([\s\S]*?)(?=\n\*\*|$)` from position `start`: skip whitespace, then cut at the first terminator. */
  function CaptureFrom(text: string, start: nat): (r: string)
    requires start <= |text|
    ensures !ContainsTerminator(r)
    ensures r == [] || !IsSpace(r[0])
  {
    var t := TrimStart(text[start..]);
    var r := SectionText(t);
    assert r == [] || r[0] == t[0];
    r
  }

  /** Trimming a capture that starts with a non-space keeps it non-empty and terminator-free. */
  lemma TrimmedCapture(c: string)
    requires c != [] && !IsSpace(c[0]) && !ContainsTerminator(c)
    ensures Trim(c) != [] && !IsSpace(Trim(c)[0]) && !IsSpace(Trim(c)[|Trim(c)| - 1])
    ensures !ContainsTerminator(Trim(c))
  {
    LeadingSpacesAre(c, 0);
    var r := Trim(c);
    assert r == c[..|r|];
    forall j | 0 <= j < |r| && TerminatorAt(r, j) ensures false {
      assert TerminatorAt(c, j);
    }
  }

  /** The value stored for a capture: the trimmed capture, or `"N/A"` when it is missing or empty. */
  function CaptureValue(c: Option<string>): (v: string)
    requires c.Some? ==> !ContainsTerminator(c.value) && (c.value == [] || !IsSpace(c.value[0]))
    ensures v == NotAvailable || (v != [] && !IsSpace(v[0]) && !IsSpace(v[|v| - 1]))
    ensures !ContainsTerminator(v)
    ensures c.None? ==> v == NotAvailable
  {
    if c.Some? && c.value != [] then
      TrimmedCapture(c.value);
      Trim(c.value)
    else
      NotAvailable
  }

  /** A non-empty capture is stored trimmed. */
  lemma StoredCapture(text: string, name: string, c: string)
    requires Capture(text, name) == Some(c) && c != []
    ensures FieldValue(text, name) == Trim(c)
  {
  }

  /** What the parser stores for one label. */
  function FieldValue(text: string, name: string): (v: string)
    ensures v == NotAvailable || (v != [] && !IsSpace(v[0]) && !IsSpace(v[|v| - 1]))
    ensures !ContainsTerminator(v)
    ensures !HasHeader(text, name) ==> v == NotAvailable
  {
    CaptureValue(Capture(text, name))
  }

  /** Every value the record can hold: `"N/A"`, or a trimmed non-empty text without a terminator. */
  predicate WellFormedValue(v: string) {
    && (v == NotAvailable || (v != [] && !IsSpace(v[0]) && !IsSpace(v[|v| - 1])))
    && !ContainsTerminator(v)
  }
}
