/**
 * What the header scan recovers: the trimmed text between the leftmost
 * header of a label and the next `"\n**"`, whatever comes before or after,
 * without regard to the ASCII case of the label.
 */
module SectionRecovery {
  import opened Wrappers
  import opened Chars
  import opened Strings
  import opened HeaderRegex

  /** The capture after the leftmost header, when that header starts at `p`. */
  lemma CaptureAfterLeftmost(text: string, name: string, p: nat)
    requires FindHeader(text, name, 0) == Some(p)
    ensures Capture(text, name) == Some(CaptureFrom(text, p + |Header(name)|))
  {
  }

  /** `match` finds something exactly when the header of `name` occurs in `text`. */
  lemma CaptureIffHeader(text: string, name: string)
    ensures Capture(text, name).None? <==> !HasHeader(text, name)
  {
    if HasHeader(text, name) {
      var p :| 0 <= p < |text| && HeaderAt(text, p, name);
      assert FindHeader(text, name, 0).Some?;
    }
  }

  /** The search returns the leftmost header. */
  lemma FindLeftmost(text: string, name: string, p: nat)
    requires HeaderAt(text, p, name)
    requires forall q :: 0 <= q < p ==> !HeaderAt(text, q, name)
    ensures FindHeader(text, name, 0) == Some(p)
  {
  }

  /** The cut stops exactly at the end of a part without terminators, when a terminator or the end follows it. */
  lemma SectionTextStopsAt(u: string, tail: string)
    requires !ContainsTerminator(u)
    requires tail == [] || TerminatorAt(tail, 0)
    ensures SectionText(u + tail) == u
  {
    var s := u + tail;
    forall j | 0 <= j < |u| ensures !TerminatorAt(s, j) {
      if j + 3 <= |u| {
        assert TerminatorAt(s, j) ==> TerminatorAt(u, j);
      } else if tail != [] {
        assert s[|u|] == '\n';
      }
    }
    assert |u| == |s| || TerminatorAt(s, |u|);
    assert s[..|u|] == u;
  }

  /**
   * The value stored for a label is the text between its leftmost header and
   * the next `"\n**"` (or the end), trimmed, when that text is not blank.
   */
  lemma ValueBetween(text: string, name: string, p: nat, end: nat)
    requires FindHeader(text, name, 0) == Some(p)
    requires p + |Header(name)| <= end <= |text|
    requires !AllSpace(text[p + |Header(name)|..end])
    requires !ContainsTerminator(TrimStart(text[p + |Header(name)|..end]))
    requires end == |text| || TerminatorAt(text, end)
    ensures FieldValue(text, name) == Trim(text[p + |Header(name)|..end])
  {
    var start := p + |Header(name)|;
    CaptureAfterLeftmost(text, name, p);
    CaptureUpTo(text, start, end);
    TrimStartEmpty(text[start..end]);
    StoredCapture(text, name, TrimStart(text[start..end]));
    TrimAfterTrimStart(text[start..end]);
  }

  /** The capture from `start` is the text up to the terminator at `end`, with its leading whitespace skipped. */
  lemma CaptureUpTo(text: string, start: nat, end: nat)
    requires start <= end <= |text|
    requires !AllSpace(text[start..end])
    requires !ContainsTerminator(TrimStart(text[start..end]))
    requires end == |text| || TerminatorAt(text, end)
    ensures CaptureFrom(text, start) == TrimStart(text[start..end])
  {
    var body, tail := text[start..end], text[end..];
    assert text[start..] == body + tail;
    TrimStartAppend(body, tail);
    assert tail == [] || TerminatorAt(tail, 0);
    SectionTextStopsAt(TrimStart(body), tail);
  }

  /** The header of `name` written out at position `|pre|`. */
  lemma HeaderWritten(pre: string, name: string, body: string, tail: string)
    ensures HeaderAt(pre + Header(name) + body + tail, |pre|, name)
  {
    var h := Header(name);
    var text := pre + h + body + tail;
    forall i | 0 <= i < |h| ensures text[|pre| + i] == h[i] {
    }
    forall i | 0 <= i < |name| ensures text[|pre| + 2 + i] == name[i] {
      assert h[2 + i] == name[i];
    }
  }

  /**
   * A section is recovered from its text: when the first header of `name`
   * is followed by `body` and then by the end of the text or a newline and
   * two asterisks, the stored value is `body` trimmed, whatever `tail` holds
   * after that.
   */
  lemma SectionRecovered(pre: string, name: string, body: string, tail: string)
    requires forall q :: 0 <= q < |pre| ==> !HeaderAt(pre + Header(name) + body + tail, q, name)
    requires !AllSpace(body)
    requires !ContainsTerminator(TrimStart(body))
    requires tail == [] || TerminatorAt(tail, 0)
    ensures FieldValue(pre + Header(name) + body + tail, name) == Trim(body)
  {
    var text := pre + Header(name) + body + tail;
    var start := |pre| + |Header(name)|;
    var end := start + |body|;
    HeaderWritten(pre, name, body, tail);
    FindLeftmost(text, name, |pre|);
    assert text[start..end] == body;
    assert end == |text| || TerminatorAt(text, end) by {
      if tail != [] { assert text[end..end + 3] == tail[..3]; }
    }
    ValueBetween(text, name, |pre|, end);
  }

  /** Only the first header of a label counts: a later repetition ends the section and is ignored. */
  lemma FirstHeaderWins(pre: string, name: string, body: string, rest: string)
    requires forall q :: 0 <= q < |pre| ==> !HeaderAt(pre + Header(name) + body + ("\n" + Header(name) + rest), q, name)
    requires !AllSpace(body)
    requires !ContainsTerminator(TrimStart(body))
    ensures FieldValue(pre + Header(name) + body + ("\n" + Header(name) + rest), name) == Trim(body)
  {
    SectionRecovered(pre, name, body, "\n" + Header(name) + rest);
  }

  /** A header followed only by whitespace up to the end of the text yields `"N/A"`. */
  lemma BlankSectionNotAvailable(pre: string, name: string, blank: string)
    requires forall q :: 0 <= q < |pre| ==> !HeaderAt(pre + Header(name) + blank, q, name)
    requires AllSpace(blank)
    ensures FieldValue(pre + Header(name) + blank, name) == NotAvailable
  {
    var h := Header(name);
    var text := pre + h + blank;
    HeaderWritten(pre, name, blank, []);
    assert text + [] == text;
    FindLeftmost(text, name, |pre|);
    CaptureAfterLeftmost(text, name, |pre|);
    assert text[|pre| + |h|..] == blank + [];
    TrimStartSkipsBlank(blank, []);
  }

  /**
   * The whitespace after a header may include newlines: a header followed
   * only by whitespace and then by text that starts another line, without
   * `"\n**"` in it, captures that text, not `"N/A"`, whatever section
   * follows it.
   */
  lemma BlankSectionTakesNext(pre: string, name: string, blank: string, next: string, tail: string)
    requires forall q :: 0 <= q < |pre| ==> !HeaderAt(pre + Header(name) + blank + next + tail, q, name)
    requires AllSpace(blank)
    requires next != [] && !IsSpace(next[0])
    requires !ContainsTerminator(next)
    requires tail == [] || TerminatorAt(tail, 0)
    ensures FieldValue(pre + Header(name) + blank + next + tail, name) == Trim(next)
  {
    var body := blank + next;
    var text := pre + Header(name) + blank + next + tail;
    assert pre + Header(name) + body + tail == text;
    TrimStartSkipsBlank(blank, next);
    assert !AllSpace(body) by { assert body[|blank|] == next[0]; }
    TrimAfterTrimStart(body);
    TrimAfterTrimStart(next);
    SectionRecovered(pre, name, body, tail);
  }

  /** Two labels that differ only in ASCII case have headers at the same places. */
  lemma HeaderAtIgnoresCase(text: string, p: nat, a: string, b: string)
    requires UpperCase(a) == UpperCase(b)
    ensures |Header(a)| == |Header(b)|
    ensures HeaderAt(text, p, a) <==> HeaderAt(text, p, b)
  {
    assert |a| == |UpperCase(a)| == |b|;
    forall i | 0 <= i < |a| ensures ToUpper(a[i]) == ToUpper(b[i]) {
      assert UpperCase(a)[i] == UpperCase(b)[i];
    }
  }

  /** The search for two labels that differ only in ASCII case stops at the same place. */
  lemma {:induction false} FindHeaderIgnoresCase(text: string, a: string, b: string, from: nat)
    requires UpperCase(a) == UpperCase(b)
    ensures FindHeader(text, a, from) == FindHeader(text, b, from)
    decreases |text| - from
  {
    HeaderAtIgnoresCase(text, from, a, b);
    if from + |Header(a)| <= |text| && !HeaderAt(text, from, a) {
      FindHeaderIgnoresCase(text, a, b, from + 1);
    }
  }

  /** Two labels whose searches agree and whose headers have the same length store the same value. */
  lemma SameSearchSameValue(text: string, a: string, b: string)
    requires FindHeader(text, a, 0) == FindHeader(text, b, 0)
    requires |Header(a)| == |Header(b)|
    ensures FieldValue(text, a) == FieldValue(text, b)
  {
    SameSearchSameCapture(text, a, b);
    SameCaptureSameValue(text, a, b);
  }

  /** The capture depends on the label only through where its header is and how long it is. */
  lemma SameSearchSameCapture(text: string, a: string, b: string)
    requires FindHeader(text, a, 0) == FindHeader(text, b, 0)
    requires |Header(a)| == |Header(b)|
    ensures Capture(text, a) == Capture(text, b)
  {
  }

  /** The stored value depends on the label only through its capture. */
  lemma SameCaptureSameValue(text: string, a: string, b: string)
    requires Capture(text, a) == Capture(text, b)
    ensures FieldValue(text, a) == FieldValue(text, b)
  {
  }

  /** The `i` flag: the stored value does not depend on the ASCII case of the label. */
  lemma LabelCaseIrrelevant(text: string, a: string, b: string)
    requires UpperCase(a) == UpperCase(b)
    ensures FieldValue(text, a) == FieldValue(text, b)
  {
    FindHeaderIgnoresCase(text, a, b, 0);
    assert |a| == |UpperCase(a)| == |b|;
    SameSearchSameValue(text, a, b);
  }
}
