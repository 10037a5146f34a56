/**
 * The two string checks of the result view: `formatText`, which turns a
 * stored value into the markup shown for the definitions and the example
 * sentences, and the test that decides whether the word's picture is
 * shown.
 */
module Display {
  import opened Wrappers
  import opened Chars

  /** The markup `formatText` inserts to start a new line. */
  const Break: string := "<br>"

  /** `text.replace(/\*\/g, '')`: every asterisk removed. */
  function DeleteStars(s: string): (r: string)
    ensures |r| <= |s|
    ensures forall i :: 0 <= i < |r| ==> r[i] != '*'
  {
    if s == [] then []
    else if s[0] == '*' then DeleteStars(s[1..])
    else [s[0]] + DeleteStars(s[1..])
  }

  /** A space, a hyphen and a space start at position `i`. */
  predicate DashAt(s: string, i: int) {
    0 <= i && i + 3 <= |s| && s[i] == ' ' && s[i + 1] == '-' && s[i + 2] == ' '
  }

  /**
   * `.replace(/ - /g, '<br>- ')`, scanning left to right without overlap.
   * The text only grows, and it keeps its length only when nothing is replaced.
   */
  function MarkDashes(s: string): (r: string)
    ensures |r| >= |s|
    ensures |r| == |s| ==> r == s
  {
    if s == [] then []
    else if DashAt(s, 0) then Break + "- " + MarkDashes(s[3..])
    else [s[0]] + MarkDashes(s[1..])
  }

  /** A digit followed by a full stop starts at position `i`: the pattern `\d\.` (ASCII digits only). */
  predicate NumberAt(s: string, i: int) {
    0 <= i && i + 2 <= |s| && IsDigit(s[i]) && s[i + 1] == '.'
  }

  /**
   * `.replace(/(\d\.)/g, '<br>$1')`, scanning left to right without overlap.
   * The text only grows, and it keeps its length only when nothing is replaced.
   */
  function MarkNumbers(s: string): (r: string)
    ensures |r| >= |s|
    ensures |r| == |s| ==> r == s
  {
    if s == [] then []
    else if NumberAt(s, 0) then Break + s[..2] + MarkNumbers(s[2..])
    else [s[0]] + MarkNumbers(s[1..])
  }

  /** `formatText`: the three replacements, in the order the source chains them. Its output contains no asterisk. */
  function FormatText(s: string): (r: string)
    ensures forall i :: 0 <= i < |r| ==> r[i] != '*'
  {
    var d := DeleteStars(s);
    MarkDashesAddsNoStar(d);
    MarkNumbersAddsNoStar(MarkDashes(d));
    MarkNumbers(MarkDashes(d))
  }

  /** Turns every `"<br>- "` back into `" - "`. */
  function UnmarkDashes(s: string): string {
    if s == [] then []
    else if |s| >= 6 && s[..6] == Break + "- " then " - " + UnmarkDashes(s[6..])
    else [s[0]] + UnmarkDashes(s[1..])
  }

  /** Drops every `"<br>"` that stands before a digit and a full stop. */
  function UnmarkNumbers(s: string): string {
    if s == [] then []
    else if |s| >= 6 && s[..4] == Break && NumberAt(s, 4) then s[4..6] + UnmarkNumbers(s[6..])
    else [s[0]] + UnmarkNumbers(s[1..])
  }

  /** Nothing but the asterisks is deleted: every other character is kept, and the length drops by the number of asterisks. */
  lemma {:induction false} DeleteStarsKeeps(s: string)
    ensures forall i :: 0 <= i < |s| ==> (s[i] != '*' <==> s[i] in DeleteStars(s))
    ensures |DeleteStars(s)| == |s| - multiset(s)['*']
  {
    if s != [] {
      DeleteStarsKeeps(s[1..]);
      assert s == [s[0]] + s[1..];
      assert multiset(s) == multiset{s[0]} + multiset(s[1..]);
      forall i | 1 <= i < |s| ensures (s[i] != '*' <==> s[i] in DeleteStars(s)) {
        assert s[i] == s[1..][i - 1];
      }
    }
  }

  /** Every character other than the asterisk is kept as often as it occurs; no asterisk is. */
  lemma {:induction false} DeleteStarsCounts(s: string)
    ensures multiset(DeleteStars(s)) == multiset(s)['*' := 0]
  {
    if s != [] {
      DeleteStarsCounts(s[1..]);
      assert s == [s[0]] + s[1..];
      assert multiset(s) == multiset{s[0]} + multiset(s[1..]);
      if s[0] != '*' {
        assert multiset(DeleteStars(s)) == multiset{s[0]} + multiset(DeleteStars(s[1..]));
      }
    }
  }

  /** Asterisks are deleted piece by piece: the kept characters stay in their order. */
  lemma {:induction false} DeleteStarsAppend(a: string, b: string)
    ensures DeleteStars(a + b) == DeleteStars(a) + DeleteStars(b)
  {
    if a == [] {
      assert a + b == b;
    } else {
      assert (a + b)[0] == a[0];
      assert (a + b)[1..] == a[1..] + b;
      DeleteStarsAppend(a[1..], b);
    }
  }

  /** Marking dashes adds no asterisk. */
  lemma {:induction false} MarkDashesAddsNoStar(s: string)
    requires forall i :: 0 <= i < |s| ==> s[i] != '*'
    ensures forall i :: 0 <= i < |MarkDashes(s)| ==> MarkDashes(s)[i] != '*'
  {
    if s != [] {
      if DashAt(s, 0) {
        MarkDashesAddsNoStar(s[3..]);
      } else {
        MarkDashesAddsNoStar(s[1..]);
      }
    }
  }

  /** Marking numbers adds no asterisk. */
  lemma {:induction false} MarkNumbersAddsNoStar(s: string)
    requires forall i :: 0 <= i < |s| ==> s[i] != '*'
    ensures forall i :: 0 <= i < |MarkNumbers(s)| ==> MarkNumbers(s)[i] != '*'
  {
    if s != [] {
      if NumberAt(s, 0) {
        MarkNumbersAddsNoStar(s[2..]);
      } else {
        MarkNumbersAddsNoStar(s[1..]);
      }
    }
  }

  /** Without asterisks, deleting them changes nothing. */
  lemma {:induction false} DeleteStarsWithoutStars(s: string)
    requires forall i :: 0 <= i < |s| ==> s[i] != '*'
    ensures DeleteStars(s) == s
  {
    if s != [] {
      DeleteStarsWithoutStars(s[1..]);
    }
  }

  /** Without `" - "`, marking dashes changes nothing. */
  lemma {:induction false} MarkDashesWithoutDashes(s: string)
    requires forall i :: 0 <= i < |s| ==> !DashAt(s, i)
    ensures MarkDashes(s) == s
  {
    if s != [] {
      forall i | 0 <= i < |s| - 1 ensures !DashAt(s[1..], i) {
        assert !DashAt(s, i + 1);
      }
      MarkDashesWithoutDashes(s[1..]);
    }
  }

  /** Without a digit followed by a full stop, marking numbers changes nothing. */
  lemma {:induction false} MarkNumbersWithoutNumbers(s: string)
    requires forall i :: 0 <= i < |s| ==> !NumberAt(s, i)
    ensures MarkNumbers(s) == s
  {
    if s != [] {
      forall i | 0 <= i < |s| - 1 ensures !NumberAt(s[1..], i) {
        assert !NumberAt(s, i + 1);
      }
      MarkNumbersWithoutNumbers(s[1..]);
    }
  }

  /** Each `" - "` becomes `"<br>- "`. */
  lemma MarkDashesAtDash(t: string)
    ensures MarkDashes(" - " + t) == Break + "- " + MarkDashes(t)
  {
    assert DashAt(" - " + t, 0);
    assert (" - " + t)[3..] == t;
  }

  /** Each digit followed by a full stop gets `"<br>"` in front of it. */
  lemma MarkNumbersAtNumber(d: char, t: string)
    requires IsDigit(d)
    ensures MarkNumbers([d, '.'] + t) == Break + [d, '.'] + MarkNumbers(t)
  {
    var s := [d, '.'] + t;
    assert NumberAt(s, 0);
    assert s[..2] == [d, '.'] && s[2..] == t;
  }

  /** A text with no asterisk, no `" - "` and no digit followed by a full stop is shown as it is. */
  lemma FormatTextUnchanged(s: string)
    requires forall i :: 0 <= i < |s| ==> s[i] != '*' && !DashAt(s, i) && !NumberAt(s, i)
    ensures FormatText(s) == s
  {
    DeleteStarsWithoutStars(s);
    MarkDashesWithoutDashes(s);
    MarkNumbersWithoutNumbers(s);
  }

  /** Without `'<'` in the text, the inserted breaks before dashes are the only ones, so they can be taken out again. */
  lemma {:induction false} UnmarkMarkDashes(s: string)
    requires forall i :: 0 <= i < |s| ==> s[i] != '<'
    ensures UnmarkDashes(MarkDashes(s)) == s
  {
    if s != [] {
      if DashAt(s, 0) {
        var rest := MarkDashes(s[3..]);
        var marked := Break + "- " + rest;
        assert marked[..6] == Break + "- ";
        assert marked[6..] == rest;
        UnmarkMarkDashes(s[3..]);
        assert s == " - " + s[3..];
      } else {
        var marked := [s[0]] + MarkDashes(s[1..]);
        assert marked[1..] == MarkDashes(s[1..]);
        assert |marked| >= 6 ==> marked[..6] != Break + "- " by {
          if |marked| >= 6 { assert marked[0] == s[0] != '<'; }
        }
        UnmarkMarkDashes(s[1..]);
        assert s == [s[0]] + s[1..];
      }
    }
  }

  /** The text `MarkNumbers` produces never starts with a digit followed by a full stop: each such pair gets a break before it. */
  lemma MarkNumbersStart(s: string)
    ensures !NumberAt(MarkNumbers(s), 0)
  {
    if s != [] && !NumberAt(s, 0) && |s| >= 2 && IsDigit(s[0]) {
      var rest := MarkNumbers(s[1..]);
      if rest != [] {
        if NumberAt(s[1..], 0) {
          assert rest[0] == '<';
        } else {
          assert rest[0] == s[1];
        }
      }
    }
  }

  /** An output character other than `'<'` at the front was copied from the front of the input. */
  lemma MarkNumbersCopied(s: string, c: char)
    requires MarkNumbers(s) != [] && MarkNumbers(s)[0] == c && c != '<'
    ensures s != [] && s[0] == c && MarkNumbers(s)[1..] == MarkNumbers(s[1..])
  {
  }

  /** The text `MarkNumbers` produces never starts with `"br>"` and then a digit and a full stop. */
  lemma MarkNumbersNoFalseBreak(s: string)
    ensures var m := MarkNumbers(s);
      !(|m| >= 5 && m[0] == 'b' && m[1] == 'r' && m[2] == '>' && NumberAt(m, 3))
  {
    var m := MarkNumbers(s);
    if |m| >= 5 && m[0] == 'b' && m[1] == 'r' && m[2] == '>' {
      MarkNumbersCopied(s, 'b');
      MarkNumbersCopied(s[1..], 'r');
      MarkNumbersCopied(s[2..], '>');
      assert s[1..][1..] == s[2..] && s[2..][1..] == s[3..];
      MarkNumbersStart(s[3..]);
      assert m[3..] == MarkNumbers(s[3..]);
    }
  }

  /** Every break `MarkNumbers` inserts can be recognised and taken out again, whatever the text was. */
  lemma {:induction false} UnmarkMarkNumbers(s: string)
    ensures UnmarkNumbers(MarkNumbers(s)) == s
  {
    if s != [] {
      if NumberAt(s, 0) {
        var rest := MarkNumbers(s[2..]);
        var marked := Break + s[..2] + rest;
        assert marked[..4] == Break && NumberAt(marked, 4);
        assert marked[4..6] == s[..2] && marked[6..] == rest;
        UnmarkMarkNumbers(s[2..]);
        assert s == s[..2] + s[2..];
      } else {
        var rest := MarkNumbers(s[1..]);
        var marked := [s[0]] + rest;
        assert marked[1..] == rest;
        assert !(|marked| >= 6 && marked[..4] == Break && NumberAt(marked, 4)) by {
          if |marked| >= 6 && marked[..4] == Break {
            assert rest[0] == marked[1] == Break[1] == 'b';
            assert rest[1] == marked[2] == Break[2] == 'r';
            assert rest[2] == marked[3] == Break[3] == '>';
            MarkNumbersNoFalseBreak(s[1..]);
            assert NumberAt(marked, 4) == NumberAt(rest, 3);
          }
        }
        UnmarkMarkNumbers(s[1..]);
        assert s == [s[0]] + s[1..];
      }
    }
  }

  /**
   * Formatting loses nothing but the asterisks: for a text without `'<'`,
   * taking the inserted breaks out again gives the text with its asterisks
   * deleted.
   */
  lemma FormatTextRoundTrip(s: string)
    requires forall i :: 0 <= i < |s| ==> s[i] != '<'
    ensures UnmarkDashes(UnmarkNumbers(FormatText(s))) == DeleteStars(s)
  {
    var d := DeleteStars(s);
    DeleteStarsKeeps(s);
    forall i | 0 <= i < |d| ensures d[i] != '<' {
      DeleteStarsSubset(s, d[i]);
    }
    UnmarkMarkNumbers(MarkDashes(d));
    UnmarkMarkDashes(d);
  }

  /** Deleting asterisks introduces no character the text did not have. */
  lemma {:induction false} DeleteStarsSubset(s: string, c: char)
    requires c in DeleteStars(s)
    ensures c in s
  {
    if s != [] {
      if c != s[0] {
        DeleteStarsSubset(s[1..], c);
      }
    }
  }

  /** The identifier of the stock picture the image lookup falls back to. */
  const DefaultImageId: string := "1528459801416"

  /** `p` occurs in `s` at position `i`. */
  predicate OccursAt(s: string, p: string, i: int) {
    0 <= i && i + |p| <= |s| && s[i..i + |p|] == p
  }

  /** `s.includes(p)`: `p` occurs somewhere in `s`. The empty text occurs in every text, and nothing longer than `s` occurs in it. */
  function Contains(s: string, p: string): (r: bool)
    ensures p == [] ==> r
    ensures r ==> |p| <= |s|
    decreases |s|
  {
    if |s| < |p| then false
    else s[..|p|] == p || Contains(s[1..], p)
  }

  /** `Contains` holds exactly when `p` occurs at some position of `s`. */
  lemma {:induction false} ContainsIsOccurrence(s: string, p: string)
    ensures Contains(s, p) <==> exists i :: OccursAt(s, p, i)
    decreases |s|
  {
    if |s| < |p| {
    } else if s[..|p|] == p {
      assert OccursAt(s, p, 0);
    } else {
      ContainsIsOccurrence(s[1..], p);
      forall i | OccursAt(s[1..], p, i) ensures OccursAt(s, p, i + 1) {
        assert s[i + 1..i + 1 + |p|] == s[1..][i..i + |p|];
      }
      forall i | OccursAt(s, p, i) ensures i > 0 && OccursAt(s[1..], p, i - 1) {
        assert s[1..][i - 1..i - 1 + |p|] == s[i..i + |p|];
      }
    }
  }

  /**
   * `imageUrl && !imageUrl.includes("1528459801416")`: a picture is shown
   * exactly when its URL is present, non-empty, and carries the stock
   * picture's identifier at no position.
   */
  function ShowsImage(url: Option<string>): (shown: bool)
    ensures shown <==> url.Some? && url.value != [] && forall i :: !OccursAt(url.value, DefaultImageId, i)
  {
    match url
    case None => false
    case Some(u) =>
      ContainsIsOccurrence(u, DefaultImageId);
      u != [] && !Contains(u, DefaultImageId)
  }

  /** A URL that carries the stock picture's identifier anywhere is never shown. */
  lemma StockImageHidden(pre: string, post: string)
    ensures !ShowsImage(Some(pre + DefaultImageId + post))
  {
    var url := pre + DefaultImageId + post;
    assert OccursAt(url, DefaultImageId, |pre|) by {
      assert url[|pre|..|pre| + |DefaultImageId|] == DefaultImageId;
    }
    ContainsIsOccurrence(url, DefaultImageId);
  }

  /**
   * The fallback URL the image lookup returns when it finds no picture,
   * written around the identifier it carries.
   */
  const FallbackImageUrl: string :=
    "https://images.unsplash.com/photo-" + DefaultImageId + "-a9e53bbf4e17?q=80&w=1912&auto=format&fit=crop"

  /** The fallback URL is hidden. */
  lemma FallbackImageHidden()
    ensures !ShowsImage(Some(FallbackImageUrl))
  {
    StockImageHidden("https://images.unsplash.com/photo-", "-a9e53bbf4e17?q=80&w=1912&auto=format&fit=crop");
  }

  /** Every other non-empty URL is shown. */
  lemma OtherImageShown(url: string)
    requires url != []
    requires forall i :: !OccursAt(url, DefaultImageId, i)
    ensures ShowsImage(Some(url))
  {
    ContainsIsOccurrence(url, DefaultImageId);
  }

  /** A missing or empty URL is not shown. */
  lemma MissingImageHidden(url: Option<string>)
    requires url.None? || url.value == []
    ensures !ShowsImage(url)
  {
  }
}
