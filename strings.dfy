/** `String.prototype.trim` and its two halves, over the ECMAScript whitespace set. */
module Strings {
  import opened Chars

  predicate AllSpace(s: string) {
    forall i :: 0 <= i < |s| ==> IsSpace(s[i])
  }

  /** How many whitespace characters `s` starts with. */
  function LeadingSpaces(s: string): (n: nat)
    ensures n <= |s|
    ensures forall i :: 0 <= i < n ==> IsSpace(s[i])
    ensures n == |s| || !IsSpace(s[n])
  {
    if s != [] && IsSpace(s[0]) then 1 + LeadingSpaces(s[1..]) else 0
  }

  /** How many whitespace characters `s` ends with. */
  function TrailingSpaces(s: string): (n: nat)
    ensures n <= |s|
    ensures forall i :: |s| - n <= i < |s| ==> IsSpace(s[i])
    ensures n == |s| || !IsSpace(s[|s| - n - 1])
  {
    if s != [] && IsSpace(s[|s| - 1]) then 1 + TrailingSpaces(s[..|s| - 1]) else 0
  }

  /** A run of whitespace that stops at a non-space (or the end) is the whole leading whitespace. */
  lemma LeadingSpacesAre(s: string, n: nat)
    requires n <= |s|
    requires forall i :: 0 <= i < n ==> IsSpace(s[i])
    requires n == |s| || !IsSpace(s[n])
    ensures LeadingSpaces(s) == n
  {
  }

  /** Drops the leading whitespace: the result starts with a non-space. */
  function TrimStart(s: string): (r: string)
    ensures |r| <= |s|
    ensures r == [] || !IsSpace(r[0])
  {
    s[LeadingSpaces(s)..]
  }

  /** Drops the trailing whitespace: a prefix of `s` that ends with a non-space, followed in `s` by whitespace only. */
  function TrimEnd(s: string): (r: string)
    ensures |r| <= |s|
    ensures r == [] || !IsSpace(r[|r| - 1])
    ensures r == s[..|r|] && AllSpace(s[|r|..])
  {
    s[..|s| - TrailingSpaces(s)]
  }

  /** Both ends trimmed; empty exactly when `s` is all whitespace. */
  function Trim(s: string): (r: string)
    ensures |r| <= |s|
    ensures r == [] <==> AllSpace(s)
    ensures r == [] || (!IsSpace(r[0]) && !IsSpace(r[|r| - 1]))
  {
    TrimEnd(TrimStart(s))
  }

  /** Only an all-whitespace text loses everything to `TrimStart`. */
  lemma TrimStartEmpty(s: string)
    ensures TrimStart(s) == [] <==> AllSpace(s)
  {
  }

  /** Trimming the start twice is trimming it once. */
  lemma TrimStartIdempotent(s: string)
    ensures TrimStart(TrimStart(s)) == TrimStart(s)
  {
    LeadingSpacesAre(TrimStart(s), 0);
  }

  /** Trimming what `TrimStart` left gives the same result as trimming the original. */
  lemma TrimAfterTrimStart(s: string)
    ensures Trim(TrimStart(s)) == Trim(s)
  {
    TrimStartIdempotent(s);
  }

  /**
   * Text appended after a part that has a non-space character does not change
   * where the leading whitespace ends.
   */
  lemma TrimStartAppend(s: string, t: string)
    requires !AllSpace(s)
    ensures TrimStart(s + t) == TrimStart(s) + t
  {
    var n := LeadingSpaces(s);
    assert n < |s|;
    LeadingSpacesAre(s + t, n);
    assert (s + t)[n..] == s[n..] + t;
  }

  /** Leading whitespace followed by a non-space start is skipped entirely. */
  lemma TrimStartSkipsBlank(blank: string, t: string)
    requires AllSpace(blank)
    requires t == [] || !IsSpace(t[0])
    ensures TrimStart(blank + t) == t
  {
    LeadingSpacesAre(blank + t, |blank|);
    assert (blank + t)[|blank|..] == t;
  }

  /** Trimming removes whitespace only, from the two ends, and keeps the rest as it is. */
  lemma TrimKeepsCore(s: string)
    ensures var a := |s| - |TrimStart(s)|;
      && a + |Trim(s)| <= |s|
      && Trim(s) == s[a..a + |Trim(s)|]
      && AllSpace(s[..a]) && AllSpace(s[a + |Trim(s)|..])
  {
    var a := LeadingSpaces(s);
    var t := TrimStart(s);
    var r := TrimEnd(t);
    assert s[a..a + |r|] == t[..|r|];
    assert forall i :: a + |r| <= i < |s| ==> s[i] == t[i - a];
  }

  /** Upper-cases every ASCII letter of `s`: the case folding the regular-expression flag `i` compares under. */
  function UpperCase(s: string): (r: string)
    ensures |r| == |s|
    ensures forall i :: 0 <= i < |s| ==> r[i] == ToUpper(s[i])
  {
    if s == [] then [] else [ToUpper(s[0])] + UpperCase(s[1..])
  }

  /** Two texts of the same length agree once upper-cased exactly when they agree character by character once upper-cased. */
  lemma UpperCaseEqual(a: string, b: string)
    requires |a| == |b|
    ensures UpperCase(a) == UpperCase(b) <==> forall i :: 0 <= i < |a| ==> ToUpper(a[i]) == ToUpper(b[i])
  {
    if forall i :: 0 <= i < |a| ==> ToUpper(a[i]) == ToUpper(b[i]) {
      assert forall i :: 0 <= i < |a| ==> UpperCase(a)[i] == UpperCase(b)[i];
    }
  }
}
