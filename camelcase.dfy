/**
 * The key a label is stored under: `key.charAt(0).toLowerCase() +
 * key.slice(1).replace(/\s(.)/g, (m, c) => c.toUpperCase())`.
 */
module CamelCase {
  import opened Chars

  /** A whitespace followed by a character `.` matches (anything but a line terminator). */
  predicate CamelJoinAt(s: string, i: nat) {
    i + 1 < |s| && IsSpace(s[i]) && !IsLineTerminator(s[i + 1])
  }

  /** The global replace over `key.slice(1)`, scanning left to right without overlap. */
  function CamelTail(s: string): string
    decreases |s|
  {
    if s == [] then []
    else if CamelJoinAt(s, 0) then [ToUpper(s[1])] + CamelTail(s[2..])
    else [s[0]] + CamelTail(s[1..])
  }

  /** Each replacement shortens the text by one, so the text keeps its length only when nothing is replaced. */
  lemma {:induction false} CamelTailShortens(s: string)
    ensures |CamelTail(s)| <= |s|
    ensures |CamelTail(s)| == |s| ==> CamelTail(s) == s
    decreases |s|
  {
    if s != [] {
      if CamelJoinAt(s, 0) {
        CamelTailShortens(s[2..]);
      } else {
        CamelTailShortens(s[1..]);
        assert s == [s[0]] + s[1..];
      }
    }
  }

  /** The record key a label is stored under: empty only for the empty label, and never longer than it. */
  function CamelCaseKey(name: string): (key: string)
    ensures key == [] <==> name == []
    ensures |key| <= |name|
  {
    if name == [] then []
    else
      CamelTailShortens(name[1..]);
      [ToLower(name[0])] + CamelTail(name[1..])
  }

  /** No two whitespace characters side by side. */
  predicate NoDoubleSpace(s: string) {
    forall i :: 0 <= i < |s| - 1 ==> !(IsSpace(s[i]) && IsSpace(s[i + 1]))
  }

  /** Words separated by single whitespace characters: no space at either end, none doubled. */
  predicate SpacedWords(s: string) {
    s != [] && !IsSpace(s[0]) && !IsSpace(s[|s| - 1]) && NoDoubleSpace(s)
  }

  /** The tail replace removes every whitespace of a string that does not end in one and has none doubled. */
  lemma {:induction false} CamelTailHasNoSpace(s: string)
    requires s == [] || !IsSpace(s[|s| - 1])
    requires NoDoubleSpace(s)
    ensures forall i :: 0 <= i < |CamelTail(s)| ==> !IsSpace(CamelTail(s)[i])
  {
    if s != [] {
      if CamelJoinAt(s, 0) {
        assert !IsSpace(s[1]);
        if |s| > 2 {
          assert s[2..][|s[2..]| - 1] == s[|s| - 1];
          assert NoDoubleSpace(s[2..]) by {
            forall i | 0 <= i < |s[2..]| - 1 ensures !(IsSpace(s[2..][i]) && IsSpace(s[2..][i + 1])) {
              assert s[2..][i] == s[i + 2] && s[2..][i + 1] == s[i + 3];
            }
          }
        }
        CamelTailHasNoSpace(s[2..]);
      } else {
        assert |s| > 1 ==> !(IsSpace(s[1]) && IsSpace(s[0]));
        if |s| > 1 {
          assert s[1..][|s[1..]| - 1] == s[|s| - 1];
          assert NoDoubleSpace(s[1..]) by {
            forall i | 0 <= i < |s[1..]| - 1 ensures !(IsSpace(s[1..][i]) && IsSpace(s[1..][i + 1])) {
              assert s[1..][i] == s[i + 1] && s[1..][i + 1] == s[i + 2];
            }
          }
        }
        CamelTailHasNoSpace(s[1..]);
      }
    }
  }

  /** A label made of words separated by single spaces yields a key with no whitespace in it. */
  lemma CamelCaseKeyHasNoSpace(name: string)
    requires SpacedWords(name)
    ensures |CamelCaseKey(name)| > 0
    ensures forall i :: 0 <= i < |CamelCaseKey(name)| ==> !IsSpace(CamelCaseKey(name)[i])
  {
    var t := name[1..];
    if t != [] {
      assert t[|t| - 1] == name[|name| - 1];
    }
    assert NoDoubleSpace(t) by {
      forall i | 0 <= i < |t| - 1 ensures !(IsSpace(t[i]) && IsSpace(t[i + 1])) {
        assert t[i] == name[i + 1] && t[i + 1] == name[i + 2];
      }
    }
    CamelTailHasNoSpace(t);
    var k := CamelCaseKey(name);
    forall i | 0 <= i < |k| ensures !IsSpace(k[i]) {
      if i > 0 { assert k[i] == CamelTail(t)[i - 1]; }
    }
  }

  /** Without whitespace the tail replace changes nothing. */
  lemma {:induction false} CamelTailWithoutSpace(s: string)
    requires forall i :: 0 <= i < |s| ==> !IsSpace(s[i])
    ensures CamelTail(s) == s
  {
    if s != [] {
      CamelTailWithoutSpace(s[1..]);
    }
  }

  /** A single-word label only has its first letter lower-cased. */
  lemma CamelCaseKeySingleWord(name: string, key: string)
    requires |name| == |key| > 0
    requires forall i :: 0 <= i < |name| ==> !IsSpace(name[i])
    requires key[0] == ToLower(name[0])
    requires forall i :: 1 <= i < |name| ==> key[i] == name[i]
    ensures CamelCaseKey(name) == key
  {
    CamelTailWithoutSpace(name[1..]);
    assert key == [ToLower(name[0])] + name[1..];
  }

  /** Text without whitespace passes through the tail replace unchanged, whatever follows it. */
  lemma {:induction false} CamelTailAppend(a: string, b: string)
    requires forall i :: 0 <= i < |a| ==> !IsSpace(a[i])
    ensures CamelTail(a + b) == a + CamelTail(b)
  {
    if a != [] {
      assert (a + b)[0] == a[0] && !IsSpace(a[0]);
      assert !CamelJoinAt(a + b, 0);
      assert (a + b)[1..] == a[1..] + b;
      CamelTailAppend(a[1..], b);
      assert CamelTail(a + b) == [a[0]] + CamelTail(a[1..] + b);
      assert a == [a[0]] + a[1..];
    } else {
      assert a + b == b;
    }
  }

  /** Joining two space-free words with a space: the space goes and the second word is capitalised. */
  lemma CamelCaseKeyJoin(first: string, second: string)
    requires first != [] && second != []
    requires forall i :: 0 <= i < |first| ==> !IsSpace(first[i])
    requires forall i :: 0 <= i < |second| ==> !IsSpace(second[i])
    ensures CamelCaseKey(first + " " + second)
         == [ToLower(first[0])] + first[1..] + [ToUpper(second[0])] + second[1..]
  {
    var name := first + " " + second;
    assert name[0] == first[0];
    assert name[1..] == first[1..] + (" " + second);
    CamelTailAppend(first[1..], " " + second);
    CamelTailAfterSpace(second);
    calc {
      CamelCaseKey(name);
      [ToLower(first[0])] + CamelTail(first[1..] + (" " + second));
      [ToLower(first[0])] + (first[1..] + ([ToUpper(second[0])] + second[1..]));
    }
  }

  /** A space before a space-free word is removed and the word's first letter is upper-cased. */
  lemma CamelTailAfterSpace(word: string)
    requires word != []
    requires forall i :: 0 <= i < |word| ==> !IsSpace(word[i])
    ensures CamelTail(" " + word) == [ToUpper(word[0])] + word[1..]
  {
    var s := " " + word;
    LineTerminatorIsSpace(word[0]);
    assert s[1] == word[0] && CamelJoinAt(s, 0);
    assert s[2..] == word[1..];
    assert CamelTail(s) == [ToUpper(word[0])] + CamelTail(word[1..]);
    CamelTailWithoutSpace(word[1..]);
  }

  /**
   * Two words joined by one space at position `k`: the first letter is
   * lower-cased, the space is removed and the letter after it is upper-cased.
   */
  lemma CamelCaseKeyTwoWords(name: string, k: nat, key: string)
    requires 0 < k < |name| - 1 && |key| == |name| - 1
    requires name[k] == ' '
    requires forall i :: 0 <= i < |name| && i != k ==> !IsSpace(name[i])
    requires key[0] == ToLower(name[0])
    requires forall i :: 1 <= i < k ==> key[i] == name[i]
    requires key[k] == ToUpper(name[k + 1])
    requires forall i :: k < i < |key| ==> key[i] == name[i + 1]
    ensures CamelCaseKey(name) == key
  {
    var first, second := name[..k], name[k + 1..];
    assert name == first + " " + second;
    CamelCaseKeyJoin(first, second);
    var built := [ToLower(first[0])] + first[1..] + [ToUpper(second[0])] + second[1..];
    forall i | 0 <= i < |key| ensures built[i] == key[i] {
      if 0 < i < k {
        assert built[i] == first[i];
      } else if i > k {
        assert built[i] == second[i - k];
      }
    }
    assert built == key;
  }
}
