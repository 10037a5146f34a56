# Dictionary response parser — a Dafny model

The dictionary front end (`script.js`) asks a generative-language backend for
a dictionary entry. It gets back free text with bolded headers such as
`**Definitions:**` and `**Turkish Meaning:**`. `parseGeminiResponse` turns that
text into a record of seven fields:

- it starts from a record where every field is `"N/A"`;
- for each of seven fixed labels it matches
  `\*\*Label:\*\*\s*([\s\S]*?)(?=\n\*\*|$)` (flags `is`) against the whole text;
- when the capture is non-empty, it stores the trimmed capture under the
  label's camel-cased key.

Two pure string helpers of the result view are modelled beside it:

- `formatText` deletes asterisks and inserts `<br>` before `" - "` and before
  every digit followed by a full stop;
- the image check shows a picture only when its URL is non-empty and does not
  carry the stock picture's identifier.

The modules:

- `Chars`: the ECMAScript whitespace set shared by `\s` and `trim`; line
  terminators; ASCII case mapping.
- `Strings`: `trimStart`, `trimEnd` and `trim`, defined by counting leading and
  trailing whitespace.
- `HeaderRegex`: the regular expression as an explicit scan, with three steps:
  - find the leftmost case-insensitive header;
  - skip whitespace;
  - cut at the first `"\n**"` or the end.
  
  Once a header matches, the lookahead alternative `$` guarantees the rest of
  the pattern succeeds, so no backtracking is necessary. `FieldValue` is what
  one pass of the loop stores for one label.
- `SectionRecovery`: what a field holds in terms of the text around its
  header. It covers:
  - a section is recovered from its text;
  - the first header wins;
  - blank sections;
  - the label's case is irrelevant.
- `CamelCase`: the key derivation
  `key.charAt(0).toLowerCase() + key.slice(1).replace(/\s(.)/g, …)`.
- `SectionLabels`: the seven sections, their labels, their keys and the order
  in which the loop visits them.
- `ResponseParser`: the record construction, as a method whose loop updates a
  `map<string, string>`. Each step is proved against `FieldValue`.
- `Display`: `formatText` with its inverse steps, and the image predicate.

As written in `script.js`:

- The translation header is the fixed label `Turkish Meaning`, stored under
  `turkishMeaning`. No `languageMeaning` key exists, and no translation label
  is a parameter.
- There is no fallback that takes the text before the first header as the
  pronunciation.
- A missing section keeps `"N/A"`; it is never an absent key.
- A section ends at the first newline followed by `**`, whatever follows
  those asterisks. It does not end only at the next recognised header.

## Model

| member | source | states |
|---|---|---|
| ResponseParser.ParseResponse | script.js:57-87 | The record has exactly the seven default keys. Each section's key holds `FieldValue` of its label. Every value is `"N/A"` or a trimmed non-empty text without `"\n**"`. |
| ResponseParser.DefaultSections | script.js:58-66 | The initial record maps each of the seven section keys to `"N/A"` and holds no other key. |
| ResponseParser.StoreSection | script.js:74-83 | One loop pass. The new record is the old one with only the label's key set to the label's field value. This relies on the derived key always being a record key. |
| ResponseParser.FilledAtStart | script.js:58-73 | Before the loop, the default record satisfies the loop invariant with no section visited. |
| ResponseParser.FilledOneMore | script.js:73-84 | In the invariant, the next section's key is still `"N/A"`. Storing that section's value extends the invariant by one position without disturbing the other sections. |
| ResponseParser.FilledAll | script.js:84-86 | After all seven passes, every section's key holds its value and every value of the record is well formed. |
| HeaderRegex.LabelAt | script.js:74 | The label text matches at a position, each character compared under the `i` flag. |
| HeaderRegex.HeaderAt | script.js:74 | `**Label:**` matches at a position: asterisks and colon literally, the label under the `i` flag. |
| HeaderRegex.HeaderChars | script.js:74 | `**Label:**` has the label's length plus five, and its characters are two asterisks, the label, a colon and two asterisks. |
| HeaderRegex.HeaderAtFolds | script.js:74 | A header match agrees with `**Label:**` at every position after upper-casing. |
| HeaderRegex.FoldsHeaderAt | script.js:74 | Agreement with `**Label:**` at every position after upper-casing is a header match. |
| HeaderRegex.HeaderAtIsCaseFold | script.js:74 | A header matches at a position exactly when the text there equals `**Label:**` once both are upper-cased. |
| HeaderRegex.FindHeader | script.js:74-75 | Returns the leftmost header position at or after `from`, with no header before it. Returns `None` exactly when no header occurs from `from` on. |
| HeaderRegex.SectionLength | script.js:74 | The lazy capture stops at the first `"\n**"` or at the end. There is no terminator before that point. |
| HeaderRegex.SectionText | script.js:74 | The captured part has no `"\n**"` and is followed by a terminator or by the end. |
| HeaderRegex.Capture | script.js:74-75 | `match[1]` is absent only when the header does not occur. A present capture has no `"\n**"` and starts with a non-space. |
| HeaderRegex.CaptureFrom | script.js:74 | After the greedy `\s*`, the capture starts with a non-space and contains no terminator. |
| HeaderRegex.TrimmedCapture | script.js:77-81 | A non-empty capture stays non-empty after `trim`, with non-space ends and no terminator. |
| HeaderRegex.CaptureValue | script.js:77-81 | A missing capture gives `"N/A"`. Whatever is stored is `"N/A"` or trimmed and non-empty, and has no `"\n**"`. |
| HeaderRegex.StoredCapture | script.js:77-81 | A non-empty capture is stored as its trim. |
| HeaderRegex.FieldValue | script.js:74-83 | A label whose header is absent keeps `"N/A"`. Any value is `"N/A"` or trimmed and non-empty, and has no `"\n**"`. |
| SectionRecovery.CaptureAfterLeftmost | script.js:74-75 | The capture is taken right after the leftmost header. |
| SectionRecovery.CaptureIffHeader | script.js:75-77 | `match` fails exactly when the header occurs nowhere in the text. |
| SectionRecovery.FindLeftmost | script.js:74-75 | A header with no header before it is the one the search returns (no `g` flag). |
| SectionRecovery.SectionTextStopsAt | script.js:74 | A part without `"\n**"`, followed by a terminator or the end, is captured whole. |
| SectionRecovery.CaptureUpTo | script.js:74 | The capture is the text between the header and the next terminator, with its leading whitespace skipped. |
| SectionRecovery.ValueBetween | script.js:74-81 | The stored value is the trimmed text between the leftmost header and the next `"\n**"` or the end, when that text is not blank. |
| SectionRecovery.HeaderWritten | script.js:74 | `**Label:**` written into a text is a header match at that position. |
| SectionRecovery.SectionRecovered | script.js:73-81 | For any text made of a prefix without the header, the header, a body, and then the end or a line starting with `**` followed by anything: the field is the trimmed body. The value depends only on the field's own section. |
| SectionRecovery.FirstHeaderWins | script.js:74-75 | A repeated header ends the first section, and the first section's body is what is stored. |
| SectionRecovery.BlankSectionNotAvailable | script.js:74-77 | A header followed only by whitespace up to the end of the text leaves its field at `"N/A"`. |
| SectionRecovery.BlankSectionTakesNext | script.js:74-81 | A header followed only by whitespace (newlines included), then a text without `"\n**"`, then the end or a line starting with `**`, captures that text trimmed, not `"N/A"`. |
| SectionRecovery.HeaderAtIgnoresCase | script.js:74 | Labels equal up to ASCII case have headers of the same length at the same positions. |
| SectionRecovery.FindHeaderIgnoresCase | script.js:74-75 | Labels equal up to ASCII case have their searches stop at the same position. |
| SectionRecovery.SameSearchSameCapture | script.js:74-75 | The capture depends on the label only through where its header is and how long it is. |
| SectionRecovery.SameCaptureSameValue | script.js:77-81 | The stored value depends on the label only through its capture. |
| SectionRecovery.SameSearchSameValue | script.js:74-81 | Two labels whose searches agree and whose headers have equal length store the same value. |
| SectionRecovery.LabelCaseIrrelevant | script.js:74-81 | With the `i` flag, the stored value does not depend on the ASCII case of the label. |
| Strings.LeadingSpaces | script.js:74 | The count of leading characters that `\s*` consumes: all of them are whitespace, and the next is not. |
| Strings.TrailingSpaces | script.js:81 | The count of trailing whitespace that `trim` removes: all of it is whitespace, and the character before it is not. |
| Strings.LeadingSpacesAre | script.js:74 | A whitespace run that stops at a non-space or at the end is exactly the leading whitespace. |
| Strings.TrimStart | script.js:74 | `\s*` leaves a text that is empty or starts with a non-space. |
| Strings.TrimEnd | script.js:81 | The result is a prefix of the text that is empty or ends with a non-space, and only whitespace follows it in the text. |
| Strings.Trim | script.js:81 | `trim` is empty exactly for an all-whitespace text. Otherwise both of its ends are non-spaces. |
| Strings.TrimStartEmpty | script.js:74-77 | Skipping whitespace empties exactly the all-whitespace texts. |
| Strings.TrimStartIdempotent | script.js:74 | Skipping leading whitespace twice is skipping it once. |
| Strings.TrimAfterTrimStart | script.js:74-81 | Trimming a capture whose leading whitespace was already skipped equals trimming the text itself. |
| Strings.TrimStartAppend | script.js:74 | Text appended after a part with a non-space does not move the end of the leading whitespace. |
| Strings.TrimStartSkipsBlank | script.js:74 | Leading whitespace before a non-space start is skipped entirely. |
| Strings.TrimKeepsCore | script.js:81 | `trim` removes whitespace only at the two ends and keeps the middle as it is. |
| Strings.UpperCase | script.js:74 | The case fold of a label keeps its length and upper-cases each character. |
| Strings.UpperCaseEqual | script.js:74 | Two texts fold to the same text exactly when they agree character by character after folding. |
| Chars.IsSpace | script.js:74 | The `\s` and `trim` set holds space, tab, LF and CR, and no letter, digit, `*` or `:`. |
| Chars.SameIgnoringCase | script.js:74 | Under the `i` flag, a character matches a second one exactly when the second is that character's upper-case or lower-case form. |
| Chars.ToUpper | script.js:78 | Upper-cases ASCII lower-case letters and leaves every other character unchanged. |
| Chars.ToLower | script.js:78 | Lower-cases ASCII upper-case letters and leaves every other character unchanged. |
| Chars.LineTerminatorIsSpace | script.js:74 | Every line terminator is matched by `\s`. |
| CamelCase.CamelTail | script.js:78 | `key.slice(1).replace(/\s(.)/g, …)`: each whitespace followed by a non-line-terminator is replaced by that character upper-cased, scanning left to right. |
| CamelCase.CamelTailShortens | script.js:78 | Each replacement shortens the text, and a text left at the same length is unchanged. |
| CamelCase.CamelCaseKey | script.js:78 | The key is empty only for an empty label, and never longer than the label. |
| CamelCase.CamelTailHasNoSpace | script.js:78 | The tail replace removes every whitespace from a text that has no doubled whitespace and does not end in whitespace. |
| CamelCase.CamelCaseKeyHasNoSpace | script.js:78 | A label of single-space-separated words yields a non-empty key with no whitespace. |
| CamelCase.CamelTailWithoutSpace | script.js:78 | A text without whitespace passes the tail replace unchanged. |
| CamelCase.CamelCaseKeySingleWord | script.js:78 | A one-word label only has its first letter lower-cased. |
| CamelCase.CamelTailAppend | script.js:78 | A whitespace-free prefix passes the tail replace unchanged, whatever follows it. |
| CamelCase.CamelTailAfterSpace | script.js:78 | A space before a word is removed and the word's first letter upper-cased. |
| CamelCase.CamelCaseKeyJoin | script.js:78 | Two words joined by a space give the lower-cased first letter, the rest of the first word, and the capitalised second word. |
| CamelCase.CamelCaseKeyTwoWords | script.js:78 | The same, stated character by character for a space at position `k`. |
| SectionLabels.OneWordLabelToKey | script.js:68-80 | `Pronunciation` and the other one-word labels derive their lower-cased default keys. |
| SectionLabels.TwoWordLabelToKey | script.js:68-80 | `Example Sentences` derives `exampleSentences`, and `Turkish Meaning` derives `turkishMeaning`. |
| SectionLabels.LabelToKey | script.js:58-80 | Every label derives exactly its section's default key, so the `hasOwnProperty` test always passes. |
| SectionLabels.KeyInjective | script.js:58-66 | Different sections have different keys. |
| SectionLabels.Position | script.js:68-73 | Every section is visited by the loop, at its position in the label array. |
| SectionLabels.PositionOfVisited | script.js:73 | The `i`-th label visited has position `i`. |
| Display.DeleteStars | script.js:102 | The result contains no `*` and is no longer than the input. |
| Display.DeleteStarsKeeps | script.js:102 | A character of the input is in the result exactly when it is not `*`, and the length drops by the number of `*`. |
| Display.DeleteStarsCounts | script.js:102 | The result holds every character other than `*` exactly as often as the input does, and no `*`. |
| Display.DeleteStarsAppend | script.js:102 | Deleting asterisks from a concatenation concatenates the two results, so the kept characters stay in their order. |
| Display.DeleteStarsSubset | script.js:102 | Deleting asterisks introduces no new character. |
| Display.MarkDashesAddsNoStar | script.js:102 | Rewriting `" - "` adds no asterisk. |
| Display.MarkNumbersAddsNoStar | script.js:102 | Inserting breaks before numbers adds no asterisk. |
| Display.FormatText | script.js:102 | `formatText` is the three replacements in their order, and its output contains no `*`. |
| Display.MarkDashes | script.js:102 | The `" - "` rewrite only lengthens the text, and a text it leaves at the same length is unchanged. |
| Display.MarkDashesAtDash | script.js:102 | A `" - "` at the front becomes `"<br>- "`, and the rest is rewritten the same way. |
| Display.MarkNumbers | script.js:102 | The number marking only lengthens the text, and a text it leaves at the same length is unchanged. |
| Display.MarkNumbersAtNumber | script.js:102 | A digit followed by `.` at the front gets `"<br>"` before it, and the rest is marked the same way. |
| Display.DeleteStarsWithoutStars | script.js:102 | A text without `*` passes the first replacement unchanged. |
| Display.MarkDashesWithoutDashes | script.js:102 | A text without `" - "` passes the second replacement unchanged. |
| Display.MarkNumbersWithoutNumbers | script.js:102 | A text without a digit followed by `.` passes the third replacement unchanged. |
| Display.FormatTextUnchanged | script.js:102 | A text with no `*`, no `" - "` and no digit followed by `.` is returned unchanged. |
| Display.UnmarkMarkDashes | script.js:102 | Without `<` in the text, the `"<br>- "` rewrite can be undone exactly. |
| Display.MarkNumbersStart | script.js:102 | The number-marked text never starts with a digit followed by `.`. |
| Display.MarkNumbersCopied | script.js:102 | A first output character other than `<` is the input's first character, and the rest is the marking of the rest. |
| Display.MarkNumbersNoFalseBreak | script.js:102 | The number-marked text never starts with `br>` followed by a digit and `.`. |
| Display.UnmarkMarkNumbers | script.js:102 | Every inserted `<br>` before a number can be removed again, for every text. |
| Display.FormatTextRoundTrip | script.js:102 | For a text without `<`, undoing both insertions gives the text with its asterisks deleted, so nothing else is lost. |
| Display.Contains | script.js:92 | `includes`: the empty text is contained in every text, and nothing longer than the text is. |
| Display.ShowsImage | script.js:92 | The picture is shown exactly when the URL is present and non-empty, and the identifier occurs at no position of it. |
| Display.ContainsIsOccurrence | script.js:92 | `includes` holds exactly when the identifier occurs at some position. |
| Display.StockImageHidden | script.js:92 | A URL that carries `1528459801416` anywhere is never shown. |
| Display.FallbackImageHidden | netlify/functions/fetchData.js:47 | The backend's fallback picture URL is hidden by the image check. |
| Display.OtherImageShown | script.js:92 | Every non-empty URL without the identifier is shown. |
| Display.MissingImageHidden | script.js:92 | A missing or empty URL is not shown. |

## Left out

- `netlify/functions/fetchData.js` is not part of this model, except the fallback picture URL it returns. Its model calls, its HTTP fetch, its environment keys and its status codes are I/O.
- The DOM lookups, the `submit` listener, `fetch`, JSON decoding, the DOM assignments of `displayResults`, speech synthesis and `showError` are left out. They are user-interface side effects.
- The `data.x || "N/A"` fallbacks at the display site are left out. The parser never produces an empty field, so they cannot fire on its output.
- A `null` or `undefined` response, on which `text.match` throws, is left out: `text` is a `string`.
- JavaScript strings are UTF-16 code units; the model's strings are sequences of Dafny characters (Unicode scalar values). Unpaired surrogates cannot be represented.
- The regular expression is not modelled in general. Only this one pattern is modelled, as the scan in `HeaderRegex`.
- Chars.ToUpper: only ASCII letters are mapped. `toUpperCase` at `script.js:78` also maps non-ASCII letters, so the key derivation is exact only for ASCII labels (all seven are ASCII). Under the `i` flag without `u`, a header in the text matches an ASCII label exactly under this folding.
- Chars.ToLower: only ASCII letters are mapped. `toLowerCase` also maps non-ASCII letters; the seven labels are ASCII.
- Display.UnmarkMarkDashes: stated only for texts without `<`. A `<br>- ` already present in the text cannot be told apart from an inserted one.
- Display.FormatTextRoundTrip: stated only for texts without `<`, for the same reason.
