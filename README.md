# Name-to-email derivation of the LinkedIn email generator

This project models the part of the browser extension's popup script
(`popup.js`) that turns the person names scraped from a people-search page
into guessed email addresses: the `EMAIL_FORMATS` rule table and the
extractor `extractNamesAndGenerateEmails`.

For every scanned display string the extractor:

- trims it (`trim()`, then a `replace('', '')` that changes nothing);
- splits it on single spaces;
- drops it when there are fewer than two pieces;
- takes the lowered first and last pieces as first and last name, and the
  lowered interior pieces, joined with no separator, as middle name;
- looks the format key up in the table, silently dropping the string for an
  unknown key;
- emits `{fullName, email}` with `email = localPart + "@" + domain`, in scan
  order.

Modules, one per concern of the script:

- `Wrappers` (`wrappers.dfy`): `Option`.
- `JsString` (`js_string.dfy`): the JavaScript string built-ins the script
  uses — `trim` with the ECMAScript whitespace set, `split` on one
  character with empty pieces kept, `join('')`, `replace` with a string
  pattern and a `$`-free replacement (first occurrence only), `charAt(0)` (empty for an empty string),
  and ASCII `toLowerCase`. Each comes with lemmas that characterise it:
  trim keeps a slice with only whitespace removed, split and join undo each
  other, the empty pattern replace is the identity.
- `EmailFormats` (`email_formats.dfy`): the rule table. The script declares
  it twice (popup.js:2-9 and again inside the extractor at popup.js:60-67);
  the two declarations are identical, so there is one `Lookup`/`Generate`
  pair.
- `FilterMaps` (`filter_map.dfy`): the generic "keep the defined images, in
  order" shape of a `forEach` that pushes zero or one element, with its
  append, membership and length lemmas.
- `Extractor` (`extractor.dfy`): parsing, one record (`Derive`), the whole
  scan as a specification function (`Batch`), and the script's imperative
  loop (`ExtractNamesAndGenerateEmails`, calling the callback
  `VisitElement`), proved equal to `Batch`.
- `Scenarios` (`scenarios.dfy`): what names built from words become, and the
  sample inputs "Jane Quincy Ann Doe", "Jane  Doe", "Jane Doe", "John Q. Public", "X".

The page query `document.querySelectorAll(...)` and each element's
`textContent` are replaced by the input sequence `nameElements` of strings.

Facts about the code that the model follows:

- `popup.js:50-51` tests only the number of space-separated pieces, never
  whether they are alphabetic. So "John Q. Public" is accepted, with middle
  name "q." (`Scenarios.JohnQPublic`), and digits or punctuation pass as
  well (`Scenarios.ParseWords`).
- The table has exactly the six keys at `popup.js:61-66`: `fn.ln`, `filn`,
  `fn`, `fnln`, `fn_ln` and `fn.miln` (`EmailFormats.LookupKnownKeys`).
- The record's `fullName` is the trimmed text, not the raw text
  (`Extractor.Derive`).

## Model

| member | source | states |
|---|---|---|
| JsString.WhitespaceTable | popup.js:46 | the characters `trim()` removes are exactly the 25 code points of the ECMAScript WhiteSpace and LineTerminator tables, listed one by one |
| JsString.LeadingWhitespaceSpec | popup.js:46 | the leading count of trim covers exactly the longest all-whitespace prefix |
| JsString.TrailingWhitespaceSpec | popup.js:46 | the trailing count of trim covers exactly the longest all-whitespace suffix |
| JsString.TrimStartSpec | popup.js:46 | the leading half of trim drops exactly the leading whitespace and leaves a string not starting with whitespace |
| JsString.TrimEndSpec | popup.js:46 | the trailing half of trim drops exactly the trailing whitespace and leaves a string not ending with whitespace |
| JsString.TrimSpec | popup.js:46 | `trim()` (`JsString.Trim`) keeps a contiguous slice of the text, everything outside it is whitespace, and the slice neither starts nor ends with whitespace |
| JsString.TrimEnds | popup.js:46 | what trim leaves neither starts nor ends with whitespace |
| JsString.TrimNothingToRemove | popup.js:46 | a text with no whitespace at either end is its own trim |
| JsString.TrimIdempotent | popup.js:46 | trimming a trimmed text changes nothing |
| JsString.IndexOfFrom | popup.js:46 | the search behind `replace`: the first position where the pattern occurs, and None only when it occurs nowhere |
| JsString.ReplaceFirst | popup.js:46 | `replace` with a string pattern and a replacement without `$` puts the replacement in place of the first occurrence and nothing else, and leaves the text unchanged when the pattern occurs nowhere |
| JsString.ReplaceEmptyByEmpty | popup.js:46 | `replace('', '')` is the identity on every string |
| JsString.Split | popup.js:50 | `split(' ')` always yields at least one piece (`""` gives `[""]`) |
| JsString.SplitPiecesLackSeparator | popup.js:50 | no piece of `split(' ')` contains a space |
| JsString.JoinSplit | popup.js:50 | joining the pieces with the separator gives back the original text |
| JsString.SplitJoin | popup.js:50 | splitting space-free words joined by single spaces gives back the words |
| JsString.SplitAtFirst | popup.js:50 | the first piece is everything before the first separator; the rest are the pieces of what follows |
| JsString.SplitNoSeparator | popup.js:50 | a text without a space is one piece |
| JsString.SplitCount | popup.js:50 | there is one more piece than there are spaces, so empty pieces from doubled spaces are counted |
| JsString.CountPositive | popup.js:50-51 | the separator occurs in a text exactly when it is counted at least once, so there are two or more pieces exactly when the text holds a space |
| JsString.SplitFirstEmpty | popup.js:50 | the first piece is empty only when the text is empty or starts with a space |
| JsString.SplitLastEmpty | popup.js:50 | the last piece is empty only when the text is empty or ends with a space |
| JsString.Concat | popup.js:75 | `join('')` is empty exactly when every joined piece is |
| JsString.CharAt0 | popup.js:4 | `charAt(0)` is the first character, or the empty string for an empty string |
| JsString.LowerChar | popup.js:70 | lowering a character yields no upper-case ASCII letter and leaves non-upper-case characters alone |
| JsString.LowerCharTable | popup.js:70 | an upper-case ASCII letter becomes the letter at the same position of the lower-case alphabet |
| JsString.Lower | popup.js:70-75 | `toLowerCase` keeps the length |
| JsString.LowerIsLower | popup.js:70-75 | a lowered string is lower-case, and lowering a lower-case string changes nothing |
| JsString.LowerIdempotent | popup.js:70-75 | lowering twice is lowering once |
| JsString.LowerAppend | popup.js:75 | lowering distributes over concatenation |
| JsString.LowerConcat | popup.js:75 | lowering the joined interior pieces equals joining the lowered pieces |
| JsString.IsLowerAppend | popup.js:2-9 | concatenations of lower-case strings are lower-case |
| EmailFormats.KeyOf | popup.js:61-66 | every rule's key is one of `fn.ln`, `filn`, `fn`, `fnln`, `fn_ln`, `fn.miln` |
| EmailFormats.KeyOfInjective | popup.js:61-66 | no two rules share a key |
| EmailFormats.Lookup | popup.js:78 | a key found in the table is the key of the rule returned |
| EmailFormats.LookupKeyOf | popup.js:60-67 | every rule of the table is found under its own key |
| EmailFormats.LookupKnownKeys | popup.js:60-67 | a key is found exactly when it is one of `fn.ln`, `filn`, `fn`, `fnln`, `fn_ln`, `fn.miln` |
| EmailFormats.GenerateAffixes | popup.js:61-66 | every rule but `filn` starts with the whole first name and `filn` with its initial; every rule but `fn` ends with the whole last name |
| EmailFormats.GenerateExamples | popup.js:61-66 | the rules on jane/doe: jane.doe, jdoe, jane, janedoe, jane_doe; `fn.miln` gives jane.qdoe with middle quincy and jane.doe with no middle |
| EmailFormats.GenerateIgnoresMiddle | popup.js:61-65 | every rule except `fn.miln` ignores the middle name |
| EmailFormats.MiddleInitialOnly | popup.js:66 | `fn.miln` depends on the middle name only through its first character |
| EmailFormats.MiddleInitialFallsBack | popup.js:66 | with an empty (falsy) middle name `fn.miln` gives the same as `fn.ln` |
| EmailFormats.MiddleInitialShape | popup.js:66 | with a middle name, `fn.miln` is first name, a dot, one middle character, last name |
| EmailFormats.FirstInitialShape | popup.js:62 | `filn` of a non-empty first name is its initial followed by the last name |
| EmailFormats.GeneratePreservesLower | popup.js:60-67 | every rule maps lower-case names to a lower-case local part |
| FilterMaps.FilterMapAppend | popup.js:45-86 | a `forEach` that pushes zero or one element per input maps a concatenation to the concatenation of the outputs |
| FilterMaps.FilterMapMembers | popup.js:45-86 | an element is in its output exactly when some input maps to it |
| FilterMaps.FilterMapKeepsAll | popup.js:45-86 | its output is as long as its input exactly when every input maps to something |
| FilterMaps.FilterMapNone | popup.js:45-86 | its output is empty when no input maps to anything |
| FilterMaps.FilterMap | popup.js:41-88 | its output is never longer than its input |
| FilterMaps.AsSeq | popup.js:79-85 | zero or one pushed element, matching the option |
| Extractor.FullName | popup.js:46 | the full name is the trimmed text; the `replace('', '')` changes nothing |
| Extractor.AcceptedIffSpace | popup.js:46-53 | a scanned string passes the piece-count test exactly when its trimmed text contains a space |
| Extractor.Parse | popup.js:50-53 | a name is rejected exactly when it splits into fewer than two pieces |
| Extractor.ParseFields | popup.js:69-76 | both branches give first = lowered first piece, last = lowered last piece, middle = lowered join of the interior pieces (empty for two pieces) |
| Extractor.ParseBranches | popup.js:69-76 | the values the two assigning branches leave in `firstName`, `middleName`, `lastName` are the parsed name |
| Extractor.ParseMiddleEmpty | popup.js:72-75 | the middle name is empty exactly when every interior piece is empty |
| Extractor.ParseIsLower | popup.js:70-75 | first, middle and last name are lower-case |
| Extractor.ParseMiddleOfLoweredPieces | popup.js:75 | the middle name is the join of the lowered interior pieces |
| Extractor.TrimmedOuterNames | popup.js:50-76 | a text with no whitespace at either end and two or more pieces has a non-empty first and last name |
| Extractor.AcceptedHasFirstAndLast | popup.js:46-76 | an accepted name has a non-empty first and last name, because the text was trimmed |
| Extractor.Derive | popup.js:45-85 | a string yields a record exactly when it has two or more pieces and the key is in the table; the record's full name is the trimmed text |
| Extractor.DeriveSome | popup.js:78-84 | with a parsed name and a known key the record is the trimmed text with the rule's local part, `@` and the domain |
| Extractor.DeriveNone | popup.js:51-53 | a rejected name or an unknown key gives no record |
| Extractor.DeriveEmail | popup.js:78-84 | the address is the selected rule's local part, `@`, the domain; the local part is non-empty and lower-case |
| Extractor.Batch | popup.js:41-88 | the scan never yields more records than strings |
| Extractor.BatchAppend | popup.js:45-88 | the records of two consecutive runs of strings are those of the first followed by those of the second (scan order kept) |
| Extractor.BatchSingle | popup.js:45-86 | scanning one string yields that string's record, if any |
| Extractor.BatchStep | popup.js:45-86 | scanning one more string appends that string's record, if any |
| Extractor.BatchMembers | popup.js:45-88 | a record is in the output exactly when some scanned string derives it |
| Extractor.BatchRecords | popup.js:80-84 | every output record has a trimmed scanned string as full name and the selected rule's address for it, and the key is in the table |
| Extractor.BatchUnknownKey | popup.js:78-79 | an unknown key gives an empty output and no failure |
| Extractor.BatchKeepsAll | popup.js:45-88 | no string is dropped exactly when the key is known and every string has two or more pieces |
| Extractor.VisitElement | popup.js:45-86 | the `forEach` callback appends the element's record, if any, to `persons` |
| Extractor.ExtractNamesAndGenerateEmails | popup.js:40-89 | the loop returns exactly the `Batch` of the scanned strings |
| Scenarios.ParseWords | popup.js:50-76 | any space-free words joined by single spaces (no alphabetic check) parse into first word, interior words run together, last word, lowered |
| Scenarios.ParseTwoWords | popup.js:69-71 | two words give first and last name and an empty middle name |
| Scenarios.DoubledSpaceTokens | popup.js:50 | a doubled space gives three pieces with an empty interior piece |
| Scenarios.ParseDoubledSpace | popup.js:72-75 | with a doubled space the middle name is empty although there are three pieces |
| Scenarios.ParseOneWord | popup.js:50-53 | a single word is rejected |
| Scenarios.FourPieceName | popup.js:72-75 | "Jane Quincy Ann Doe" parses to jane / quincyann / doe |
| Scenarios.FourPieceLowered | popup.js:75 | the lowered pieces of the four-piece sample |
| Scenarios.DeriveTwoWords | popup.js:45-85 | a trimmed two-word name under any key of the table gives itself as full name and the rule on the lowered words, with empty middle, as address |
| Scenarios.JohnQPublic | popup.js:48-53 | "John Q. Public" is accepted with middle name "q." |
| Scenarios.UnderscoreRecord | popup.js:65 | under `fn_ln` a parsed name gives the trimmed text as full name and first, `_`, last, `@`, domain as address |
| Scenarios.JaneDoe | popup.js:45-85 | "Jane Doe" under `fn_ln` at acme.com gives the record ("Jane Doe", "jane_doe@acme.com") |
| Scenarios.JohnQPublicRecord | popup.js:45-85 | "John Q. Public" under `fn_ln` at acme.com gives the record ("John Q. Public", "john_public@acme.com") |
| Scenarios.JohnQPublicLowered | popup.js:70-75 | the lowered pieces of that sample |
| Scenarios.SingleWordX | popup.js:50-53 | "X" yields no record under any key |

## Left out

- The click handler's domain handling and the `alert` on an empty domain
  (popup.js:11-18): user-interface glue. The model takes `domain` as given
  and does not require it to be normalised, since the extractor does not.
- `chrome.tabs.query`, `chrome.scripting.executeScript` and the URL check
  (popup.js:20-37): browser-extension I/O and callbacks.
- `document.querySelectorAll` and `textContent` (popup.js:43, 46): DOM
  access, replaced by the input sequence of strings.
- `displayEmails` (popup.js:91-108): DOM rendering and status text.
- JsString.ReplaceFirst: the replacement must not contain `$`. JavaScript
  expands `$$`, `$&`, `` $` `` and `$'` in it, which the model does not;
  the script's one call passes the empty string.
- JsString.Lower: only ASCII `A`-`Z` are lowered. JavaScript's
  `toLowerCase` also maps other letters, with Unicode and sometimes
  length-changing rules.
- JsString.CharAt0: strings are sequences of Unicode scalar values. For a
  name starting with a character outside the Basic Multilingual Plane,
  JavaScript's `charAt(0)` returns half a UTF-16 surrogate pair, while the
  model returns the whole character.
- EmailFormats.Lookup: the model looks a key up only among the six entries
  of the table. `EMAIL_FORMATS[formatKey]` is a JavaScript property access,
  so keys that name inherited `Object.prototype` members (for example
  `"toString"` or `"constructor"`) are also truthy, and calling them yields
  odd strings or throws. The key comes from the popup's own select control,
  which is not part of this model.
- The deduplicating, capped, persisted email buffer, the settings store,
  OAuth and the spreadsheet append. None of them occurs in `popup.js`, so
  there is no code to follow for them.
