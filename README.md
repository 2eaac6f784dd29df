# Import-path remapping preprocessor

The Hardhat configuration of this repository rewrites Solidity import paths
before compilation. It uses the `remappings.txt` entries of a Foundry project.
This project models that preprocessor in Dafny and proves what it does. It has
two parts:

- **getRemappings** parses the text of `remappings.txt`. The text is split on
  `"\n"`, empty segments are dropped (`filter(Boolean)`), and each remaining
  segment is trimmed and split on `"="`. Destructuring `[from, to]` keeps the
  first two pieces, and `to` is undefined when the line has no `"="`. The
  result is an ordered list of `Remapping(from, to)` values, with `to` an
  `Option`.
- **transform** rewrites one source line. Only a line matching
  `/".*.sol";$/` is considered. The entries are scanned in order, and the first
  one whose `from` occurs in the line is applied with `String.prototype.replace`
  (first occurrence only). The loop then stops. Any other line is returned
  unchanged.

The modules are:

- `JsString` (js_string.dfy): the ECMAScript string operations the code relies
  on. These are `split` on one character with its inverse `join`, `trim` over
  the ECMAScript white-space and line-terminator set, `indexOf`/`includes`, and
  `replace` with a string pattern. `replace` includes the `$$`, `$&`,
  `` $` `` and `$'` patterns of the replacement string, as GetSubstitution
  defines them.
- `Remappings` (remappings.dfy): the parser.
- `Preprocess` (preprocess.dfy): the regular-expression guard, written as the
  predicate `IsImportLine`. Then the specification functions `FirstMatch`,
  `RewriteFirstMatch` and `RemapLine`, and the loop as the method
  `ApplyFirstMatch`. `Transform` is proved equal to `RemapLine`.

Two consequences of the code as written are proved rather than assumed:

- The `.` before `sol` in the pattern is not escaped, and `$` means the end of
  the line. So `"xsol";` passes the guard, and a line whose last character is
  not `;` (such as one ending in `sol";` and a trailing `"\r"`) does not.
- `filter(Boolean)` runs before `trim`. So a line of white space only, such as
  the lone `"\r"` of a blank line in a CRLF file, yields the entry
  `("", undefined)`. The empty `from` occurs in every line, and `replace` with
  an undefined replacement inserts the text `"undefined"`. If that entry comes
  first, every import line is prefixed with `undefined`.

## Model

| member | source | states |
|---|---|---|
| `JsString.Split` | hardhat.config.ts:13 | `split("\n")` and `split("=")` always give at least one segment, and no segment contains the separator |
| `JsString.JoinSplit` | hardhat.config.ts:13 | joining the segments with the separator gives back the original text (nothing is lost or reordered by the split) |
| `JsString.SplitJoin` | hardhat.config.ts:13 | separator-free segments joined and split again are the same segments |
| `JsString.SplitAppend` | hardhat.config.ts:13 | splitting `a + sep + b` gives the segments of `a` followed by those of `b` |
| `JsString.SplitFirst` | hardhat.config.ts:15 | the first segment is a prefix of the text, and there is a second segment exactly when the separator occurs |
| `JsString.SplitNoSeparator` | hardhat.config.ts:15 | a text without the separator is one segment |
| `JsString.LeadingWhiteSpace` | hardhat.config.ts:15 | `trim()` removes a leading run of white space: every character of the counted run is white space, and the next character, if any, is not |
| `JsString.TrimStart` | hardhat.config.ts:15 | the result is a suffix of the input that is empty or starts with a non-white-space character, and only white space was removed |
| `JsString.TrimEnd` | hardhat.config.ts:15 | the result is a prefix of the input that is empty or ends with a non-white-space character, and only white space was removed |
| `JsString.Trim` | hardhat.config.ts:15 | `trim()` gives a text that is empty or starts and ends with a non-white-space character, and is no longer than the input |
| `JsString.TrimExact` | hardhat.config.ts:15 | white space, then a text with non-white-space ends, then white space, trims to exactly that text |
| `JsString.IndexOf` | hardhat.config.ts:34-35 | the index found is an occurrence of the pattern with no earlier occurrence, and None means the pattern occurs nowhere |
| `JsString.IndexOfFirst` | hardhat.config.ts:35 | `indexOf` returns exactly the first index where the pattern occurs |
| `JsString.Includes` | hardhat.config.ts:34 | `includes(from)` is true exactly when `from` occurs at some index of the line |
| `JsString.Substitution` | hardhat.config.ts:35 | GetSubstitution of the replacement string: `$$`, `$&`, `` $` `` and `$'` are expanded and every other character is kept; the result holds only characters of the template, the text before the match, the match and the text after it |
| `JsString.SubstitutionPattern` | hardhat.config.ts:35 | `$$` gives `$`, `$&` the matched text, `` $` `` the text before the match and `$'` the text after it, whatever template follows |
| `JsString.SubstitutionOther` | hardhat.config.ts:35 | a character that does not begin `$$`, `$&`, `` $` `` or `$'` (a literal character, or a `$` before `1`, `<` or the end) stands for itself, whatever template follows; with `SubstitutionPattern` and the empty template this fixes the result for every template |
| `JsString.SubstitutionLiteral` | hardhat.config.ts:35 | a replacement without `$` is inserted verbatim |
| `JsString.ReplaceFirst` | hardhat.config.ts:35 | `replace(from, to)` returns the string itself when `from` does not occur, and otherwise keeps the text before and the text after the first occurrence around the expanded replacement |
| `JsString.ReplaceFirstMatchedPattern` | hardhat.config.ts:35 | a replacement using `$&` is not inserted literally: replacing `x` in `x.sol` with `[$&]` gives `[x].sol` |
| `JsString.ReplaceFirstEmptyPattern` | hardhat.config.ts:35 | the empty pattern occurs at index 0, so `replace("", text)` with a `$`-free text puts that text in front of the whole string |
| `JsString.ReplaceFirstAbsent` | hardhat.config.ts:35 | `replace` with a pattern that does not occur returns the string unchanged |
| `JsString.ReplaceFirstAt` | hardhat.config.ts:35 | `replace` keeps the text before the first occurrence, puts the expanded replacement in its place, and keeps the rest, later occurrences included |
| `JsString.ReplaceFirstLiteral` | hardhat.config.ts:35 | with a `$`-free replacement the result is prefix + replacement + rest, and its length is \|s\| - \|pattern\| + \|replacement\| |
| `Remappings.DropEmpty` | hardhat.config.ts:14 | `filter(Boolean)` keeps a segment exactly when it is non-empty, and never adds one; order and multiplicity are fixed by `DropEmptyAppend` |
| `Remappings.DropEmptyAppend` | hardhat.config.ts:14 | `filter(Boolean)` of `a + b` is that of `a` followed by that of `b`, so kept segments keep their order and multiplicity |
| `Remappings.EntriesOf` | hardhat.config.ts:15 | the map step yields exactly one entry per kept segment, and entry k is the destructured `split("=")` of trimmed segment k |
| `Remappings.ParseEntry` | hardhat.config.ts:15 | `line.split("=")` destructured as `[from, to]`: `from` is a prefix of the line without `=`, and `to` is undefined exactly when the line has no `=` |
| `Remappings.ParseRemappings` | hardhat.config.ts:10-16 | getRemappings on the file text: split on `"\n"`, drop empty segments, trim and destructure each; at most one entry per segment, and no `from` contains `=` |
| `Remappings.EntriesOfAppend` | hardhat.config.ts:15 | mapping two blocks of lines gives the entries of the first block followed by those of the second |
| `Remappings.ParseEntryShape` | hardhat.config.ts:15 | `from` is the line up to its first `=` (the whole line when there is none); `to` is present exactly when the line has an `=`, and is the text up to the next `=` or the end |
| `Remappings.ParseEntryWithoutEquals` | hardhat.config.ts:15 | a line without `=` gives `(line, undefined)` |
| `Remappings.ParseEntryWithEquals` | hardhat.config.ts:15 | `from=to`, optionally followed by `=` and anything, gives `(from, to)`, so pieces after the second are ignored |
| `Remappings.ParseAppend` | hardhat.config.ts:10-16 | the entries of `a + "\n" + b` are those of `a` followed by those of `b`, so the entries keep file order |
| `Remappings.ParseSingleLine` | hardhat.config.ts:13-15 | an empty line yields no entry, and a non-empty line yields exactly the entry of its trimmed text |
| `Remappings.ParseBlankLine` | hardhat.config.ts:14-15 | a line of white space only is not dropped, and yields the entry `("", undefined)` |
| `Remappings.ParseFromToLine` | hardhat.config.ts:10-16 | a file of the one line `from=to`, with no `=` or `"\n"` in `from` or `to`, no white space at the start of `from` and none at the end of `to`, yields exactly `[(from, to)]` (outer white space would be trimmed away) |
| `Preprocess.IsImportLine` | hardhat.config.ts:32 | the guard `/".*.sol";$/`: a passing line is at least 7 characters long, ends with `;` and has a `"` before its last six characters |
| `Preprocess.ReplacementText` | hardhat.config.ts:35 | the text put in place of `from` is `to`, or for an undefined `to` the nine-character, `$`-free text `undefined` |
| `Preprocess.RewriteFirstMatch` | hardhat.config.ts:33-38 | the rewrite of the loop: unchanged when no entry matches, and a changed line implies some entry's `from` occurs in it |
| `Preprocess.RemapLine` | hardhat.config.ts:31-41 | what `transform` returns: a changed line is always an import line with a matching entry |
| `Preprocess.FirstMatch` | hardhat.config.ts:33-34 | the index returned is the earliest entry whose `from` occurs in the line, and None means no entry's `from` occurs |
| `Preprocess.ApplyFirstMatch` | hardhat.config.ts:33-38 | the loop that stops at the first entry whose `from` is included returns the first-match rewrite |
| `Preprocess.Transform` | hardhat.config.ts:31-41 | `transform` applied to a line, with the remappings file text as a parameter, equals `RemapLine` of the parsed entries |
| `Preprocess.ImportLineOf` | hardhat.config.ts:32 | any line with a `"`, then at least one character that is not a line terminator, then a final `sol";` passes the guard, whatever precedes the quote |
| `Preprocess.ImportLineShape` | hardhat.config.ts:32 | a line passing the guard has that shape: a quote, at least one line-terminator-free character, then `sol";` at the end |
| `Preprocess.TrailingTextFailsGuard` | hardhat.config.ts:32 | a line whose last character is not `;` fails the guard, even when `sol";` comes just before it, because `$` anchors to the end of the line |
| `Preprocess.NonImportLineUnchanged` | hardhat.config.ts:32-40 | a line failing the guard is returned unchanged, whatever the entries |
| `Preprocess.NoMatchUnchanged` | hardhat.config.ts:33-40 | a line in which no entry's `from` occurs is returned unchanged |
| `Preprocess.AppliedEntry` | hardhat.config.ts:33-37 | when entry k is the earliest whose `from` occurs in an import line, the result is that one entry's replace and nothing more |
| `Preprocess.LaterEntriesIgnored` | hardhat.config.ts:33-37 | once an entry matches, appending any entries after it changes neither the chosen entry nor the result (the loop breaks) |
| `Preprocess.EarlierEntryWins` | hardhat.config.ts:33-36 | an entry whose `from` occurs in the line takes priority over every later entry |
| `Preprocess.AppliedEntryLiteral` | hardhat.config.ts:35 | with a `$`-free replacement text (a `$`-free `to`, or `undefined` for an undefined `to`), the result is the text before the first `from`, then that text, then the text after it, and its length is \|line\| - \|from\| + \|text\| |
| `Preprocess.BlankEntryPrefixesUndefined` | hardhat.config.ts:33-35 | a leading `("", undefined)` entry turns every import line into `"undefined" + line` |
| `Preprocess.SingleEntryFile` | hardhat.config.ts:10-41 | a file of the one line `from=to` (no `=` or `"\n"` in `from` or `to`, no white space at the start of `from` or the end of `to`) rewrites an import line containing `from` as `line.replace(from, to)` does, `$` patterns in `to` expanded |
| `Preprocess.SingleEntryFileLiteral` | hardhat.config.ts:10-41 | under the same conditions and with a `$`-free `to`, the import line becomes the text before the first `from`, then `to`, then the text after it |
| `Preprocess.FirstFileLineWins` | hardhat.config.ts:10-41 | when the entry of the file's first line matches an import line, it is the one applied, whatever the rest of the file holds |
| `Preprocess.BlankFirstFileLine` | hardhat.config.ts:10-41 | a white-space-only first line of the file prefixes every import line with `undefined` |

## Left out

- Reading `remappings.txt` from disk (hardhat.config.ts:12) is left out. The file text is a parameter. The source reads the file again for every guarded line, and the model treats the text as a fixed input.
- `dotenv.config()` and the `PRIVATE_KEY` environment reads (hardhat.config.ts:8, 51-63) are left out. They are environment I/O.
- The static `solidity`, `paths` and `networks` settings (hardhat.config.ts:19-27, 44-65) are left out. They are constant data with no behaviour.
- The hardhat-preprocessor hook that calls `transform` for each line (hardhat.config.ts:30) is left out. How the plugin splits a source file into lines is not part of this model.
- script/deploy.ts and scripts/deploy.ts are not part of this model. They are sequences of contract-factory and deploy calls into an external library and the network, with console logging.
- Strings: JavaScript strings are UTF-16 code units, but a Dafny `char` here is a Unicode scalar value. Strings with unpaired surrogates are not modelled.
- Regular expressions: only the one fixed pattern is modelled, as the predicate `IsImportLine`. There is no general regular-expression engine.
- `trim`: the white-space set is the ECMAScript WhiteSpace and LineTerminator characters, with the Unicode 15 `Zs` category written out. Later Unicode versions are not tracked.
- `replace`: the `$1`…`$99` and `$<name>` patterns are kept literally, as GetSubstitution does for a string pattern without capture groups.
