# Code-block line dimmer and file caption, modelled in Dafny

A blog's page script post-processes every rendered `code` element in two independent passes:

- The **line dimmer** reads the directive `hl=[<tokens>]` from the element's class string. Each token is a 1-based line number `n` or an inclusive range `a-b`, and tokens are separated by single spaces. Every line of the element's markup that no token names is wrapped in `<span style="opacity: 0.3;">…</span>`.
- The **file labeler** reads `file=<name>` from the class string and produces the caption `👆 <name> 👆`, which is appended as the last child of the element's parent.

Both passes are modelled as pure functions over strings:

- `LineDimmer.DimContent(cls, content)` returns the new inner markup. It returns `Failure(InvalidArrayLength)` where the script's `new Array(len)` throws.
- `FileLabeler.Caption(cls)` returns the caption text, or `None`.

The JavaScript primitives they rest on are modelled with their ECMA-262 semantics for the arguments the script passes, except for the differences listed under "Left out":

- `String.prototype.split` with a string separator, `includes`, `replace` with a string pattern, `Array.prototype.join` and `pop` (module `JsString`).
- `parseInt`, `NaN`-propagating arithmetic, the `\s` and `\d` classes, and the `Array` constructor's length check (module `JsNumber`).
- The leftmost-match rule of a non-sticky regular expression search: each recogniser's `FirstMatch` tries the anchored pattern at index 0, 1, 2, ... and stops at the first success. Module `Search` holds the match record.

The two regular expressions are modelled by dedicated recognisers.

- `hl=\[(\s*\d*(\-\d*)?)*]`: the repeated group matches exactly the strings made of whitespace, digits and `-`. Since `]` is none of these, a match at a position exists exactly when the longest such run after `hl=[` is followed by `]`. There is at most one match per position.
- `file=\S*`: the greedy star takes every non-whitespace character up to the next whitespace or the end. It may take none, so a match exists wherever `file=` occurs.

The line dimmer's result is compared with an independent reference, `LineDimmer.Highlighted`. The reference is stated in terms of the tokens rather than the expanded index list the script builds: a line is kept when some token names it, and wrapped in the span otherwise.

Three behaviours of the code worth knowing:

- The file directive accepts an empty name, because the pattern uses `\S*` and not `\S+`. The caption is then `👆  👆`.
- A range token whose bound does not parse gives `NaN` as the length of `new Array`. The same happens for a missing bound, as in `1-` or `-3`. A range with `upper < lower - 1` gives a negative length, and a range longer than 2^32 - 1 gives a length that is too large. In each case the constructor throws a `RangeError`, as section 23.1.1.1 of ECMA-262 requires. The error escapes the pass.
- The script's `parseInt` reading of whitespace-only or empty tokens yields `NaN`, which names no line. So `hl=[]` dims every line.

## Model

| member | source | states |
|---|---|---|
| `LineDimmer.MatchLengthExact` | js/main.js:4 | The anchored recogniser returns length `len` at `p` exactly when the class string holds `hl=[`, a run of whitespace, digits and `-`, and `]` there, `len` characters in all; hence at most one match per position. |
| `LineDimmer.FirstMatch` | js/main.js:6-7 | The scan returns the first position from `from` on where the anchored recogniser succeeds, and `None` only when it succeeds nowhere. |
| `LineDimmer.FindDirective` | js/main.js:6-7 | A directive that is found is text of the pattern's language occurring in the class string at the reported start. |
| `LineDimmer.FindDirectiveLeftmost` | js/main.js:6-7 | If the class string holds directive text anywhere, a directive is found, and it starts no later than that occurrence: the leftmost match is the one used. |
| `LineDimmer.TokensOfDirective` | js/main.js:9-14 | Splitting on `hl=`, popping, removing the first `[` and the first `]`, then splitting on `" "` yields the directive's inner run split on single spaces. |
| `LineDimmer.DirectiveShape` | js/main.js:9-13 | Directive text is `hl=` followed by the bracketed run; the bracketed run holds no `h` and the run holds no `]`. |
| `LineDimmer.RangeBoundsPieces` | js/main.js:17-18 | A token holding `-` splits into at least two pieces, and its bounds are `parseInt` of the first two. |
| `LineDimmer.RangeIgnoresExtraPieces` | js/main.js:18 | Pieces after the second are ignored: a token `a-b-c…` expands exactly like `a-b`. |
| `LineDimmer.ExpandRange` | js/main.js:19-22 | A range succeeds exactly when both bounds are numbers and `upper - lower + 1` lies in [0, 2^32 - 1]; it then holds exactly `upper - lower + 1` indices ascending from `lower - 1` (so `3-2` holds none). |
| `LineDimmer.ExpandRangeKeeps` | js/main.js:19-22 | A valid range holds index `i` exactly when `lower <= i + 1 <= upper`. |
| `LineDimmer.ExpandToken` | js/main.js:17-24 | A token that does not include `-` always succeeds with one value: `NaN` exactly when `parseInt` gives `NaN`, otherwise one less than the parsed number. |
| `LineDimmer.ExpandTokenKeeps` | js/main.js:16-25 | A token that expands holds index `i` exactly when the token names 1-based line `i + 1` in the directive grammar. |
| `LineDimmer.ExpandAllSucceeds` | js/main.js:15-26 | Expanding the token list succeeds exactly when every token expands. |
| `LineDimmer.ExpandAllKeeps` | js/main.js:15-26 | The kept list holds index `i` exactly when some token names line `i + 1`. |
| `LineDimmer.DimLines` | js/main.js:28-30 | There are as many output lines as input lines; line `i` is unchanged exactly when `i` is in the kept list, and otherwise it is the line inside the opacity span. |
| `LineDimmer.DimContent` | js/main.js:6-33 | Without a directive the element's markup is returned unchanged. |
| `LineDimmer.LinesFree` | js/main.js:8 | No line of the split markup holds a newline. |
| `LineDimmer.HighlightedKeeps` | js/main.js:28-30 | In the reference lines, line `i` is the input line exactly when some token names it. |
| `LineDimmer.DimWithLines` | js/main.js:8-32 | Given the tokens, the rebuild fails exactly when some token fails to expand. Otherwise its output is the reference lines joined with newlines: each line some token names is kept, and every other line is wrapped in the span. |
| `LineDimmer.HighlightedSplit` | js/main.js:8-32 | Splitting the joined reference lines on newlines gives them back, so the output has one line per input line. Neither the markup's lines nor the span hold a newline. |
| `LineDimmer.DimContentLines` | js/main.js:3-32 | With a directive, the pass fails exactly when some token is a range with an invalid array length. Otherwise the new markup is the reference lines for the directive's tokens, joined with newlines. |
| `LineDimmer.EmptyDirectiveTokens` | js/main.js:9-14 | The directive `hl=[]` yields the single token `""`. |
| `LineDimmer.EmptyDirectiveDimsAll` | js/main.js:14-29 | For `hl=[]` the pass succeeds and acts as if no line were kept, so every line is dimmed. |
| `LineDimmer.DimTwice` | js/main.js:28-32 | When the pass succeeds, running it over its own output succeeds too. The result is the reference lines taken twice: kept lines stay as they are, and dimmed lines are wrapped in a second span. |
| `LineDimmer.HighlightedTwiceDiffers` | js/main.js:28-30 | A dimmed line is wrapped again on a second pass, so when some line is dimmed the pass is not idempotent. |
| `JsNumber.ParseInt` | js/main.js:18-24 | `parseInt` gives `NaN` exactly when, after leading whitespace, the string is empty or does not start with a digit; otherwise a non-negative number. |
| `JsNumber.ParseIntDigits` | js/main.js:18-24 | After any whitespace, `parseInt` reads the decimal value of the whole digit run, leading zeros included (`007` reads as 7), whatever non-digit text follows it. |
| `JsNumber.ParseIntShow` | js/main.js:18-24 | `parseInt` reads back the decimal numeral of `n` after any whitespace, whatever non-digit text follows it. |
| `JsNumber.TrimStart` | js/main.js:18-24 | The whitespace `parseInt` skips: the result is a suffix, everything dropped is whitespace, and the result does not start with whitespace. |
| `JsNumber.DigitCount` | js/main.js:18-24 | The digits `parseInt` reads: a prefix of digits that is followed by a non-digit or the end. |
| `JsNumber.ArrayLength` | js/main.js:20 | `new Array(len)` accepts `len` exactly when it is a number with `ToUint32(len) == len`, and the array then has length `ToUint32(len)`. |
| `JsNumber.ToUint32Fixed` | js/main.js:20 | `ToUint32` leaves an integer unchanged exactly when it lies in [0, 2^32 - 1], so the valid array lengths are those integers. |
| `JsString.IndexOf` | js/main.js:10-13 | An index found is an occurrence of the separator at or after the start. |
| `JsString.IndexOfFirst` | js/main.js:10-13 | No occurrence lies between the start and the index found, and none at all from the start on when nothing is found. |
| `JsString.IndexOfAt` | js/main.js:10-13 | An occurrence with no earlier one from the start on is exactly the index found. |
| `JsString.IndexOfNone` | js/main.js:10-13 | Nothing is found exactly when the string holds no occurrence. |
| `JsString.IncludesContains` | js/main.js:17 | `includes` is true exactly when the separator occurs somewhere in the string. |
| `JsString.SplitCount` | js/main.js:17-18 | A string holding the separator splits into at least two pieces; one without it splits into itself alone. |
| `JsString.SplitPiecesFree` | js/main.js:8-14 | No piece of a split holds the separator. |
| `JsString.JoinSplit` | js/main.js:8-32 | Joining the pieces of a split with the same separator gives back the original string. |
| `JsString.SplitJoin` | js/main.js:28-32 | Splitting a join on a one-character separator that no piece holds gives back the pieces. |
| `JsString.LastPieceSuffix` | js/main.js:10-11 | A string holding the separator ends with the separator followed by the popped piece. |
| `JsString.LastOfSplit` | js/main.js:10-11 | The popped piece holds no separator, the string ends with the separator followed by it, and it is the whole string when there is no separator. |
| `FileLabeler.MatchLengthExact` | js/main.js:41 | The anchored recogniser returns length `len` exactly when the greedy match of `file=\S*` at `p` has that length. |
| `FileLabeler.MatchAtOccurrence` | js/main.js:41 | The recogniser returns a match exactly where `file=` occurs, since the star may take nothing. |
| `FileLabeler.FirstMatch` | js/main.js:43-44 | The scan returns the first position from `from` on where `file=\S*` matches, and `None` only when it matches nowhere. |
| `FileLabeler.FindDirective` | js/main.js:43-44 | A match that is found is `file=` plus the maximal non-whitespace run, occurring in the class string at the reported start. |
| `FileLabeler.FindDirectiveLeftmost` | js/main.js:43-44 | If `file=` occurs, a match is found that starts at an occurrence of `file=` no later than the given one. |
| `FileLabeler.MatchText` | js/main.js:41-44 | The leftmost match starts with `file=` and holds no whitespace after it. |
| `FileLabeler.CaptionPresent` | js/main.js:41-48 | A caption is produced exactly when `file=` occurs in the class string. |
| `FileLabeler.FileNameOfMatch` | js/main.js:44-45 | For text the pattern matches, the name is the text after its last `file=`. It holds no whitespace and no `file=`, and it may be empty. When the match holds `file=` only once, the name is everything after it. |
| `FileLabeler.CaptionFramesName` | js/main.js:48 | The caption is the marker, a space, the name unescaped, a space and the marker; the text between the framing parts is exactly the name. |
| `FileLabeler.CaptionOfDirective` | js/main.js:41-48 | A class string that is `file=` plus a name without whitespace or `file=` is captioned with exactly that name. |
| `FileLabeler.CaptionAmongClasses` | js/main.js:41-48 | Among other classes, as in `language-py file=utils.py`: when nothing before ` file=<name>` holds `file=`, the name holds no whitespace or `file=`, and whitespace or the end follows it, the caption frames exactly that name. |

## Left out

- Event registration on `DOMContentLoaded` and iteration over `querySelectorAll("code")` (js/main.js lines 1-2, 34-38, 51-52) are page plumbing. Each function models one element.
- `innerHTML` reading and writing, that is HTML serialisation and re-parsing, is not modelled. The markup is a plain string.
- `createElement("sub")`, the style assignment and `parentNode.append` (js/main.js lines 46-49) are DOM calls. The model produces the caption text only. What happens to an element with no parent is not modelled.
- A `RangeError` thrown for one element also stops the `forEach` for the remaining elements. The model reports the failure per element.
- JsNumber.ParseInt: no sign or `0x` prefix handling. A token reaching `parseInt` holds only whitespace, digits and, for the pieces of a range, no `-`, so neither case can arise.
- JsNumber.ParseInt: JavaScript numbers are doubles. A numeral beyond 2^53 may lose precision. A numeral whose value is at least 2^1024 - 2^970 (about 1.8 × 10^308) reads as `Infinity`, for example any numeral with 310 or more significant digits; leading zeros do not count, so 400 zeros followed by `1` still reads as 1. The model uses exact, unbounded integers and has no `Infinity`.
- LineDimmer.ExpandRange: the length `upper - lower + 1` (js/main.js line 20) is computed exactly, not in doubles, so for huge bounds the model can succeed where the script throws, or the reverse. With equal bounds that read as `Infinity`, the length is `Infinity - Infinity + 1`, which is `NaN`, and the script throws a `RangeError`, while the model yields one index. With bounds above 2^53, rounding can move the length across 2^32 - 1 in either direction, and the indices the script computes are rounded too.
- Strings are sequences of Unicode scalar values, while JavaScript strings are sequences of UTF-16 code units. A lone surrogate in the class string or the markup cannot be represented. The marker `👆` is one character in the model (so `CaptionFramesName` counts `|name| + 4`) but two code units in the script.
- Running time is not modelled. In `(\s*\d*(\-\d*)?)*` (js/main.js line 4) a `\d*` is nested inside a `*`. A backtracking engine can therefore try exponentially many ways to split a long digit run that is not followed by `]`, such as `hl=[` and 30 digits then `x`. The model's recogniser answers in linear time, and its `None` does not show that the page can hang.
- The memory an actual `new Array(len)` of a large valid length would need is not modelled.
- The regular expressions are modelled by dedicated recognisers and not by a regex engine. The claim that the group `(\s*\d*(\-\d*)?)*` matches exactly the runs of whitespace, digits and `-` is argued in comments, not proved.
- The `lastIndex` state that `test` leaves on the global regular expression is not modelled. It does not matter here, because `match` with a global expression starts again from index 0.
