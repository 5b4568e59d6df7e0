# rEFInd icon order: a Dafny model of customize_icon_order.py

`customize_icon_order.py` reorders the tokens of the `scanfor` and `showtools`
directives of a rEFInd configuration file. It goes through the file line by
line. A line counts as a directive when:

- its text, after a leading run of `#` characters and then a leading run of
  whitespace (`line.lstrip('#').lstrip()`, in that order), starts with one of
  the two keywords, in any letter case, not followed by a letter, digit or
  `_`; and
- it has at least one token. Tokens are read from that same text: everything
  from the first `#` on is dropped, the rest is split after its first
  whitespace-separated word, and the part after that word is split at commas.
  The first word is not always the keyword alone: it runs on to the first
  whitespace, so text glued to the keyword is part of it.

For each directive, the script asks the user for a new order. The answer is a
list of one-based positions separated by whitespace. The script writes the
directive back as `<keyword> <t1>,<t2>,...\n`. Every other line is copied
unchanged.

The project models the script's core:

- `Directive` models `parse_directive` and `format_directive`.
- `Reorderer` models `reorder`. Its validation of the answer and its
  permutation of the tokens follow the script step by step, with `int()` read
  as an optional sign and ASCII digits (see "## Left out"). The typed answer
  is a parameter.
- `Rewriter` models the loop of `process_file` as an imperative method. The
  file's lines and the sequence of typed answers are its inputs. `Pass` holds
  the single left-to-right pass that `Rewriter` uses as its specification. In
  that pass, the k-th line that asks for an answer is rewritten with the k-th
  answer.

Supporting modules:

- `Text` models the Python string built-ins the script relies on: `strip`,
  `lstrip`, `lstrip('#')`, `split()`, `split(None, 1)`, `split(',')`,
  `split('#', 1)[0]` and `','.join`.
- `Numbers` models `int()` on one word.
- `Sorting` models `sorted`, `list(range(n))` and the comprehension
  `[items[i] for i in indices]`.
- `Scenarios` works through concrete lines.

Whitespace is the whole set of characters Python's `str.isspace()` accepts, not
only the ASCII ones: 9-13, 28-32, 0x85, 0xA0, 0x1680, 0x2000-0x200A, 0x2028,
0x2029, 0x202F, 0x205F and 0x3000. `strip`, `lstrip` and `split()` all use
this set. `Text.IsSpace` reaches the table through a short countdown
(`Text.SpaceAt`), so the verifier expands the table only where a proof calls
`Text.SpaceChars`. The body of `Text.Strip` is kept behind a countdown in the
same way and is reached through `Text.StripParts`.

The line `re.compile(r'^(scanfor|showtools)\b', re.IGNORECASE)` is modelled as
the predicate `KeywordAt`:

- the first 7 or 9 characters, lower-cased in ASCII, equal the keyword;
- they are followed by the end of the text or by a character that is not an
  ASCII letter, digit or `_`;
- `scanfor` is tried before `showtools`;
- the keyword is returned as written, which is `match.group(1)`.

The script's own behaviour is kept as it is, including four effects the user
may not expect:

- A directive line that has tokens is always re-formatted, even when the user
  presses Enter to keep the order. A commented-out directive such as
  `# scanfor a, b` is uncommented, and a trailing `# comment` is dropped
  (`Rewriter.KeepNormalises`, `Scenarios.CommentedOutScenario`).
- A file whose last directive line has no final newline gains one.
- A `#` after leading whitespace is not dropped, so an indented commented-out
  directive such as ` #scanfor a,b` is not a directive and is copied
  (`Scenarios.IndentedCommentScenario`).
- Text between the keyword and the first whitespace after it is lost. In
  `scanfor,a b` the keyword matches, because a comma ends a word, but the first
  word is `scanfor,a` and the only token is `b`. The line is written back as
  `scanfor b`, whatever the answer (`Scenarios.GluedTokenScenario`).

When an `input()` call finds no more answers, Python raises `EOFError` and the
file is not written. `Rewriter.ProcessLines` then returns `None`.

## Model

| member | source | states |
|---|---|---|
| Text.LStrip | customize_icon_order.py:59 | `lstrip()` returns a suffix of the text. The part it drops is all whitespace, and the result does not start with whitespace. |
| Text.LStripChar | customize_icon_order.py:59 | `lstrip('#')` returns a suffix of the line. The part it drops is all `#`, and the result does not start with `#`. |
| Text.RStrip | customize_icon_order.py:21 | `rstrip()` returns a prefix of the text. The part it drops is all whitespace, and the result does not end in whitespace. |
| Text.Strip | customize_icon_order.py:21 | `strip()` leaves no whitespace at either end. The result is empty exactly when the text is all whitespace, and a trimmed text is returned unchanged. |
| Text.StripParts | customize_icon_order.py:21 | `strip()` is `lstrip()` followed by `rstrip()`. |
| Text.StripNoChar | customize_icon_order.py:21 | Stripping only removes characters. |
| Text.StripTrailing | customize_icon_order.py:21-26 | A trimmed non-empty text followed by whitespace strips back to itself. |
| Text.SpaceChars | customize_icon_order.py:18-21 | Whitespace is exactly the characters of `str.isspace()`'s table. |
| Text.PrintableNotSpace | customize_icon_order.py:21 | No printable ASCII character other than the space is whitespace. |
| Text.TakeWord | customize_icon_order.py:18 | The first word of a text is its longest whitespace-free prefix: whitespace or the end of the text follows it. |
| Text.Capital | customize_icon_order.py:56 | Each lower-case ASCII letter has an upper-case partner that lower-cases back to it. |
| Text.LowerIs | customize_icon_order.py:56 | ASCII lower-casing gives a lower-case letter from exactly that letter and its capital. |
| Text.LowerAllIs | customize_icon_order.py:56 | A text lower-cases to a lower-case keyword exactly when it has the keyword's length and each character is the keyword's letter in either case. |
| Text.LowerAll | customize_icon_order.py:56 | ASCII lower-casing keeps the length and maps each character on its own; `Text.LowerAllIs` turns this into the IGNORECASE comparison with a keyword. |
| Text.Words | customize_icon_order.py:42 | Every piece that `split()` returns is non-empty and has no whitespace. |
| Text.WordsNone | customize_icon_order.py:38-42 | `split()` finds no word exactly when the text is all whitespace. |
| Text.WordsStrip | customize_icon_order.py:38-42 | Stripping the answer first does not change its words. |
| Text.WordsJoin | customize_icon_order.py:34-36 | Words joined by single spaces split back into the same words. |
| Text.SplitOnce | customize_icon_order.py:18 | `split(None, 1)` gives at most two parts. The first is a word. A second part, when present, is non-empty and starts with a non-space. |
| Text.SplitOnceNoChar | customize_icon_order.py:17-18 | The second part holds no character the text lacks, so no `#` survives into it from a line cut at its first `#`. |
| Text.SplitOnceOf | customize_icon_order.py:18 | Leading whitespace, a word, then whitespace and the rest split into the word and the rest with its left whitespace removed. With no rest, the result is the word alone. |
| Text.SplitOn | customize_icon_order.py:21 | `split(',')` returns at least one piece, and no piece contains the separator. |
| Text.SplitOnConcat | customize_icon_order.py:21 | Splitting at a separator splits each side separately. |
| Text.Join | customize_icon_order.py:26 | `','.join` starts with the first piece. With `Text.JoinTwo`, `Text.JoinThree` and `Text.JoinConcat` it gives the joined text of any list, and `Directive.ItemsJoin` splits it back into the pieces. |
| Text.JoinConcat | customize_icon_order.py:26 | Joining two non-empty lists one after the other puts one separator between their joins. |
| Text.BeforeFirst | customize_icon_order.py:17 | `split('#', 1)[0]` is a prefix with no `#`. If the line is longer than that prefix, a `#` follows it. |
| Text.BeforeFirstConcat | customize_icon_order.py:17 | Nothing after the first `#` matters. |
| Numbers.ParseInt | customize_icon_order.py:42 | `int(x)` succeeds only on a non-empty word. |
| Numbers.ParseDigits | customize_icon_order.py:42 | `int()` reads a non-empty run of ASCII digits of any length as its value, leading zeros included, with or without a `+` or `-` sign. No limit on the number of digits is modelled. |
| Numbers.LeadingZero | customize_icon_order.py:42 | A leading zero does not change the value of a run of digits. |
| Numbers.ParseDecimal | customize_icon_order.py:42 | `int()` reads back every decimal numeral, including one with a `+` or `-` sign. |
| Numbers.Decimal | customize_icon_order.py:42 | The decimal numeral of a number is a non-empty run of digits whose value is that number. |
| Numbers.ParseIntRejects | customize_icon_order.py:42 | A word with a character that is neither a digit nor a leading sign makes `int()` fail. |
| Numbers.ParseIntSignOnly | customize_icon_order.py:42 | A lone sign is not an integer. |
| Sorting.Insert | customize_icon_order.py:43 | Inserting a number adds exactly that number to the multiset of elements. |
| Sorting.InsertSorted | customize_icon_order.py:43 | Inserting into an ordered list keeps it ordered. |
| Sorting.Sort | customize_icon_order.py:43 | `sorted()` returns an ordered rearrangement of its input. |
| Sorting.Range | customize_icon_order.py:43 | `list(range(n))` is 0, 1, ..., n-1. |
| Sorting.SortCheck | customize_icon_order.py:43 | `sorted(indices) == list(range(n))` holds exactly when the indices are a permutation of 0..n-1: n of them, all in range, none repeated. |
| Sorting.SortCheckSound | customize_icon_order.py:43 | If the check passes, the indices are a permutation. |
| Sorting.SortCheckComplete | customize_icon_order.py:43 | Every permutation passes the check. |
| Sorting.PickPermutes | customize_icon_order.py:48 | `[items[i] for i in p]` for a permutation p is a rearrangement of the items, as a multiset. |
| Sorting.Pick | customize_icon_order.py:48 | The comprehension has one element per index, each one of the items. With a permutation it is a rearrangement of the items (`Sorting.PickPermutes`), and with `range(n)` it is the items themselves (`Sorting.PickRange`). |
| Sorting.PickSameElements | customize_icon_order.py:48 | Index lists with the same elements pick the same items as a multiset. |
| Directive.KeepStripped | customize_icon_order.py:21 | The comprehension never keeps more pieces than it was given. |
| Directive.KeepStrippedClean | customize_icon_order.py:21 | The comprehension keeps only non-empty pieces with no whitespace at either end. |
| Directive.KeepStrippedNoChar | customize_icon_order.py:21 | The comprehension keeps no character the pieces lack. |
| Directive.KeepStrippedConcat | customize_icon_order.py:21 | The comprehension works piece by piece, left to right. |
| Directive.ItemsOne | customize_icon_order.py:21 | One clean token followed by whitespace reads back as that token alone. |
| Directive.Items | customize_icon_order.py:21 | Every token is non-empty, has no whitespace at either end and has no comma. |
| Directive.ParseDirective | customize_icon_order.py:14-21 | Every token that `parse_directive` returns is non-empty, trimmed, and has no comma or `#`. |
| Directive.FormatDirective | customize_icon_order.py:24-26 | `format_directive` starts with the name followed by a space, and ends in a newline. |
| Directive.ItemsEmptyText | customize_icon_order.py:21 | An empty remainder gives no token. |
| Directive.ItemsEmpty | customize_icon_order.py:19-21 | The remainder gives no token exactly when it holds only whitespace and commas. |
| Directive.ItemsConcat | customize_icon_order.py:21 | The tokens on the two sides of a comma are listed one after the other. |
| Directive.ItemsSpace | customize_icon_order.py:21 | Leading whitespace contributes no token. |
| Directive.ItemsComma | customize_icon_order.py:21 | A leading comma contributes no token. |
| Directive.ItemsWord | customize_icon_order.py:21 | Any other leading character starts a token. |
| Directive.ItemsJoin | customize_icon_order.py:21-26 | Clean tokens joined by commas, with trailing whitespace after them, read back as the same tokens. |
| Directive.ParseComment | customize_icon_order.py:16-17 | Whatever follows the first `#` never affects the tokens. |
| Directive.ParseKeywordOnly | customize_icon_order.py:18-20 | A keyword with nothing but whitespace around it has no tokens. |
| Directive.ParseUncommented | customize_icon_order.py:17-21 | A line without `#` is parsed whole: no tokens when it has fewer than two parts, otherwise the tokens of its second part. |
| Directive.LineNoHash | customize_icon_order.py:26 | A formatted line has no `#` when neither the name nor any token has one. |
| Directive.ParseLine | customize_icon_order.py:14-26 | A keyword, a space, clean tokens joined by commas and trailing whitespace parse back to exactly those tokens. |
| Directive.ParseFormat | customize_icon_order.py:14-26 | Round trip: `parse_directive(format_directive(name, items)) == items` for a one-word name and clean tokens. |
| Reorderer.IndicesNumerals | customize_icon_order.py:42 | The comprehension over the one-based numerals of an order gives back that order: `Indices` inverts `Numerals`. |
| Reorderer.Indices | customize_icon_order.py:42 | `[int(x) - 1 for x in ...]` succeeds exactly when every word is an integer. It then has one position per word, and each word reads as its position plus one. `Reorderer.IndicesNumerals` shows it inverts `Numerals`. |
| Reorderer.Decide | customize_icon_order.py:38-47 | The order is kept exactly when the answer is blank. Any new order is a permutation of 0..n-1 and is the one the answer names. |
| Reorderer.Reorder | customize_icon_order.py:29-48 | The result always has the same tokens as the input, as a multiset. A blank answer keeps the tokens as they are. |
| Reorderer.SpellsUnique | customize_icon_order.py:42 | Words name at most one list of positions. |
| Reorderer.IndicesSpells | customize_icon_order.py:42 | The comprehension gives p exactly when the words name p. |
| Reorderer.DenotesUnique | customize_icon_order.py:38-42 | An answer names at most one list of positions. |
| Reorderer.IndicesDenotes | customize_icon_order.py:42 | The comprehension over the answer's words gives p exactly when the answer names p. |
| Reorderer.AnswerDenotes | customize_icon_order.py:38-42 | Positions read from the stripped answer are the ones the raw answer names. |
| Reorderer.ReorderKeeps | customize_icon_order.py:38-40 | An empty or all-whitespace answer keeps the tokens. |
| Reorderer.ReorderAccepts | customize_icon_order.py:41-48 | An answer naming a permutation p puts token `items[p[k]]` at position k. |
| Reorderer.ReorderedPick | customize_icon_order.py:48 | When the answer is accepted, the result is the comprehension `[items[i] for i in indices]`. |
| Reorderer.DecideAccepts | customize_icon_order.py:38-44 | An answer naming a permutation of at least one position is accepted with exactly that order. |
| Reorderer.ReorderRejects | customize_icon_order.py:41-47 | A non-blank answer that names no permutation is rejected, and the tokens stay as they are. |
| Reorderer.RejectsNoPositions | customize_icon_order.py:41-47 | An answer with words that names no permutation is rejected. |
| Reorderer.RejectsNonInteger | customize_icon_order.py:41-47 | A word that is not an integer rejects the answer, and the tokens stay. |
| Reorderer.RejectsWrongCount | customize_icon_order.py:43-47 | Too many or too few numbers reject the answer. |
| Reorderer.RejectsRepeat | customize_icon_order.py:43-47 | Naming a position twice rejects the answer. |
| Reorderer.SpellsRepeat | customize_icon_order.py:43 | Two equal numerals name a repeated position. |
| Reorderer.RejectsOutOfRange | customize_icon_order.py:43-47 | A number outside 1..n, such as 0 or a negative number, rejects the answer. |
| Reorderer.Numerals | customize_icon_order.py:34-36 | The one-based numerals of an order are words that `int()` reads back as the positions plus one. |
| Reorderer.Render | customize_icon_order.py:34-36 | The answer "a b c" typed as the prompt asks splits into the numerals and names the order. |
| Reorderer.ReorderRendered | customize_icon_order.py:34-48 | Every permutation can be typed as an answer, and typing it puts the tokens in that order. |
| Rewriter.DetectionSuffix | customize_icon_order.py:59 | The detection text is the line minus a leading run of `#` followed by a run of whitespace (no whitespace before a `#` in what is dropped), and it does not start with whitespace. |
| Rewriter.DetectionText | customize_icon_order.py:59 | The text the keyword is looked for in is no longer than the line and does not start with whitespace; `Rewriter.DetectionSuffix` says which prefix was dropped. |
| Rewriter.StrippedPrefix | customize_icon_order.py:59 | Dropping leading `#` and then leading whitespace drops only those characters. |
| Rewriter.KeywordSpelled | customize_icon_order.py:56 | IGNORECASE: a keyword is found exactly when each of its letters starts the text in lower or upper case and no word character follows. |
| Rewriter.KeywordAt | customize_icon_order.py:56 | The anchored pattern for one keyword. `Rewriter.KeywordSpelled` states it without lower-casing: each letter in either case, then no word character. |
| Rewriter.MatchDirective | customize_icon_order.py:56-61 | The match succeeds exactly when `scanfor` or `showtools` starts the text, in any ASCII letter case, at a word boundary. The name returned is the text's own prefix and lower-cases to the keyword. |
| Rewriter.RewriteLine | customize_icon_order.py:59-65 | A line that is not a directive with tokens is left as it is. |
| Rewriter.NeedsAnswer | customize_icon_order.py:60-63 | A line asks for an answer when its detection text matches a keyword and has tokens. `Rewriter.RewriteLine` copies every other line, and `Rewriter.AskedLine` and `Rewriter.SkippedLine` tie it to the loop body. |
| Rewriter.Prompts | customize_icon_order.py:58-64 | A file asks for at most one answer per line. |
| Rewriter.Rewritten | customize_icon_order.py:57-66 | The new contents have as many lines as the file. |
| Rewriter.ProcessLines | customize_icon_order.py:57-66 | The loop runs out of answers exactly when the file asks for more answers than there are. Otherwise it returns the rewritten file: the k-th asking line is rewritten with the k-th answer and every other line is copied. |
| Rewriter.AskedLine | customize_icon_order.py:59-65 | The loop body on a matched line with tokens asks for an answer and computes the rewritten line. |
| Rewriter.SkippedLine | customize_icon_order.py:59-66 | The loop body on any other line does not ask. |
| Rewriter.RewrittenAt | customize_icon_order.py:57-66 | Line i of the result comes from line i of the input. An asking line is rewritten with the answer after those used by the lines before it, and every other line is copied. |
| Rewriter.UntouchedLines | customize_icon_order.py:60-66 | A line that is not a directive with tokens comes out unchanged, as `readlines()` returned it. |
| Rewriter.NothingToAsk | customize_icon_order.py:57-66 | A file without directive lines that have tokens is written back unchanged. |
| Rewriter.KeywordName | customize_icon_order.py:56-61 | A matched keyword is a word made only of ASCII letters, with no `#`. |
| Rewriter.ReorderedTokens | customize_icon_order.py:48 | Each reordered token is one of the original tokens, so it is clean. |
| Rewriter.RewriteDirective | customize_icon_order.py:61-65 | A rewritten directive is the keyword as written, a space, the reordered tokens joined by commas and a newline. It contains no `#`, so comments and comment marks are gone. |
| Rewriter.FormattedNoHash | customize_icon_order.py:26 | A formatted directive has no `#`. |
| Rewriter.RewriteReadsBack | customize_icon_order.py:59-65 | A rewritten line is its own detection text and matches the same keyword. Its tokens are the reordered tokens, the original tokens rearranged. |
| Rewriter.FormattedReadsBack | customize_icon_order.py:59-62 | A formatted directive is detected with the same keyword and parses back to its tokens. |
| Rewriter.FormattedDetection | customize_icon_order.py:59 | Nothing is stripped in front of a formatted directive. |
| Rewriter.FormattedMatch | customize_icon_order.py:56-59 | The keyword of a formatted directive is still matched, because a space follows it. |
| Rewriter.RewriteStable | customize_icon_order.py:59-65 | A rewritten line still asks, and pressing Enter at it leaves it as it is. |
| Rewriter.FormattedKept | customize_icon_order.py:38-65 | A line already in the formatted shape, with clean tokens, asks for an answer, and pressing Enter at it writes it back unchanged. |
| Rewriter.KeepNormalises | customize_icon_order.py:62-65 | Pressing Enter still writes the directive back formatted: it is uncommented and the trailing comment is dropped. |
| Pass.Asked | customize_icon_order.py:58-64 | A pass asks at most once per line. |
| Pass.RewriteAll | customize_icon_order.py:57-66 | A pass keeps the number of lines. |
| Pass.AskedSnoc | customize_icon_order.py:58-64 | An appended line adds its own request, if it makes one. |
| Pass.RewriteAllSnoc | customize_icon_order.py:58-66 | An appended line is handled with the answer after those of the lines before it. |
| Pass.AskedPrefix | customize_icon_order.py:58-64 | A prefix of the file asks no more often than the whole file. |
| Pass.RewriteAllAt | customize_icon_order.py:57-66 | Line i of a pass is line i rewritten with its own answer, or copied. |
| Pass.NoneAsked | customize_icon_order.py:57-66 | A pass in which no line asks copies every line. |
| Pass.AskedStep | customize_icon_order.py:58-66 | One more iteration: the count and the result grow by that line. |
| Pass.AskedBeyond | customize_icon_order.py:63-64 | An asking line needs one more answer than the lines before it. |
| Pass.AskedPair | customize_icon_order.py:58-64 | Two lines ask as often as each of them does. |
| Scenarios.CommentScenario | customize_icon_order.py:14-21 | `scanfor manual,internal # comment` has the tokens `manual` and `internal`. |
| Scenarios.BareKeywordScenario | customize_icon_order.py:18-20 | `showtools` alone has no tokens, does not ask and is left as it is. |
| Scenarios.ExampleLine | customize_icon_order.py:56-63 | `scanfor internal,hdbios,biosexternal` is detected as `scanfor` with three tokens. |
| Scenarios.EndToEndScenario | customize_icon_order.py:29-66 | Answering `2 1 3` at that line gives `scanfor hdbios,internal,biosexternal`. |
| Scenarios.EnterKeepsScenario | customize_icon_order.py:38-65 | Pressing Enter at that line writes it back exactly. |
| Scenarios.ParseCommaSpaced | customize_icon_order.py:18-21 | Spaces after commas are trimmed off the tokens. |
| Scenarios.CommentedOutScenario | customize_icon_order.py:59-65 | `# scanfor a, b # note` is offered too. Answering `2 1` gives `scanfor b,a`, with the marks and the comment gone. |
| Scenarios.MixedLine | customize_icon_order.py:56-62 | `#ShowTools a,b` is detected, matched with the name `ShowTools` as written, has the tokens `a` and `b` and asks for an answer. |
| Scenarios.MixedCaseScenario | customize_icon_order.py:56-65 | Answering `2 1` at `#ShowTools a,b` gives `ShowTools b,a`, with the keyword's letter case kept. |
| Scenarios.IndentedCommentScenario | customize_icon_order.py:56-66 | In ` #scanfor a,b` the `#` follows whitespace and is kept, so the keyword is not found and the line is copied whatever the answer. |
| Scenarios.OneToken | customize_icon_order.py:48 | A single token stays as it is, whatever the answer. |
| Scenarios.GluedTokenScenario | customize_icon_order.py:17-65 | `scanfor,a b` matches `scanfor` but its only token is `b`: whatever the answer, it is written back as `scanfor b`, and `a` is gone. |
| Scenarios.ToolsKeptScenario | customize_icon_order.py:38-65 | The nine-token line `showtools shell,memtest,gdisk,apple_recovery,windows_recovery,mok_tool,about,reboot,exit`, answered with Enter, is written back unchanged, token order included. |
| Scenarios.LeadingZerosScenario | customize_icon_order.py:42 | `int()` reads `007` as 7 and `-0` as 0. |
| Scenarios.TimeoutIgnored | customize_icon_order.py:56-60 | `timeout 20` is not a directive. |
| Scenarios.EndOfInputScenario | customize_icon_order.py:58-64 | A file with one directive line asks exactly once. |

## Left out

- File reading and writing (lines 53-54 and 68-69) are not modelled. The lines
  come in as a sequence of strings, as `readlines()` returns them, and the new
  contents go out as one. Encoding errors are not modelled either, and neither
  is the newline translation of text mode: reading turns `\r\n` and `\r` into
  `\n`, and writing on Windows turns `\n` into `\r\n`, so a copied line is
  unchanged as a string but not always byte for byte on disk.
- The console is not modelled. The `print` calls that show the tokens and the
  messages (lines 31-37 and 46) are left out. Each `input()` (line 38) becomes
  the next element of the `responses` parameter, and running out of them
  stands for `EOFError`.
- `main` and argument parsing (lines 72-87) are not modelled.
- Rewriter.MatchDirective: case folding and the word boundary are ASCII only.
  Python's Unicode matching also accepts U+017F (long s) for each `s` of the
  keywords, and counts non-ASCII letters and digits as word characters after
  them.
- Numbers.ParseInt: reads an optional sign and ASCII digits only. Python's
  `int()` also accepts `_` between digits and non-ASCII decimal digits. In
  Python 3.11 and later (and the 2022 security releases of earlier versions),
  `int()` also raises `ValueError` for a numeral of more than
  4300 digits (`sys.get_int_max_str_digits()`, leading zeros counted), which
  `reorder` then treats as an invalid answer. The model has no such limit: it
  accepts, for instance, `2 ` followed by 4300 zeros and `1`, where such a
  Python keeps the order.
- The general regular-expression engine is not modelled. Only the one anchored
  pattern is, as `KeywordAt`.
