# ntuLearnQuestions in Dafny

A model of the question converter `ntuLearnQuestions.py`. The tool turns a plain-text file of quiz
questions into tab-separated rows for bulk upload to NTU Learn. The model covers:

- `parseTextQuestion`, which turns one question block into one positional row;
- the pure part of the command-line entry point: curly-quote replacement, splitting at `%%`,
  removal of `##…##` comments, parsing every block in order, and dropping the blocks that give
  no row.

Modules, one file each:

- `wrappers.dfy` (`Wrappers`): `Option`.
- `text.dfy` (`Text`): Python `str` operations.
  - Covers `in`, `find`, `split` and `join`, `strip()` and `strip(chars)`, `replace` and `lower`.
  - Whitespace is Python's `str.isspace()` set, so `strip()` and `\s` are modelled exactly.
- `scan.dfy` (`Scan`): each regular expression of the parser, written as a scanner with the
  semantics of Python's `re` for that one pattern:
  - the tag prefix `TAG(?:\d+)?\.?`;
  - the lazy question span `([\s\S]*?)(?=@@)` (or `(?=>>)`);
  - the line-anchored `findall(r'^@@[^\n]+', s, re.M)`;
  - the label search `^@@([a-zA-Z]+)`;
  - the label removal `re.sub(r'^@@[a-zA-Z]+\s', '', …)`;
  - the short-reply `(.*)`.
- `parser.dfy` (`Parser`): the six question kinds, dispatched in the source's order.
  - Each block ends in `Result = Row(fields) | Fail(msg) | NoRow`.
  - `Fail` is a raised exception. That is either an explicit `raise`, or `.group()` called on a
    search that found nothing; the latter carries the text of Python's `AttributeError`.
  - `NoRow` is the `None` returned when no tag matches.
- `driver.dfy` (`Driver`): the glue of lines 126-139.
  - It is written for any parser `parse: string -> Result`. `ConvertText` fixes the parser to
    `ParseTextQuestion`.
  - `CollectRows` is the source's loop and filter, proved equal to the functional definition.

Behaviour of the code that a reader might not expect, which the model keeps:

- Multiple choice marks an option `correct` when the option line starts with `@@` followed by the
  answer value. This is a prefix test, not equality of labels.
  - With answer `A`, both `@@A x` and `@@AB y` are correct.
  - With answer `a`, nothing is correct.
  - So "exactly one option is correct" is not a property of the code.
  - `Parser.SingleLetterLabelsMatchByEquality` proves that the two readings agree when labels are
    one letter followed by whitespace and the answer is one character.
- A short reply's question is only the rest of the first line, because `(.*)` has no DOTALL.
  `Parser.ShortReplyIgnoresLaterLines` proves that later lines do not matter.
- A multiple-choice or true/false block that contains `>>` but has no line starting with `>>` and
  one more character fails at `.group()`. It is not accepted.
- An ordering block with `>>` only inside a line yields `['ORD', q]` with no answers.
- The label of an option line is removed only when whitespace follows the maximal letter run after
  `@@`. Otherwise the option text is the whole stripped line, marker and label included. This
  happens for `@@A) Paris`, `@@A.Paris`, `@@ Paris` and `@@AB`. `Scan.ChoiceTextUnlabelled`
  states the rule and `Scan.ParenthesisedLabelKept` works one case.
- A failed block becomes the string `'\n'` in the row list. It is modelled as the abstract row
  `Blank`.

## Model

| member | source | states |
|---|---|---|
| Parser.Classify | ntuLearnQuestions.py:14-98 | the chosen kind's tag is a prefix of the block; no kind is chosen exactly when no tag is a prefix; a block starting with `MAT` is matching |
| Parser.ClassifyByPrefix | ntuLearnQuestions.py:14-98 | a block is of kind k exactly when it starts with k's tag, except that a `MAT` block is never multiple-answer |
| Parser.MatchingBeforeMultipleAnswer | ntuLearnQuestions.py:35 | a block starting with `MAT` is parsed by the matching branch, not by the multiple-answer one |
| Parser.ParseTextQuestion | ntuLearnQuestions.py:11-116 | a block yields no row exactly when it starts with none of the six tags; every row starts with the tag of the block's kind followed by a one-line question with no surrounding whitespace; a block starting with `MAT` is parsed by the matching branch |
| Parser.QuestionField | ntuLearnQuestions.py:19-21 | once the stop marker occurs in the block the question search cannot fail, and the field is the lazily matched span after the tag, normalised to one clean line |
| Parser.InterleaveAt | ntuLearnQuestions.py:28-31 | the loop appending one text and one mark per option puts option i's pair at positions 2i and 2i+1 of the tail |
| Parser.ParseMC | ntuLearnQuestions.py:14-32 | fails exactly when `@@` or `>>` is missing or no line is `>>` plus text; a row is `MC`, the question and two fields per `@@` line (length 2 + 2n) |
| Parser.McOption | ntuLearnQuestions.py:22-31 | in the row of a valid multiple-choice block, option i's text field is its `@@` line with the label removed only when whitespace follows the label, otherwise the whole stripped line, and its mark is `correct` exactly when that line starts with `@@` followed by the first answer value |
| Parser.SingleLetterLabelsMatchByEquality | ntuLearnQuestions.py:25-26 | for a one-letter label followed by whitespace and a one-character answer, the prefix test marks the option correct exactly when its label equals the answer |
| Parser.MaAnswers | ntuLearnQuestions.py:44-45 | the answer values are the `>>` lines in order, each with `>` and then only spaces stripped |
| Parser.ParseMA | ntuLearnQuestions.py:35-58 | fails exactly when `@@` or `>>` is missing or some `@@` line has no letter after `@@`; a row is `MA`, the question and two fields per `@@` line |
| Parser.LetterlessOption | ntuLearnQuestions.py:46 | the label search fails on some `@@` line, so `.group(1)` raises, exactly when some `@@` line has no letter right after the marker |
| Parser.MaRow | ntuLearnQuestions.py:43-58 | a block with both markers and a letter after every `@@` gives the row `MA`, the question, then each option's text and mark in order |
| Parser.LabelMarkOfLabelled | ntuLearnQuestions.py:48-52 | an option line `@@`, letters, whitespace, text is marked `correct` exactly when the letters are one of the answers, and `incorrect` otherwise |
| Parser.MaOption | ntuLearnQuestions.py:43-57 | a block with both markers and a letter after every `@@` parses to a row, and option i's fields are its text (the line with the label removed only when whitespace follows the label, otherwise the whole stripped line), then `correct` exactly when its maximal letter label is one of the answer values |
| Parser.LowerIsCaseInsensitive | ntuLearnQuestions.py:69-70 | comparing the lower-cased answer with a lower-case word is comparing the two up to case |
| Parser.TrueFalseValue | ntuLearnQuestions.py:67-71 | the value is absent exactly when the stripped answer is neither `true` nor `false` up to case; otherwise it is that word in lower case |
| Parser.ParseTF | ntuLearnQuestions.py:61-73 | fails exactly when `>>` is missing, no line is `>>` plus text, or the first answer is not `true`/`false` in any case; a row is exactly `TF`, the question and `true` or `false` matching the answer up to case |
| Parser.ParseSR | ntuLearnQuestions.py:76-81 | never fails; the row is exactly `SR` and the rest of the first line after the tag, digits and dot, normalised to a clean line |
| Parser.ShortReplyIgnoresLaterLines | ntuLearnQuestions.py:77 | appending a line break and any text to a one-line short-reply block leaves its row unchanged |
| Parser.ParseORD | ntuLearnQuestions.py:84-95 | fails exactly when `>>` is missing; a row is `ORD`, the question and every `>>` line's stripped value in source order (length 2 + number of `>>` lines) |
| Parser.ParseMAT | ntuLearnQuestions.py:98-116 | fails exactly when `@@` or `>>` is missing or the counts of `@@` and `>>` lines differ; a row has length 2 + 2n |
| Parser.MatPair | ntuLearnQuestions.py:106-115 | a block with both markers and as many `@@` as `>>` lines parses to a row, and pair i is item i (with `@` and whitespace stripped) and answer i, paired by position only |
| Scan.TagEnd | ntuLearnQuestions.py:19 | the question starts after the tag, the maximal run of digits and, only when one follows, a single dot |
| Scan.QuestionSpan | ntuLearnQuestions.py:19 | a found span is followed by the stop marker and contains no occurrence of it; the search fails exactly when the marker does not occur after the tag prefix |
| Scan.SpanFoundAfterTag | ntuLearnQuestions.py:15-19 | when the block contains the stop marker, whose first character is no tag character, digit or dot, the question search succeeds |
| Scan.LineRest | ntuLearnQuestions.py:77 | the short-reply capture is a slice of the block holding no line break and ending at a line break or at the end |
| Scan.NormalizeText | ntuLearnQuestions.py:20-21 | the normalised question is a contiguous slice of the span with each line break turned into a space, everything cut from either end is whitespace, and the result has no line break and no surrounding whitespace |
| Scan.NormalizeJoinsLines | ntuLearnQuestions.py:20-21 | two clean lines joined by a line break normalise to the same lines joined by one space |
| Scan.NormalizeIdempotent | ntuLearnQuestions.py:20-21 | normalising a normalised question changes nothing |
| Scan.NormalizeKeepsCleanText | ntuLearnQuestions.py:20-21 | a one-line text without surrounding whitespace is its own normal form |
| Scan.MarkerLines | ntuLearnQuestions.py:22 | every match starts with the marker and has at least one more character |
| Scan.MarkerLinesAreLines | ntuLearnQuestions.py:22 | a string is a match exactly when it is a line of the block that starts with the marker and has text after it; no match holds a line break |
| Scan.MarkerLinesConcat | ntuLearnQuestions.py:43-44 | the matches of two texts joined by a line break are those of the first followed by those of the second, so order is kept |
| Scan.ChoiceCode | ntuLearnQuestions.py:46 | the search fails exactly when the line lacks a letter right after `@@`; a found label is the maximal letter run after `@@` |
| Scan.ChoiceText | ntuLearnQuestions.py:27 | the option text is no longer than the line and has no surrounding whitespace; which of the two cases of the substitution applies is stated by `Scan.ChoiceTextOfLabelled` and `Scan.ChoiceTextUnlabelled` |
| Scan.ChoiceTextUnlabelled | ntuLearnQuestions.py:27 | when the line has no letter after `@@`, or its letter run is not followed by whitespace, the substitution does not apply: the option text is the whole stripped line and still starts with `@@` |
| Scan.ParenthesisedLabelKept | ntuLearnQuestions.py:27 | `@@A) Paris` has label `A`, yet its option text is the whole line `@@A) Paris` |
| Scan.ChoiceTextOfLabelled | ntuLearnQuestions.py:27 | for a line `@@` + letters + one whitespace + text, the option text is the stripped text and the label is the letters |
| Scan.SingleLetterLabel | ntuLearnQuestions.py:25 | for a one-letter label followed by whitespace, the prefix test with a one-character answer is label equality |
| Scan.MarkedValue | ntuLearnQuestions.py:24 | an answer value (`>` stripped, as for every kind but multiple-answer) or a matching item (`@` stripped, line 110) has no surrounding whitespace and is no longer than its line |
| Scan.MarkedValueRoundTrip | ntuLearnQuestions.py:24 | the line made of the doubled marker, any run of whitespace and a value v reads back as v, when v has no surrounding whitespace, does not end with the marker, and does not start with it when the run is empty |
| Scan.SpaceStrippedAnswer | ntuLearnQuestions.py:45 | a multiple-answer value has no surrounding spaces and is no longer than its line |
| Scan.SpaceStrippedRoundTrip | ntuLearnQuestions.py:45 | the line `>>`, any run of spaces and a value v reads back as v, when v neither starts nor ends with a space or `>` |
| Scan.SpaceStrippedKeepsTab | ntuLearnQuestions.py:45 | only spaces are stripped from a multiple-answer value: `>>A` followed by a tab reads back with the tab |
| Scan.AnswerValueDropsTab | ntuLearnQuestions.py:68 | every other answer value is stripped of all whitespace: `>>A` followed by a tab reads back as `A` |
| Text.IndexOf | ntuLearnQuestions.py:15 | a found index is the leftmost occurrence at or after the start; nothing is found exactly when the pattern does not occur there |
| Text.FoundIffContains | ntuLearnQuestions.py:15 | a search from the start succeeds exactly when the marker is a substring of the block |
| Text.SplitOn | ntuLearnQuestions.py:127 | a split always gives at least one piece |
| Text.SplitOnPieceNoDoubled | ntuLearnQuestions.py:127 | splitting at a doubled character `cc` leaves every piece but the last holding no `cc` and not ending with `c`, so each cut is at the leftmost `cc` |
| Text.JoinSplit | ntuLearnQuestions.py:127 | joining the pieces of a split with the separator gives back the text |
| Text.SplitOnPartFree | ntuLearnQuestions.py:127 | no piece of a split contains the separator |
| Text.LinesConcat | ntuLearnQuestions.py:22 | the lines of two texts joined by a line break are the lines of the first followed by the lines of the second |
| Text.Strip | ntuLearnQuestions.py:21 | the result is the slice between the first and the last kept character; both its ends are kept characters, and everything cut off is stripped |
| Text.ReplaceChar | ntuLearnQuestions.py:20 | the length is kept, each occurrence of the target becomes the substitute, and every other character is kept in place |
| Text.Lower | ntuLearnQuestions.py:69 | the length is kept and each character is replaced by its lower-case form, so ASCII capitals become small letters and nothing else changes |
| Text.StripStripped | ntuLearnQuestions.py:21 | a string with nothing to strip at either end is its own strip |
| Driver.NormalizeQuotes | ntuLearnQuestions.py:126 | each curly double quote becomes `"`, the curly apostrophe becomes `'`, and every other character and the length are kept |
| Driver.NormalizeQuotesIdempotent | ntuLearnQuestions.py:126 | no curly quote survives, and a second pass changes nothing |
| Driver.NormalizeQuotesConcat | ntuLearnQuestions.py:126 | quote replacement distributes over concatenation |
| Driver.StripComments | ntuLearnQuestions.py:128 | removal never lengthens a block, and any change removes at least the four marker characters |
| Driver.StripCommentsChanges | ntuLearnQuestions.py:128 | removal changes a block exactly when it has an opening `##` and a later closing `##`; a block without a comment is unchanged |
| Driver.StripOneComment | ntuLearnQuestions.py:128 | for text `before`, then `##`, a comment `body` and `##`, then the rest, where neither `before` nor `body` contains `##` or ends with `#`, the comment and both markers are removed, `before` is kept, and removal continues on the rest |
| Driver.Blocks | ntuLearnQuestions.py:126-128 | there is one block per `%%` piece of the quote-normalised text, and block k is piece k with its comments removed |
| Driver.SplitKeepsText | ntuLearnQuestions.py:127 | joining the raw blocks with `%%` restores the quote-normalised text |
| Driver.RowOf | ntuLearnQuestions.py:132-138 | a `None` result gives no row, a failure gives one blank row, and a parsed row gives itself |
| Driver.Entry | ntuLearnQuestions.py:132-138 | the appended entry is `None` exactly for a `None` result, and otherwise is the row that result contributes |
| Driver.AssembleRows | ntuLearnQuestions.py:130-139 | there are never more rows than results |
| Driver.AssembleConcat | ntuLearnQuestions.py:130-139 | the rows of two runs of results are the rows of the first followed by those of the second, so block order is kept |
| Driver.AssembleCount | ntuLearnQuestions.py:139 | the number of rows is the number of results minus the number of `None` results |
| Driver.AssembleLength | ntuLearnQuestions.py:139 | with no `None` result, there is one row per result |
| Driver.AssembleAligned | ntuLearnQuestions.py:130-139 | with no `None` result, row k is result k's fields, or the blank row when result k is a failure |
| Driver.ParseAll | ntuLearnQuestions.py:130-132 | result k is the parse of block k |
| Driver.TaggedBlocksAlign | ntuLearnQuestions.py:130-139 | when every block carries a tag, there is one row per block and row k is block k's parse or a blank row |
| Driver.ConvertWith | ntuLearnQuestions.py:126-139 | a file gives exactly one row per block minus one per block whose parse is `None`, so never more rows than `%%` pieces |
| Driver.ConvertText | ntuLearnQuestions.py:126-139 | a file gives exactly one row per block minus one per block carrying no tag, so never more rows than `%%` pieces |
| Driver.NormalizeKeepsPercents | ntuLearnQuestions.py:126-127 | quote replacement keeps a block free of `%%` |
| Driver.FirstBlock | ntuLearnQuestions.py:126-128 | a first piece without `%%` becomes the first block whole, with quotes replaced and comments removed, and the later blocks are those of the rest of the file |
| Driver.ConvertFirstBlock | ntuLearnQuestions.py:126-139 | the first block of a file gives its own row, or none, and the rest of the file converts as if it stood alone |
| Driver.CollectRows | ntuLearnQuestions.py:129-139 | the loop that appends one entry per block, followed by the filter dropping `None`, gives exactly the rows of the parse results in order |

## Left out

- Command-line parsing, reading the input file, deriving the output file name, and writing the rows
  with `csv.writer` (lines 120-125 and 140-144). These are I/O and library behaviour. A row of the
  model is a sequence of fields, and the blank placeholder is the abstract `Blank`.
- Printing the excerpt `problem[1:100]`, the exception and its traceback for a failed block
  (lines 134-137). This is logging only. A failure is `Fail(msg)` with the message the source
  raises.
- A general regular-expression engine. Only the six patterns the parser uses are modelled, each as
  a scanner.
- Text.IsDigit: `\d` is restricted to ASCII digits. Python's `\d` on `str` also matches other
  Unicode decimal digits, so a tag followed by, for example, Arabic-Indic digits is not modelled.
- Text.Lower: only ASCII letters are lowered. This is exact for the true/false answer. The only
  non-ASCII character whose `lower()` is an ASCII letter is the Kelvin sign, which becomes `k`, a
  letter of neither `true` nor `false`. Hence the set of accepted answers and the emitted word are
  the same as Python's.
- The list of question types planned but not implemented (the comment after the entry point).
