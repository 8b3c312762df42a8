# Word-list parser, modelled in Dafny

This project models the study-list parser of a vocabulary flashcard
application (`src/utils/wordParser.ts`). The parser turns the text of a
study list into an ordered list of `WordItem` records (`src/types/word.ts`).
It has two parts:

- `normalizeWord` replaces every underscore with a space and trims the result.
- `parseWordFile` splits the text at line breaks (`/\r?\n/`). It trims every
  line and drops blank ones. The file name then picks a dialect:
  - a name whose lower-cased form ends in `.csv` uses `,` and drops header
    rows matching `/^word,?meaning$/i`;
  - every other name, including the default `remote.txt`, uses `=`.

  Each line is split at every delimiter, and only the first two pieces are
  used. A record is pushed only when both raw pieces are non-empty. Its word is
  the normalised first piece, its meaning the trimmed second piece, its
  `correctCount` is 0 and it has no `tag`.

Files:

- `word.dfy` (module `Word`): the `WordTag` and `WordItem` data shapes.
  `WordTag` is the two tags `'skip'` and `'easy'` (`src/types/word.ts:1`).
  `WordItem` is a `word` and a `meaning`, plus an optional `tag` and an
  optional `correctCount` (`src/types/word.ts:3-8`), modelled with `Option`.
- `js_string.dfy` (module `JsString`): the JavaScript string built-ins that
  the parser calls, with their properties. These are `trim`, `split` on one
  character (with its inverse `Join`), `split(/\r?\n/)`, ASCII `toLowerCase`
  and `endsWith`.
- `js_array.dfy` (module `JsArray`): `filter` and `map` on sequences.
- `word_parser.dfy` (module `WordParser`): `NormalizeWord`, the per-line
  parse `ParseLine`, the specification function `ParseSpec`, and the method
  `ParseWordFile`. The method follows the source statement by statement: it
  reassigns the line list for csv files and appends to `words` in two `for`
  loops. It is proved equal to `ParseSpec`.
- `word_parser_properties.dfy` (module `WordParserProperties`): what the
  parser promises, proved of `ParseSpec`. It holds a line-by-line reference
  reading (`PerLine`). The main lemma proves the parser equal to that
  reference on the lines of any input. Further lemmas cover how text splits at
  line feeds, and which lines are ignored wherever they stand. Lemmas on
  concrete texts cover `hello=greeting` / `world=earth` in `list.txt`,
  `word,meaning` / `cat,animal` in `list.csv`, `foo_bar=baz qux`,
  `incomplete_line_no_delimiter`, `a=b=c`, `_=x`, `=x`, `x=` and
  `word=meaning` under the default name.

Three points of the code's behaviour are easy to misread:

- Each line is split at every delimiter, and only the first two pieces are
  used. So the meaning is the text between the first and second delimiter,
  not the rest of the line: `a=b=c` gives `b`
  (`MeaningStopsAtSecondDelimiter`).
- The emptiness test runs on the raw pieces, before `normalizeWord`. So `_=x`
  is accepted, and its word is empty (`UnderscoreWordBecomesEmpty`).
- Every name that does not end in `.csv`, in any letter case, uses `=`, not
  only `.txt` names (`DialectOf`, `TxtSuffixSelectsEquals`).

## Model

| member | source | states |
|---|---|---|
| `WordParser.ReplaceUnderscores` | src/utils/wordParser.ts:4 | `replace(/_/g, ' ')` keeps the length, turns each `_` into a space at the same position, and keeps every other character in place, so no `_` is left |
| `WordParser.NormalizeWord` | src/utils/wordParser.ts:3-5 | the result contains no `_` and neither starts nor ends with whitespace |
| `WordParser.NormalizeWordIdempotent` | src/utils/wordParser.ts:3-5 | applying `normalizeWord` twice gives the same as applying it once |
| `WordParser.NormalizeWordWithoutUnderscores` | src/utils/wordParser.ts:4 | on text without underscores, `normalizeWord` is `trim` |
| `WordParser.CsvSuffixSelectsCsv` | src/utils/wordParser.ts:10-11 | any name ending in `.csv`, in any letter case, selects the comma dialect |
| `WordParser.DialectOf` | src/utils/wordParser.ts:10-11 | the comma dialect is selected exactly when the last four characters lower-case to `.csv`; every other name takes the `else` branch |
| `WordParserProperties.TxtSuffixSelectsEquals` | src/utils/wordParser.ts:20-21 | a name ending in `.txt`, in any letter case, selects the `=` dialect |
| `WordParserProperties.RemoteTxtSelectsEquals` | src/utils/wordParser.ts:7-27 | the default file name `remote.txt` selects the `=` dialect, so every trimmed non-blank line in it is read as `word=meaning` with no header filter |
| `WordParser.IsHeaderShape` | src/utils/wordParser.ts:13 | `/^word,?meaning$/i` holds exactly when the line is `word`, an optional `,`, then `meaning`, each letter in either case |
| `WordParser.CandidateLinesShape` | src/utils/wordParser.ts:8-13 | the lines the loops visit: at most one per `/\r?\n/` piece, each non-empty and already trimmed, and in the comma dialect none a header |
| `WordParser.ParseLine` | src/utils/wordParser.ts:15-17 | a line yields a record only if it holds the delimiter; every record has `correctCount` 0 and no tag |
| `WordParser.ParseLineWithoutDelimiter` | src/utils/wordParser.ts:15-16 | a line without the delimiter yields no record |
| `WordParser.ParseLineFields` | src/utils/wordParser.ts:15-17 | for `w` delim `m` (then nothing or another delimiter): a record `normalizeWord(w)`, `trim(m)`, count 0 exactly when both raw parts are non-empty, otherwise none |
| `WordParser.Emit` | src/utils/wordParser.ts:14-19 | the loop pushes at most one record per line, each with count 0 and no tag |
| `WordParser.LineRecord` | src/utils/wordParser.ts:16-18 | one line pushes at most one record, with count 0 and no tag |
| `WordParser.EmitConcat` | src/utils/wordParser.ts:22-27 | the records of two runs of lines are those of the first run, then those of the second |
| `WordParser.EmitSnoc` | src/utils/wordParser.ts:22-27 | one more line appends exactly that line's record, if any |
| `WordParser.ParseSpec` | src/utils/wordParser.ts:7-30 | `parseWordFile` as a value: at most one record per `/\r?\n/` piece, each with count 0 and no tag |
| `WordParser.ParseWordFile` | src/utils/wordParser.ts:7-30 | the method computes `ParseSpec`; it returns at most one record per trimmed non-blank line, every one with count 0 and no tag |
| `WordParserProperties.ParseSpecIsPerLine` | src/utils/wordParser.ts:7-30 | the parser equals the line-by-line reference on the lines of its input, so records keep their line order, and there are at most as many records as lines |
| `WordParserProperties.ParseSpecConcat` | src/utils/wordParser.ts:8 | parsing `a` + line feed + `b` gives the records of `a` followed by those of `b` |
| `WordParserProperties.ParseSpecSingleLine` | src/utils/wordParser.ts:8-27 | a text without a line feed yields what its trimmed line yields: nothing if blank or a csv header, else that line's record |
| `WordParserProperties.ParseSpecOfJoinedLines` | src/utils/wordParser.ts:8-27 | lines joined by line feeds parse to the concatenated outcomes of the lines, in order |
| `WordParserProperties.TrimmedLinesIgnoreCarriageReturns` | src/utils/wordParser.ts:8 | `JsString.TrimSplitLines` as an equality of whole `map` results: after trimming, splitting on `/\r?\n/` gives the same lines as splitting on a line feed |
| `WordParserProperties.PerLineOfBlankLines` | src/utils/wordParser.ts:8 | whitespace-only lines contribute no record |
| `WordParserProperties.BlankContentYieldsNothing` | src/utils/wordParser.ts:8 | text made only of whitespace and line breaks yields no record |
| `WordParserProperties.LeadingIgnoredLine` | src/utils/wordParser.ts:8-27 | a first line that yields nothing can be dropped, whether or not more lines follow |
| `WordParserProperties.InnerIgnoredLine` | src/utils/wordParser.ts:8-27 | a line after a line feed that yields nothing can be dropped, whether or not more lines follow |
| `WordParserProperties.IgnoredLineIsInvisible` | src/utils/wordParser.ts:8-27 | a line that yields nothing can be removed from the text (first, last, middle or only line) without changing the result |
| `WordParserProperties.BlankLineIsIgnored` | src/utils/wordParser.ts:8 | removing a blank or whitespace-only line, wherever it stands, changes nothing |
| `WordParserProperties.CsvHeaderIsIgnored` | src/utils/wordParser.ts:13 | in the comma dialect, a `word,meaning` or `wordmeaning` header in any case, on any line including the first, is never emitted |
| `WordParserProperties.LineWithoutDelimiterIsIgnored` | src/utils/wordParser.ts:15-16 | removing a line without the dialect's delimiter, wherever it stands, changes nothing |
| `WordParserProperties.PerLineWithoutDelimiter` | src/utils/wordParser.ts:15-16 | lines without the delimiter contribute no record |
| `WordParserProperties.ContentWithoutDelimiterYieldsNothing` | src/utils/wordParser.ts:14-27 | a text in which the dialect's delimiter never occurs yields no record |
| `WordParserProperties.LineFields` | src/utils/wordParser.ts:15-17 | a line whose trimmed text is `w` delim `m` (then nothing or another delimiter) gives the record `normalizeWord(w)`, `trim(m)`, count 0 when both parts are non-empty, else nothing |
| `WordParserProperties.WellFormedLine` | src/utils/wordParser.ts:23-25 | a line `w` delim `m` (neither part holding a delimiter or line feed, `w` non-empty and starting with non-whitespace, `m` non-empty and neither starting nor ending with whitespace, not a csv header) gives exactly one record, `normalizeWord(w)` and `m` |
| `WordParserProperties.SimpleLine` | src/utils/wordParser.ts:23-25 | a `w` delim `m` line of lower-case letters gives the record `{w, m, correctCount: 0}` |
| `WordParserProperties.TwoSimpleLines` | src/utils/wordParser.ts:22-27 | two such lines in an `=` file give their two records in order |
| `WordParserProperties.HeaderThenSimpleLine` | src/utils/wordParser.ts:13-19 | in a csv file, a header row followed by `w,m` gives only the record of `w,m` |
| `WordParserProperties.ScenarioTwoLines` | src/utils/wordParser.ts:20-27 | `hello=greeting\nworld=earth` in `list.txt` gives the records hello/greeting and world/earth |
| `WordParserProperties.ScenarioCsvHeader` | src/utils/wordParser.ts:11-19 | `word,meaning\ncat,animal` in `list.csv` gives only cat/animal |
| `WordParserProperties.ScenarioUnderscore` | src/utils/wordParser.ts:23-25 | `foo_bar=baz qux` gives word `foo bar` and meaning `baz qux` |
| `WordParserProperties.ScenarioNoDelimiter` | src/utils/wordParser.ts:15-16 | `incomplete_line_no_delimiter` gives nothing under any file name |
| `WordParserProperties.MeaningStopsAtSecondDelimiter` | src/utils/wordParser.ts:23 | `a=b=c` gives meaning `b` |
| `WordParserProperties.UnderscoreWordBecomesEmpty` | src/utils/wordParser.ts:24-25 | `_=x` is accepted and gives an empty word |
| `WordParserProperties.EmptyPartYieldsNothing` | src/utils/wordParser.ts:24 | `=x` and `x=` give nothing |
| `WordParserProperties.HeaderWordsInEqualsDialect` | src/utils/wordParser.ts:20-27 | outside the csv dialect `word=meaning` is an ordinary record |
| `JsString.Trim` | src/utils/wordParser.ts:8 | `trim` leaves no whitespace at either end, and is empty exactly when the input is all whitespace |
| `JsString.TrimIsSlice` | src/utils/wordParser.ts:4 | `trim` returns the unique slice whose outside is whitespace and whose ends are not |
| `JsString.TrimIdempotent` | src/utils/wordParser.ts:17 | trimming twice is trimming once |
| `JsString.TrimIgnoresTrailingSpace` | src/utils/wordParser.ts:8 | a trailing whitespace character, such as the `\r` of a CRLF line end, does not change `trim` |
| `JsString.TrimBounds` | src/utils/wordParser.ts:25 | `trim` is a slice of its input with whitespace outside it and non-whitespace at its ends |
| `JsString.TrimKeepsCharacters` | src/utils/wordParser.ts:4 | every character of `trim(s)` occurs in `s` |
| `JsString.Split` | src/utils/wordParser.ts:15 | `split` gives at least one piece, no piece holds the delimiter, and joining the pieces restores the input |
| `JsString.SplitJoin` | src/utils/wordParser.ts:23 | splitting joined delimiter-free pieces gives the pieces back |
| `JsString.SplitNoDelimiter` | src/utils/wordParser.ts:23 | a string without the delimiter splits into itself alone |
| `JsString.SplitConcat` | src/utils/wordParser.ts:8 | splitting `a` + delimiter + `b` gives the pieces of `a` and then those of `b` |
| `JsString.SplitFirstTwo` | src/utils/wordParser.ts:15 | the first two pieces of `w` delim `m` (then nothing or another delimiter) are `w` and `m` |
| `JsString.SplitLines` | src/utils/wordParser.ts:8 | `split(/\r?\n/)` gives at least one piece, and no piece holds a line feed |
| `JsString.SplitLinesKeepsCharacters` | src/utils/wordParser.ts:8 | every character of every piece of `split(/\r?\n/)` comes from the input |
| `JsString.SplitLinesDropsCarriageReturn` | src/utils/wordParser.ts:8 | each `/\r?\n/` piece is the matching line-feed piece, less at most one trailing `\r` |
| `JsString.TrimSplitLines` | src/utils/wordParser.ts:8 | after trimming, the `/\r?\n/` pieces equal the line-feed pieces |
| `JsString.ToLowerSpec` | src/utils/wordParser.ts:10 | lower-casing leaves no ASCII capital, turns each capital into the small letter at the same place in the alphabet, and leaves every other character unchanged |
| `JsString.ToLowerConcat` | src/utils/wordParser.ts:10 | lower-casing distributes over concatenation |
| `JsString.ToLowerIdempotent` | src/utils/wordParser.ts:10 | lower-casing twice is lower-casing once |
| `JsString.EndsWithDecomposes` | src/utils/wordParser.ts:11 | `endsWith(suffix)` holds exactly when the string is some string `p` followed by `suffix` |
| `JsString.EndsWithConcat` | src/utils/wordParser.ts:11 | every string followed by `suffix` ends with it |
| `JsArray.Filter` | src/utils/wordParser.ts:13 | `filter` returns no more elements than it is given |
| `JsArray.FilterMembers` | src/utils/wordParser.ts:8 | an element survives `filter` exactly when it is in the input and satisfies the test |
| `JsArray.FilterConcat` | src/utils/wordParser.ts:13 | `filter` distributes over concatenation, so it keeps order |
| `JsArray.Map` | src/utils/wordParser.ts:8 | `map` keeps the length; with `MapSingle` and `MapConcat` this fixes every element |
| `JsArray.MapConcat` | src/utils/wordParser.ts:8 | `map` distributes over concatenation |
| `JsArray.MapSingle` | src/utils/wordParser.ts:8 | `map` of a one-element list is the one-element list of `f` applied to it |

## Left out

- `src/utils/speech.ts` is not part of this model. It is a thin call into the browser's speech-synthesis API and has no logic of its own beyond an availability check.
- `WordProgressPayload` (`src/types/word.ts:10-13`) is not part of this model. The parser does not use it, and it has no behaviour.
- `JsString.IsSpace`: this is the ECMAScript whitespace and line-terminator set as a fixed list. Other platforms' Unicode tables are not modelled.
- `JsString.ToLower`: folds only the ASCII letters, not the full Unicode `toLowerCase`. For the `.csv` suffix test the answer is the same. No non-ASCII character lowers to `.`, `c`, `s` or `v`, and the one that lowers to more than one character (`İ`) ends in a non-ASCII mark. This argument is not proved.
- `WordParser.IsHeader`: compares ASCII letters without case, as the source's `i` flag does without the `u` flag. The non-`u` rule never folds a non-ASCII character onto an ASCII letter.
- Characters are Unicode scalar values, not UTF-16 code units. Lone surrogates in the input cannot be represented.
- `correctCount` is an unbounded integer, not a JavaScript floating-point number.
- `WordParser.ParseWordFile`: the input is an immutable sequence, and the returned array is a fresh sequence. Callers outside the core cannot alias it.
