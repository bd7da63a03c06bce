# findr / snr: the find, replace and preview engine, in Dafny

This project models the core of `@findr/text` and of its older variant in
`snr-text`. Both run a search-and-replace over one line of text in a single
pass. Each match is either *applied* or *previewed*:

- an applied match is replaced by its consumed prefix character and the
  (possibly re-cased) replacement, and nothing is recorded;
- a previewed match keeps its own text and gets one result record, holding a
  context window, an extended context, a key and metadata.

The caller selects the matches to apply by key. Keys come from one counter
(`replaceIndex`) that advances on every match. Records take their
`searchIndex` from a second counter that advances only on previewed matches.

A multi-line driver splits a document on `\n`. It runs the one-line engine
on each line, with the 1-based line number in the metadata and a running
key offset, and rejoins the outputs with `\n`.

Modules, following the source's structure:

- `wrappers.dfy` (`Wrappers`, `Errors`): `Result`/`Option`; the three ways a call throws.
- `js_string.dfy` (`JsString`): JavaScript `slice` (negative indices count from the end), `split("\n")`, `join("\n")`.
- `unicode.dfy` (`Unicode`): the character classes and case maps as parameters; an ASCII instance.
- `pattern.dfy` (`Pattern`): `escapeRegExp`, `evalRegex` (the `/src/flags` reader, with its greedy backtracking), the flag merge, `prepareRegExp` and the three whole-word classes.
- `matching.dfy` (`Matching`): the match list as an oracle (`Matcher`); the splice `String.replace` performs; a concrete left-to-right scan for literal targets, with the whole-word prefix group and lookahead.
- `casing.dfy` (`Casing`): `isUpperCase` and `evaluateCase`.
- `context.dfy` (`Context`): `ctxBefore`, `ctxAfter`, `extCtxBefore`, `extCtxAfter` and the default markers.
- `engine.dfy` (`Engine`): the per-match decision and the scan as a left fold with both counters, generic in the replacement, selection and record builder.
- `findr_text.dfy` (`FindrText`): `findr` and findr-text's `snr`; they differ only in the whole-word class.
- `multiline.dfy` (`MultiLine`): `findrMultiLine` and `snrMultiLine`, plus the corrected key offset.
- `snr_text.dfy` (`SnrText`): snr-text's `snr`: its config defaults, flag rule, first-letter case rule, `pointers`/`buildPointer` and unfiltered record text.
- `examples.dfy` (`Examples`): worked inputs evaluated through the model, including the two findings below.

Regular-expression matching in general is an oracle. It is a function from
the compiled pattern and the line to an ordered, non-overlapping, in-bounds
list of `(offset, prefix group, match group)`. Every theorem about the
engine holds for any such oracle (`ValidMatcher`). Literal targets
(`isRegex: false`) also get a concrete matcher, `Matching.LiteralMatcher`,
which is proved to be a valid oracle.

The three copies of `prepareRegExp`/`escapeRegExp`/`evalRegex` are the same
code, so they are modelled once. They differ only in the whole-word class,
which is a `Boundary` parameter:

- utils.ts's class, as written;
- findr-text `snr.ts`'s Letter-or-Number class;
- snr-text's class, Letter-or-Number before the match and Letter only after it.

In these places the code does something other than what its names or
habits suggest, and the model follows the code:

- In literal mode a RegExp target is escaped through its `.source`, so its
  metacharacters are matched literally (utils.ts:28). Its flags are dropped.
- Capitalising an empty replacement indexes `replaced[0]` and throws
  (findr.ts:89, snr-text snr.ts:108). It is modelled as a failure, not as a
  no-op.
- snr-text adds the `i` flag when `isCaseSensitive` is true (snr-text
  snr.ts:82). This is the opposite of what the name says, and it is modelled
  as written.
- utils.ts's `WordLike` class lacks a backslash (see Findings).

## Model

| member | source | states |
|---|---|---|
| `Pattern.UnescapeEscape` | packages/findr-text/src/utils.ts:27-30 | stripping one backslash per escape pair gives the literal back, so the escaped pattern still denotes the target text |
| `Pattern.EscapeFixedPoints` | packages/findr-text/src/utils.ts:29 | escaping leaves a string unchanged exactly when it contains none of `. * + ? ^ $ { } ( ) \| [ ] \` |
| `Pattern.EscapeConcat` | packages/findr-text/src/utils.ts:29 | escaping works character by character: the escape of a concatenation is the concatenation of the escapes |
| `Pattern.EscapeTarget` | packages/findr-text/src/utils.ts:27-30 | a string or a RegExp's `.source` is escaped, with no flags; any other value fails; unescaping the result gives back the text or the RegExp source |
| `Pattern.Backtrack` | packages/findr-text/src/utils.ts:36 | the closing `/` chosen by `(.+)\/` is the last position, at least two past the opening slash and before the first line terminator, where `/` is followed only by word characters |
| `Pattern.Search` | packages/findr-text/src/utils.ts:36 | the match is at the leftmost opening position where an attempt succeeds; no earlier position succeeds |
| `Pattern.ParseSlashes` | packages/findr-text/src/utils.ts:36-38 | without a literal-syntax match the whole string is the source with no flags; otherwise the source is non-empty, free of line terminators, the flags are word characters, and the string ends in `/source/flags` |
| `Pattern.ParseSlashesReadsLiteral` | packages/findr-text/src/utils.ts:36-38 | on a one-line string with text between its first and last `/` and only word characters after the last, the source is the text between them and the flags are the suffix |
| `Pattern.ParseSlashesRoundTrip` | packages/findr-text/src/utils.ts:36-38 | writing a slash-free source and word flags as `/source/flags` and reading it back gives them back |
| `Pattern.ParseSlashesWhole` | packages/findr-text/src/utils.ts:37 | a string where no `/` is followed only by word characters is taken whole, without flags |
| `Pattern.EvalRegex` | packages/findr-text/src/utils.ts:32-39 | a RegExp passes through with its own source and flags; a string is read by the literal-syntax reader; any other value throws (the reader's meaning is proved by `Pattern.ParseSlashesReadsLiteral` and `Pattern.ParseSlashesRoundTrip`) |
| `Pattern.Dedup` | packages/findr-text/src/findr.ts:36 | `[...new Set(chars)]` keeps exactly the same characters, each once, in order of first appearance |
| `Pattern.FindrFlags` | packages/findr-text/src/findr.ts:23-37 | the merged flags contain `g`; they contain `i` exactly when case is not matched or the extracted flags had `i`; no flag repeats; absent or empty extracted flags give exactly the defaults |
| `Pattern.PrepareRegExp` | packages/findr-text/src/utils.ts:14-25 | the wrapped pattern keeps the source and flags and has a boundary exactly in whole-word mode (what the wrap matches is `Matching.MatchAt`, and its boundary guarantee is `Matching.ScanRespectsBoundary`) |
| `Casing.IsUpperCaseMeaning` | packages/findr-text/src/utils.ts:41-43 | `isUpperCase` holds exactly when every character is fixed by upper-casing and some character is changed by lower-casing; it is false for the empty string |
| `Casing.CapitaliseFirst` | packages/findr-text/src/findr.ts:89 | upper-casing the first character fails exactly on an empty replacement; otherwise only the first character changes |
| `Casing.EvaluateCase` | packages/findr-text/src/findr.ts:82-92 | the four case rules: disabled gives the replacement; an all-caps match upper-cases all of it; otherwise a capitalised match upper-cases only its first character (failing when it is empty); any other match leaves it alone |
| `Casing.EvaluateCaseIdempotent` | packages/findr-text/src/findr.ts:82-92 | re-casing an already re-cased replacement against the same match changes nothing |
| `Casing.AllCapsMirrored` | packages/findr-text/src/findr.ts:85-87 | after an all-caps match the replacement is upper case itself and keeps its length |
| `Context.CtxBefore` | packages/findr-text/src/findr.ts:107 | `slice(pos - ctxLen, pos)`: the `ctxLen` characters before the match when there are that many; otherwise the negative start counts back from the line end, so the window is empty when `ctxLen` is at most the line length, runs from that point to the match when it lands before the match, and is all the text before the match when it passes the line start; a negative `ctxLen` gives an empty window |
| `Context.CtxAfter` | packages/findr-text/src/findr.ts:108-111 | at most `ctxLen` characters starting right after the match (negative `ctxLen`: `Context.CtxAfterNegative`) |
| `Context.CtxAfterNegative` | packages/findr-text/src/findr.ts:108-111 | with a negative `ctxLen` the window after the match is empty, unless the stop index falls below zero and is re-read from the end of the line, which gives the characters from the match's end up to that point |
| `Context.ExtBefore` | packages/findr-text/src/findr.ts:113 | everything before the match |
| `Context.ExtAfter` | packages/findr-text/src/findr.ts:114 | everything after the match except the line's last character |
| `Context.ExtendedContextCoversLine` | packages/findr-text/src/findr.ts:113-114 | the text around an unmarked match, plus the dropped last character, is the whole line |
| `JsString.Split` | packages/findr-text/src/multiline.ts:8 | splitting gives at least one piece and no piece contains the separator |
| `JsString.JoinSplit` | packages/findr-text/src/multiline.ts:8-30 | splitting on `\n` and joining on `\n` gives the document back |
| `JsString.SplitJoin` | packages/findr-text/src/multiline.ts:26-30 | joining separator-free lines and splitting again gives the same lines, as many as were joined |
| `Matching.MatchAt` | packages/findr-text/src/utils.ts:22-24 | one attempt of the wrapped pattern: a non-empty match of the target at its position; an empty prefix group without whole-word mode; with it, the prefix is the line start or one non-word character, and the next character (not consumed) is not a word character (the converse, that every such match is found, is `Matching.MatchAtComplete`) |
| `Matching.MatchAtComplete` | packages/findr-text/src/utils.ts:22-24 | every legal match at a position (the literal; with whole-word mode, the line start or one non-word character before it and no word character after it) makes the attempt succeed, and it returns that very match unless the `^` alternative takes precedence |
| `Matching.CaretPreferred` | packages/findr-text/src/utils.ts:23 | with whole-word mode at the start of a line, the `^` alternative is tried first: a literal standing there with no word character after it is matched with an empty prefix |
| `Matching.NextMatch` | packages/findr-text/src/findr.ts:50 | the next match is the leftmost position at or after the resume point where the pattern matches; none exists exactly when no position matches |
| `Matching.Scan` | packages/findr-text/src/findr.ts:50 | the global scan returns a legal match list (in bounds, ordered, non-overlapping), each entry a real match of the pattern |
| `Matching.ScanComplete` | packages/findr-text/src/findr.ts:50 | the scan misses nothing: every position where the pattern matches is reported or lies inside a span an earlier match consumed; together with `Matching.MatchAtComplete` this covers every legal whole-word or plain match |
| `Matching.ScanRespectsBoundary` | packages/findr-text/src/utils.ts:23 | in whole-word mode every reported match starts the line or follows one consumed non-word character, and is followed by the line end or a non-word character |
| `Matching.LiteralMatcherValid` | packages/findr-text/src/findr.ts:31-50 | the literal scan is a legal matcher for every compiled pattern and line |
| `Matching.SpliceOriginals` | packages/findr-text/src/findr.ts:137 | when every match returns its own text the line is rebuilt unchanged |
| `Matching.SpliceLength` | packages/findr-text/src/findr.ts:50 | the output length is the input length plus the net growth of the replaced spans only |
| `Engine.ResultMetadata` | packages/findr-text/src/findr.ts:129-133 | the record metadata has exactly the caller's keys plus `match` and `searchIndex`; the caller's entries win |
| `Engine.ComputeReplacement` | packages/findr-text/src/findr.ts:60-78 | a string is used as is; a function gets `replaceIndex` as `index` and `tmpPos + auxMatch.length` as `position`; any other value throws (that these arguments reach the function and its return reaches the output is `FindrText.ComputedReplacementArguments`) |
| `Engine.Decide` | packages/findr-text/src/findr.ts:96-105 | one match either is applied (prefix plus cased replacement, no record) exactly when selected, or keeps its own text and yields one record; it fails exactly when its replacement fails |
| `Engine.Fold` | packages/findr-text/src/findr.ts:46-50 | after a scan `replaceIndex` equals the number of matches, one output piece exists per match, and `searchIndex` equals the number of records |
| `Engine.Unselected` | packages/findr-text/src/findr.ts:100-105 | the previewed indices are exactly the unselected ones below the match count, strictly increasing |
| `Engine.UnselectedAll` | packages/findr-text/src/findr.ts:100-105 | with nothing selected the previewed indices are 0, 1, ..., n-1 |
| `Engine.UnselectedNone` | packages/findr-text/src/findr.ts:100-105 | with everything selected no index is previewed |
| `Engine.FoldSucceeds` | packages/findr-text/src/findr.ts:75-77 | the scan succeeds exactly when every match's replacement can be computed |
| `Engine.FoldSpec` | packages/findr-text/src/findr.ts:96-137 | after a scan match k is applied exactly when selected and otherwise kept; the unselected matches get one record each, in match order, the j-th built with `searchIndex` j |
| `FindrText.Compile` | packages/findr-text/src/findr.ts:23-44 | compiling fails exactly on an unsupported target type; the pattern has a boundary exactly in whole-word mode; in regex mode a RegExp keeps its source and a string is read as `/source/flags`, and the extracted flags are merged with the defaults; in literal mode the flags are exactly the defaults |
| `FindrText.ReplaceFails` | packages/findr-text/src/findr.ts:75-77 | a call throws exactly when some match's replacement fails; a replacement of the wrong type throws exactly when there is a match |
| `FindrText.ReplacePieces` | packages/findr-text/src/findr.ts:100-105 | the output is the line with each applied match replaced by its prefix and cased replacement and every other match left as it was |
| `FindrText.ReplaceRecords` | packages/findr-text/src/findr.ts:107-137 | records come only from previewed matches, one each, in match order, the j-th with `searchIndex` j |
| `FindrText.NothingSelectedKeepsSource` | packages/findr-text/src/findr.ts:135-137 | when no match is selected the output equals the input |
| `FindrText.NothingSelectedRecordsAll` | packages/findr-text/src/findr.ts:121-136 | when no match is selected the j-th record is the j-th match's, one per match |
| `FindrText.DefaultSelectionPreviewsAll` | packages/findr-text/src/findr.ts:10 | the default empty key list leaves the line unchanged and records every match |
| `FindrText.SelectAllAppliesEverything` | packages/findr-text/src/findr.ts:100-105 | with `"all"` nothing is recorded and every match becomes its prefix plus its cased replacement |
| `FindrText.ComputedReplacementArguments` | packages/findr-text/src/findr.ts:57-70 | a replacement function is called with the match index and the true position, and its return is spliced in verbatim when case preservation is off |
| `FindrText.ResultKeysAndIndices` | packages/findr-text/src/findr.ts:121-134 | the j-th record names the line, is keyed `buildResultKey(j)` and carries `searchIndex` j plus the caller's metadata |
| `FindrText.ResultContexts` | packages/findr-text/src/findr.ts:107-125 | with the default markers the context is the `ctxLen` characters before the match (nothing when the match starts fewer than `ctxLen` characters in and `ctxLen` is at most the line length), `[-match][+replacement]`, and at most `ctxLen` characters after |
| `FindrText.ResultExtendedContext` | packages/findr-text/src/findr.ts:113-126 | with the default markers the extended context plus the line's last character is the line with `[-match][+replacement]` in place of the match |
| `FindrText.UnsupportedTargetFails` | packages/findr-text/src/findr.ts:31-33 | a target that is neither a string nor a RegExp throws before any scan, in both `findr` and `snr` |
| `FindrText.LiteralModeCompiles` | packages/findr-text/src/findr.ts:31-39 | in literal mode the compiled source unescapes to the target and the flags are exactly the defaults (`i` exactly when case is not matched) |
| `FindrText.PreviewKeepsSource` | packages/findr-text/src/findr.ts:50-139 | a successful call with nothing selected returns its source unchanged, for any matcher and boundary class |
| `FindrText.RunResultsTagged` | packages/findr-text/src/findr.ts:124-134 | every record of a call names its source, is keyed by its position, and carries the caller's metadata and its `searchIndex` |
| `FindrText.SnrIsFindrWithoutWholeWord` | packages/findr-text/src/snr.ts:70-204 | outside whole-word mode findr-text's `snr` returns exactly what `findr` returns |
| `FindrText.SnrWholeWord` | packages/findr-text/src/snr.ts:14-18 | with findr-text's class a whole-word match starts the line or follows one non-letter non-digit, and is followed by the line end or a non-letter non-digit |
| `MultiLine.RunLines` | packages/findr-text/src/multiline.ts:11-27 | the loop yields one output line per input line |
| `MultiLine.EngineFacts` | packages/findr-text/src/findr.ts:107-137 | the one-line call keeps a previewed line, tags its records with source, key, metadata and `searchIndex`, and in a preview records one result per match |
| `MultiLine.RunLinesPerLine` | packages/findr-text/src/multiline.ts:11-22 | output line i is the one-line call on line i alone, with line number i + 1 and the offset of the lines before it |
| `MultiLine.PreviewKeepsLines` | packages/findr-text/src/multiline.ts:17-26 | with nothing selected every output line equals its input line |
| `MultiLine.MultiLinePreviewKeepsSource` | packages/findr-text/src/multiline.ts:5-32 | with nothing selected the multi-line output equals the document |
| `MultiLine.LinesRejoin` | packages/findr-text/src/multiline.ts:26-30 | when no output line contains `\n`, the output has exactly as many lines as the input |
| `MultiLine.LineRecords` | packages/findr-text/src/multiline.ts:13-22 | a line's records come from that line, carry its line number, and are keyed by the caller's builder or by offset plus index |
| `MultiLine.RecordsFromLines` | packages/findr-text/src/multiline.ts:16-25 | every record names a line of the document, carries that line's number over any caller `lineNumber`, and keeps the rest of the caller's metadata |
| `MultiLine.RecordsInLineOrder` | packages/findr-text/src/multiline.ts:23-25 | the line numbers of the records never decrease |
| `MultiLine.RecordsConcatenated` | packages/findr-text/src/multiline.ts:17-25 | the records are exactly the per-line calls' records joined end to end: none before the first line, and line i appends its own call's records (line number i + 1, the running offset) to those of the lines before it |
| `MultiLine.RecordsCallerKeyed` | packages/findr-text/src/multiline.ts:13-14 | a caller key builder receives the record's `searchIndex` and line number |
| `MultiLine.RecordsKeyedInOrder` | packages/findr-text/src/multiline.ts:15 | with the default offset the records are keyed 0, 1, 2, ... across the document |
| `MultiLine.MultiLineRecords` | packages/findr-text/src/multiline.ts:5-32 | for the whole multi-line call: every record comes from its line and carries its line number, line numbers never decrease, caller keys are built from `searchIndex` and line number, and with the source's offset default keys run 0, 1, 2, ... |
| `MultiLine.SnrMultiLineIsFindrMultiLine` | packages/findr-text/src/snr.ts:214-241 | outside whole-word mode `snrMultiLine` returns exactly what `findrMultiLine` returns |
| `MultiLine.RunLinesAgree` | packages/findr-text/src/snr.ts:220-236 | two loops whose one-line calls and match counts agree line by line give the same result |
| `MultiLine.MatchesCounted` | packages/findr-text/src/multiline.ts:15 | the loop's match counter is the sum of the lines' match counts, whatever is selected |
| `MultiLine.ByMatchesOffset` | packages/findr-text/src/multiline.ts:15 | with the corrected offset, line i numbers its matches from the total match count of the lines before it |
| `MultiLine.PreviewSameUnderBothOffsets` | packages/findr-text/src/multiline.ts:15 | in a preview the records of earlier lines are exactly their matches, so both offsets give the same run |
| `MultiLine.ByMatchesPreviewUnchanged` | packages/findr-text/src/multiline.ts:15 | the corrected `findrMultiLine` previews exactly as the original does |
| `SnrText.Resolve` | packages/snr-text/src/snr.ts:68-78 | the defaults are a 10-character window and every switch off; each field the caller gives wins |
| `SnrText.Compile` | packages/snr-text/src/snr.ts:89-101 | compiling fails exactly on an unsupported target; in whole-word mode the boundary is snr-text's class; in literal mode the source unescapes to the target; in regex mode a RegExp keeps its source and a string is read as `/source/flags`, with the extracted flags merged into snr-text's defaults |
| `SnrText.SnrTextFlags` | packages/snr-text/src/snr.ts:80-95 | the flags always contain `g` and never repeat; in literal mode `i` is present exactly when `isCaseSensitive` is true |
| `SnrText.FlagsMerge` | packages/snr-text/src/snr.ts:93-95 | the merged flags contain `g`, have no duplicates, and contain `i` exactly when `isCaseSensitive` holds or the extracted flags had it |
| `SnrText.MatchCase` | packages/snr-text/src/snr.ts:107-134 | the replacement changes only when `shouldMatchCase` holds and the match starts upper case; then only its first character is upper-cased, and an empty one fails |
| `SnrText.NoAllCapsRule` | packages/snr-text/src/snr.ts:107-108 | whatever the match's case, at most the first character of a non-empty replacement changes |
| `SnrText.ReplaceFails` | packages/snr-text/src/snr.ts:136-138 | a call throws exactly when some match's replacement fails |
| `SnrText.ComputedArguments` | packages/snr-text/src/snr.ts:121-131 | a replacement function gets `replaceIndex` as `index` and `pos + auxMatch.length` as `position`, and without `shouldMatchCase` its return is spliced in verbatim |
| `SnrText.ReplacePieces` | packages/snr-text/src/snr.ts:143-149 | a match whose pointer is selected (or `"all"`) becomes its prefix plus its cased replacement; any other match is left as it was |
| `SnrText.ReplaceRecords` | packages/snr-text/src/snr.ts:151-171 | the unselected matches get one record each, in match order, the j-th with `searchIndex` j |
| `SnrText.ResultPointers` | packages/snr-text/src/snr.ts:157-168 | the j-th record is keyed `buildPointer(j)` and carries `searchIndex` j plus the caller's metadata |
| `SnrText.NoPointersKeepsSource` | packages/snr-text/src/snr.ts:61-171 | the default empty `pointers` leaves the text unchanged |
| `SnrText.AllPointersRecordNothing` | packages/snr-text/src/snr.ts:147-149 | `"all"` records nothing |
| `SnrText.ResultText` | packages/snr-text/src/snr.ts:151-161 | with a window that fits, a record's text is the line from `ctxLen` before the raw offset to `ctxLen` after the consumed span, with the cased replacement inserted right after the span |
| `SnrText.WholeWordBoundary` | packages/snr-text/src/snr.ts:11-13 | in whole-word mode the prefix is the line start or one non-letter non-digit, but only a letter is excluded after the match |
| `Examples.SelectingFirstKeyAppliesBoth` | packages/findr-text/src/multiline.ts:15 | as written, selecting key 0 in `"a\na"` turns the document into `"b\nb"` |
| `Examples.PreviewTwoLines` | packages/findr-text/src/multiline.ts:5-32 | previewing `"a\na"` returns it unchanged with two records |
| `Examples.PreviewKeysTwoLines` | packages/findr-text/src/multiline.ts:15 | the preview of `"a\na"` keys its two records 0 and 1 |
| `Examples.ByMatchesSelectsFirstOnly` | packages/findr-text/src/multiline.ts:15 | with the corrected offset, key 0 gives `"b\na"` and the remaining record keeps key 1 |
| `Examples.FindrCaseAllCaps` | packages/findr-text/src/findr.ts:85-87 | `HELLO` turns the replacement `hi` into `HI` |
| `Examples.FindrCaseCapitalised` | packages/findr-text/src/findr.ts:88-90 | `Hello` turns `hi` into `Hi`, and an empty replacement throws |
| `Examples.FindrCaseLower` | packages/findr-text/src/findr.ts:91 | `hello` leaves `hi` alone |
| `Examples.SnrTextCaseRule` | packages/snr-text/src/snr.ts:107-119 | in snr-text `HELLO` turns `hi` into `Hi` only, and only with `shouldMatchCase` |
| `Examples.QuickContext` | packages/findr-text/src/findr.ts:107-111 | in `the quick fox` with a 3-character window the context is `he [-quick][+fast] fo` |
| `Examples.QuickExtendedContext` | packages/findr-text/src/findr.ts:113-114 | the extended context is `the [-quick][+fast] fo`, without the final `x` |
| `Examples.UtilsClassMatchesInsideWord` | packages/findr-text/src/utils.ts:11 | with utils.ts's class, whole-word `cat` is found inside `tomcat`, consuming `m` as its prefix |
| `Examples.UtilsClassReplacesInsideWord` | packages/findr-text/src/utils.ts:11 | so `findr` rewrites `tomcat` to `tomdog` in whole-word mode |
| `Examples.SnrClassRespectsWord` | packages/findr-text/src/snr.ts:16 | with the Letter-or-Number class nothing is found in `tomcat` and the line is unchanged |

## Left out

- General regular-expression semantics (xregexp compilation, Unicode property escapes, `String.replace`'s scan over an arbitrary pattern) are an oracle. Only literal targets get a concrete matcher.
- Unicode case mapping and the Letter, Number and Uppercase_Letter tables are parameters (`CharClasses`). An ASCII instance serves the examples. Case mapping is per character, so the few characters whose upper case is longer than one character are not modelled.
- Under the `i` flag, the literal matcher compares upper-cased characters. The boundary classes are not case-folded.
- The inner `match.replace(finalRgx, r)` (findr.ts:94, snr-text snr.ts:141) is taken to return the replacement verbatim. This leaves out `$&`/`$1` expansion, a pattern that matches its own match more than once or not at all, and the fact that snr-text calls its replacement function only from inside that inner replace.
- Capture groups (`groups`, `namedGroups`) passed to a replacement function are not modelled.
- `console.warn` (findr.ts:28-29) is a side effect only.
- The `isRegex === "true"` string coercion (findr.ts:26) is dynamic typing; `isRegex` is a boolean here.
- An empty literal target, which the source would match at every position, yields no matches in the literal matcher.
- `Matching.ValidMatcher`: the oracle reports only non-empty matches, so regex patterns with zero-width matches (`/a*/`, `/x?/`, `/(?=a)/`) are not modelled. For those, a global `replace` records a result and inserts the replacement at each empty match.
- `replacementKeys` given as a string other than `"all"` (where `includes` is a substring test) is not modelled; selections are `"all"` or a list of keys.
- snr-text's array-valued pointers are compared by identity in `includes`. Keys here are numbers or strings compared by value.
- Indices count characters, not UTF-16 code units.
- The `\w\d` fallback class used when xregexp is not a function (utils.ts:3-11) is not modelled; xregexp is assumed present.
- Flag strings are not validated; an invalid flag that would make the RegExp constructor throw is not modelled.
- snr-text's `{...defaultConfig, ...config}` with a field explicitly set to `undefined` is read as "not given".
- `MultiLine.RunLines`: its contract only fixes the number of output lines; what each line holds is stated by `MultiLine.RunLinesPerLine`.

## Findings

| source | as written | input that shows it | evidently intended | confidence | as-written member | corrected member |
|---|---|---|---|---|---|---|
| packages/findr-text/src/multiline.ts:15 | the default key offset of a line is the number of results recorded on earlier lines; in an apply run an applied match records nothing, so the keys of later lines shift down | document `"a\na"`, target `a`, replacement `b`, keys `[0]`: the preview keyed the two matches 0 and 1, but the apply run gives the second line offset 0, so key 0 selects both and the output is `"b\nb"` | the offset counts the matches of earlier lines, so a key taken from a preview selects the same match in the apply run | medium, not executed | `Examples.SelectingFirstKeyAppliesBoth` | `MultiLine.ByMatchesOffset` |
| packages/findr-text/src/utils.ts:11 | `WordLike` is `p{Letter}\p{Number}`, without a backslash before the first `p`, so the class holds the seven characters `p { L e t r }` and the Number category instead of all letters | whole-word `cat` in `tomcat`: `m` is not in the class, so `(^\|[^…])` consumes it and `findr` returns `tomdog` | the Letter-or-Number class that findr-text's own `snr.ts:16` spells with both backslashes | high, not executed | `Examples.UtilsClassReplacesInsideWord` | `FindrText.SnrWholeWord` |

The first finding's corrected loop is `MultiLine.FindrMultiLineByMatches`.
Besides `MultiLine.ByMatchesOffset`, it is backed by
`MultiLine.ByMatchesPreviewUnchanged` (its preview is identical to the
original's) and by `Examples.ByMatchesSelectsFirstOnly` (key 0 now selects
only the first match). The second finding's corrected class is
`Pattern.SnrWordLike`, the class findr-text's `snr` uses.
`FindrText.SnrWholeWord` proves that it keeps whole words, and
`Examples.SnrClassRespectsWord` shows that it finds nothing in `tomcat`.
`findr` and `findrMultiLine` stay modelled as written. The corrected
behaviour sits beside them, and outside whole-word mode the two coincide
(`FindrText.SnrIsFindrWithoutWholeWord`).
