# Transcript column validators, modelled in Dafny

This project models the two pure modules of a validator for language-development
transcript files.

- `schema.js` holds one validator per transcript column: `LRB` (which hands
  made a gesture), `Time` (a time stamp), `Gtype` (gesture type), `GSRel`
  (gesture-speech relation), `Key` and `Utts` (utterances). Each one takes a
  cell's value. It answers `undefined` when the value is empty or acceptable,
  and otherwise gives one diagnostic of the form ``<column> = `<value>` <reason>``.
- `patterns.js` builds the gesture-type and gesture-speech-relation grammars
  from named code groups, and `test` asks whether a value is in a grammar.

Both modules are pure, so the model uses datatypes, functions, predicates and
lemmas. It has no classes and no methods. Every regular expression of the source
is written as a predicate over `string`. A validator is a function returning
`Option<string>`: `None` is JavaScript's `undefined`, and `Some(d)` carries the
diagnostic `d`.

Files:

- `text.dfy` (module `Text`): `Option`, the character classes `\s`, `\d`,
  `[a-z]` and `[A-Z]`, substring tests and `Join`.
- `grammar.dfy` (module `Grammar`): the two regular-expression shapes the grammars
  are built from. One is a Kleene star over literal units. The other is the anchored
  composite `^(S)((;|/)(S))*$`, called `Chain`. This module also proves that, when
  no code contains a separator, the composite is the same as "split on `;` and `/`,
  every segment a code".
- `patterns.dfy` (module `Patterns`): `this.code`, `single`, `complex` and
  `test` for both taxonomies.
- `schema.dfy` (module `Schema`): `invalidReply` and the six validators, with
  lemmas characterising what each accepts and which reason it gives. It also
  compares the code lists of `schema.js` with the grammars of `patterns.js`.
- `exports.dfy` (module `SchemaExports`): the `module.exports` map from column
  key to validator.

Where the tests in `test.js` disagree with `schema.js`, the model follows
`schema.js`. The tests expect lower-case column names such as
``lrb = `X` ...`` and accept `Hello World` in one branch of a merge conflict.
`schema.js` writes `LRB` and refuses capitals in `Utts`.

## Model

| member | source | states |
|---|---|---|
| Schema.InvalidReply | schema.js:6-10 | the diagnostic is the column, ` = `, the value between backticks, a space and the reason |
| Schema.InvalidReplyReason | schema.js:6-10 | two diagnostics for one column and value are equal exactly when their reasons are |
| Schema.HandListIffAlternates | schema.js:25 | `^[LRB](?:\+[LRB])*$` is the language of odd-length values with a hand at every even index and `+` at every odd one |
| Schema.Lrb | schema.js:21-29 | `lrb` passes exactly the empty value and the alternating hand lists, and any other value gets `is an invalid value` under `LRB` |
| Schema.RangePatterns | schema.js:42-50 | on `DD:DD:DD`, `^2[4-9]:` means hours 24–29, `^\d\d:[6-9]` means minutes ≥ 60, and `:[0-5]\d$` means seconds ≤ 59 |
| Schema.Time | schema.js:34-74 | `time` passes exactly the empty value and the `DD:DD:DD` values whose hours are not 24–29 and whose minutes and seconds are ≤ 59 |
| Schema.TimeRangeOrder | schema.js:42-52 | range problems are reported hours first, then minutes, then seconds, with the source's reasons |
| Schema.TimeOffShape | schema.js:53-72 | every non-empty value off the `DD:DD:DD` shape is refused, for the first that applies of: white space, `^\d:` (two digits for hours), `^\d\d:\d:` (minutes), `:\d$` (seconds); failing all four, `required format is HH:MM:SS` |
| Schema.TimeIntended | schema.js:42-44 | corrected `time`: passes exactly the empty value and the `DD:DD:DD` values with hours ≤ 23 and minutes and seconds ≤ 59; hours ≥ 24 get `out of range for hours` |
| Schema.TimeAcceptsThirtyHours | schema.js:42-44 | as written `30:00:00` is accepted; the corrected `time` refuses it for its hours |
| Schema.TimeIntendedAgrees | schema.js:34-74 | the corrected `time` agrees with the source on every value except `DD:DD:DD` with hours 30–99 |
| Schema.DottedShape | schema.js:80 | a code made of letter words joined by single dots starts and ends with a letter, has no two non-letters side by side, and has no separator |
| Schema.GtypeCodesDotted | schema.js:80 | each of the 19 `gtype` codes is letter words joined by single dots |
| Schema.GsrelCodesDotted | schema.js:135 | each of the 18 `gsrel` codes is letter words joined by single dots |
| Schema.TemplateFramed | schema.js:135 | a value that matches a dotted code, with each dot as a wildcard, still starts and ends with a letter and has no two non-letters side by side |
| Schema.CodesFramed | schema.js:135 | every listed code, and every value the wildcard templates match, is framed by letters; the listed codes use only letters and dots |
| Schema.ChainFramed | schema.js:135 | a composite of framed codes is framed: each separator sits between two letters |
| Schema.ChainAlphabet | schema.js:80 | a composite of letter-and-dot codes uses only letters, dots and separators |
| Schema.FirstDefect | schema.js:82-124 | the cascade's early return: `None` exactly when the value shows no listed defect; otherwise a defect it shows that no earlier one precedes |
| Schema.FramedDefects | schema.js:86-124 | a value framed by letters begins and ends with no `;`, `/` or `.` and contains no `//`, `;;` or `..` |
| Schema.AlphabetDefects | schema.js:82-112 | a value of letters, dots and separators has no white space and no digit |
| Schema.CodeChainShowsNoDefect | schema.js:80-126 | no composite of listed codes shows any defect the cascade looks for |
| Schema.CodeReason | schema.js:82-126 | the reason for a refused code value is `is an invalid entry` exactly when it shows none of the eleven defects; otherwise it is the reason of a defect it shows that no earlier defect in the cascade precedes |
| Schema.ShowsNoDefect | schema.js:82-124 | a value framed by letters and over letters, dots and separators shows none of the defects |
| Schema.Gtype | schema.js:76-129 | `gtype` passes exactly the empty value and the values whose `;`/`/` segments are all among the 19 codes |
| Schema.GtypeReportsFirstDefect | schema.js:80-126 | a value showing a defect is refused by `gtype` with the reason of the first defect it shows |
| Schema.GtypeFallback | schema.js:126 | a non-empty value that does not split into listed codes and shows no defect is refused with `is an invalid entry` |
| Schema.GsrelReportsFirstDefect | schema.js:135-181 | despite the wildcards, a value with an edge or doubled separator is refused by `gsrel`, with its first defect's reason |
| Schema.Gsrel | schema.js:131-184 | `gsrel` passes exactly the empty value and the composites of codes matching a listed code with each dot a one-unit wildcard; whatever non-empty value it passes begins and ends with a letter and has a letter beside every separator |
| Schema.GsrelRefusedReason | schema.js:135-181 | a non-empty value outside the as-written grammar that shows a defect is refused with the reason of the first defect it shows, white space and digits included |
| Schema.GsrelFallback | schema.js:181 | a non-empty value outside the as-written grammar that shows no defect is refused with `is an invalid entry` |
| Schema.GsrelRefusesAstralWildcard | schema.js:135 | a character outside the Basic Multilingual Plane, two UTF-16 units, cannot fill the wildcard of `ADD.err`: `ADD😀err` is refused with `is an invalid entry` |
| Schema.GsrelIntended | schema.js:131-184 | corrected `gsrel`, dots escaped: passes exactly the empty value and the values whose segments are all among the 18 codes; whatever it passes, the source passes |
| Schema.GsrelIntendedWithin | schema.js:135 | the escaped grammar's language lies inside the as-written one |
| Schema.GsrelIntendedReportsFirstDefect | schema.js:135-181 | the corrected `gsrel` refuses a value showing a defect with the reason of the first one |
| Schema.GsrelAcceptsSpace | schema.js:135-139 | as written `ADD err` is accepted; the corrected `gsrel` refuses it with `entry cannot contain space` |
| Schema.GsrelAcceptsDigit | schema.js:135-167 | as written `ADD1err` is accepted; the corrected `gsrel` refuses it with `entry cannot contain numeric characters` |
| Schema.GsrelIntendedRefusesDigit | schema.js:165-167 | once the dots are escaped, a value between letters with a digit and no white space is refused for the digit |
| Schema.FirstDefectNumeric | schema.js:137-167 | a value between letters with a digit and no white space has the digit as its first defect |
| Schema.FirstDefectSkip | schema.js:82-124 | defects a value does not show can be dropped from the front of the cascade |
| Schema.GsrelWildcardsBeyondPatterns | schema.js:135 | `ADD err`, `ADD1err` and `Exb` pass the as-written `gsrel` grammar, and `patterns.gsrel.test` refuses all three |
| Schema.GtypeCodeInPatterns | patterns.js:9-20 | each of the 19 `gtype` codes is in the single-code language of `patterns.gtype` |
| Schema.GtypeWithinPatterns | schema.js:80 | every non-empty value `gtype` accepts, `patterns.gtype.test` accepts |
| Schema.PatternsBeyondGtype | patterns.js:11 | `DP.nl.nl` passes `patterns.gtype.test` but `gtype` refuses it |
| Schema.GtypeRefusesLongCode | schema.js:80 | a value with no separator that is longer than every listed code is refused by `gtype` |
| Schema.GsrelCodeInPatterns | patterns.js:42-55 | each of the 18 `gsrel` codes, dots escaped, is in the single-code language of `patterns.gsrel` |
| Schema.GsrelIntendedWithinPatterns | patterns.js:58 | every non-empty value the corrected `gsrel` accepts, `patterns.gsrel.test` accepts |
| Schema.KeyTokensIff | schema.js:190 | the token grammar is the language of values where every character is a key character or a `c` right after an `x` |
| Schema.KeyTokensWellFormed | schema.js:190 | a run of key tokens has every character a key character or a `c` after an `x` |
| Schema.WellFormedKeyTokens | schema.js:190 | a value whose characters are all key characters or a `c` after an `x` is a run of key tokens |
| Schema.Key | schema.js:186-203 | `key` passes exactly the empty value and the well-formed keys |
| Schema.KeyReasons | schema.js:192-198 | a value with white space is refused for the space; otherwise one with `0` is refused for the `0` |
| Schema.KeyFallback | schema.js:200 | a malformed key with no white space and no `0` is refused with `is an invalid entry` |
| Schema.NotKeyChar | schema.js:190-197 | white space and `0` are neither a key token nor the `c` of `xc` |
| Schema.MarkProblemReasons | schema.js:219-238 | the `-`/`#` check passes exactly when the mark is absent, or `---` occurs somewhere and `----` nowhere; it names the source's two reasons |
| Schema.MarkReasonTexts | schema.js:219-238 | the mark reasons are `entry cannot contain - or --`, `entry can only contain ---`, `entry cannot contain # or ##` and `entry can only contain ###` |
| Schema.Utts | schema.js:205-248 | `utts` passes exactly the empty value and the values over `[-#a-z\s]` with no white space at either end that, when they hold a dash, contain `---` and no `----`, and likewise for `#` |
| Schema.UttsReasons | schema.js:210-237 | inside `[-#a-z\s]` a value is refused for the first that applies, in this order: white space at the start, white space at the end, a dash without `---`, a `----`, then (once the dash check passes) a `#` without `###`, a `####`, each with the source's reason text |
| Schema.UttsFallback | schema.js:245 | a non-empty value outside `[-#a-z\s]` with no capital letter is refused with `is an invalid entry` |
| Schema.UttsCapitals | schema.js:241-243 | a value with a capital letter is refused with `entry cannot contain capital letter` |
| Schema.RunStart | schema.js:219-238 | every mark belongs to a run with a definite first position |
| Schema.RunsOfThreeNoFour | schema.js:221 | when every run of a mark is three long, `----` occurs nowhere |
| Schema.RunsOfThreeHasRun | schema.js:220 | when every run of a mark is three long and the mark occurs, `---` occurs |
| Schema.MarkProblemIntended | schema.js:219-238 | corrected mark check: passes exactly when every run of the mark is three long; whatever the source's check refuses, it refuses with the same reason |
| Schema.UttsIntended | schema.js:205-248 | corrected `utts`: passes exactly the empty value and the values over the alphabet, without white space at either end, whose runs of `-` and of `#` are all three long; whatever it passes, the source passes |
| Schema.UttsAcceptsLoneDash | schema.js:219-228 | as written `a --- b - c` is accepted; the corrected `utts` refuses it with `entry cannot contain - or --` |
| Schema.LrbCases | test.js:95-119 | the `lrb` test values: `""`, `L`, `L+L`, `L+R`, `L+R+B` pass; `X`, ` L`, `LL`, `L+X`, `L + R` are refused |
| Schema.TimeAcceptedCases | test.js:127-129 | `00:00:00`, `01:00:00`, `23:59:59`, and also `30:00:00`, are accepted |
| Schema.TimeRangeCases | test.js:140-154 | `24:00:00`, `00:60:00` and `00:00:60` are refused for hours, minutes and seconds respectively |
| Schema.TimeFormatCases | test.js:155-204 | `0`, `00:00`, `1:01:01`, `01:1:01` and `01:01:1` get the format reason or the two-digit reason for their field |
| Schema.TimeSpaceCases | test.js:130-139 | a leading or trailing space is refused with `entry cannot contain space` |
| Schema.GtypeCodeCases | test.js:211-216 | `C`, `DP`, `G`, `S`, `DSDP` and `R.m.pp` are accepted |
| Schema.GtypeJoin | schema.js:80 | two accepted `gtype` values joined by `;` or `/` are accepted |
| Schema.GtypeCompositeCases | test.js:213-214 | `C/DP` and `C;DP` are accepted |
| Schema.GtypeLongCompositeCase | test.js:215 | `C/DP;G/S/DSDP` is accepted |
| Schema.GtypeLongCompositeTail | test.js:215 | `DP;G/S/DSDP` is accepted |
| Schema.GtypeBeginCase | test.js:237-241 | `;C/DP` is refused with `entry cannot begin with ;` |
| Schema.GtypeSpaceCase | test.js:232-236 | `C/DP ` is refused with `entry cannot contain space` |
| Schema.GtypeInvalidLetters | test.js:217-226 | `Z` and `A` are refused with `is an invalid entry` |
| Schema.GtypeInvalidPair | test.js:227-231 | `C/GG` is refused with `is an invalid entry` |
| Schema.GsrelDigitsCase | test.js:338-342 | `X/43/E` is refused with `entry cannot contain numeric characters`, the text at schema.js:166 (test.js expects `entry cannot contain numbers`; the model follows schema.js) |
| Schema.GsrelSpaceCase | test.js:308-312 | `X;E ` is refused with `entry cannot contain space`, even by the as-written grammar |
| Schema.KeyAcceptedCases | test.js:363-364 | `xcx` and `M12F2` are accepted |
| Schema.KeyDigitsCase | test.js:365 | `123456789` is accepted |
| Schema.KeyRefusedCases | test.js:376-385 | `Z` and `P` are refused with `is an invalid entry` |
| Schema.KeyDoubleCCase | schema.js:190-200 | `xcc` is refused with `is an invalid entry`: a `c` must follow an `x` |
| Schema.UttsAcceptedCases | test.js:391-392 | `a` and `hello` are accepted |
| Schema.UttsTwoWordsCase | test.js:395 | `hello world` is accepted |
| Schema.UttsRunCases | test.js:393-394 | `---` and `###` are accepted |
| Schema.UttsEdgeSpaceCases | test.js:447-456 | ` hello` gets `entry cannot begin with space` and `hello ` gets `entry cannot end with space` |
| Schema.UttsShortRunCases | test.js:471-490 | `-` and `--` get `entry cannot contain - or --`; `#` and `##` get `entry cannot contain # or ##` |
| Schema.UttsLongRunCases | test.js:491-500 | `----` gets `entry can only contain ---` and `####` gets `entry can only contain ###` |
| Schema.UttsMarkerCase | schema.js:209-245 | `pollo@f` is refused with `is an invalid entry` |
| Schema.UttsCapitalCase | schema.js:241-243 | `Hello World` is refused with `entry cannot contain capital letter` |
| Patterns.Single | patterns.js:16-55 | `single` is the groups' alternations joined by a bar in the listed order, as exact text for both taxonomies |
| Patterns.Code | patterns.js:9-47 | `this.code` names each group once and no group's alternation is empty |
| Patterns.Complex | patterns.js:23-58 | `complex` is the single text anchored at both ends, then repeated any number of times after a `;` or `/`, as exact text for both taxonomies |
| Patterns.SingleCodeGroups | patterns.js:16-55 | a single code is exactly a value in one of the taxonomy's groups |
| Patterns.CodesSeparatorFree | patterns.js:9-47 | no code of either taxonomy is empty or contains `;` or `/` |
| Patterns.Test | patterns.js:23-68 | `test` passes exactly the values that split on `;` and `/` into single codes |
| Patterns.TestJoin | patterns.js:23 | two values that pass `test`, joined by `;` or `/`, pass `test` |
| Patterns.TestRejoin | patterns.js:23 | any number of single codes joined by any mix of `;` and `/` pass `test` |
| Patterns.TestWellSeparated | patterns.js:23 | a value passing `test` is non-empty, neither begins nor ends with a separator, and has no two separators side by side |
| Patterns.DeicticsSpelled | patterns.js:11 | the deictics group is `DS`, `DSDP`, or `DP` followed by some number of `.nl` |
| Patterns.AddErrSpelled | patterns.js:44 | a value starting `ADD.err` is in the `add` group exactly when it is `ADD.err` followed by some number of `.s` |
| Patterns.TestOneCode | patterns.js:16-58 | a value without `;` or `/` passes `test` exactly when it is in one of the groups |
| Patterns.GtypeAcceptsDpRuns | patterns.js:11 | `DP` followed by any number of `.nl` passes `gtype.test` |
| Patterns.GtypeAcceptsRepRuns | patterns.js:12 | `R.a`, `R.d` or `R.m` followed by any run of `.e` and `.pp` passes `gtype.test` |
| Patterns.GtypeTestRejections | test.js:20-29 | `DP.n` and `DS.nl` fail `gtype.test` |
| Patterns.GtypeTestRejectsRepMet | test.js:34-38 | `R.a.met` fails `gtype.test` |
| Patterns.RepsTailNotMet | patterns.js:12 | `.met` is not a run of `.e` and `.pp` |
| Patterns.GsrelAcceptsErrRuns | patterns.js:44 | `ADD.err` followed by any number of `.s` passes `gsrel.test` |
| Patterns.GsrelTestCodes | test.js:53-65 | `DA` and `ADD.nr` pass `gsrel.test` |
| Patterns.GsrelTestNearCodes | test.js:60-75 | `ADD.er`, `ADD.nq` and `ADD.n` fail `gsrel.test` |
| Patterns.GsrelTestXE | test.js:76 | `X;E` passes `gsrel.test` |
| Patterns.GsrelTestThreeCodes | test.js:77 | three codes joined by two separators pass `gsrel.test`, `DA/MS;X` among them |
| Patterns.GsrelTestMixed | test.js:78-82 | `ADD/ADD.met;E.b;RF.a/MS` passes `gsrel.test` |
| Grammar.ChainIffSegmented | patterns.js:23 | when no code contains a separator, the anchored composite of S passes exactly the values whose `;`/`/` segments are all in S |
| Grammar.SplitRejoin | patterns.js:23 | the segments and separators of a value put back together give the value |
| Grammar.ChainWellSeparated | patterns.js:23 | over non-empty separator-free codes, a composite has no empty segment and no separator at either end |
| Grammar.ChainJoin | patterns.js:23 | two composites joined by a separator form a composite |
| Grammar.ChainRejoin | patterns.js:23 | codes joined by any mix of separators form a composite |
| Grammar.ChainMonotone | patterns.js:23 | a composite over a smaller code language is a composite over a larger one |
| Grammar.StarOneUnit | patterns.js:11 | a star over one unit `(u)*` is exactly the repetitions of `u` |
| Grammar.StarNoSep | patterns.js:11-12 | a star over separator-free units is separator-free |
| SchemaExports.LookupIff | schema.js:250-259 | a name finds a column exactly when it is that column's exported key |
| SchemaExports.Name | schema.js:250-259 | each column's exported key finds that column again: the keys are distinct |
| SchemaExports.Check | schema.js:24-208 | an absent or empty cell passes every column |
| SchemaExports.CheckDiagnostic | schema.js:6-10 | every diagnostic starts with the column's exported key, ` = `, the value between backticks and a space |
| SchemaExports.CheckIntended | schema.js:42-238 | the corrected `time`, `gsrel` and `utts` only refuse more: whatever they pass, the source passes |

## Left out

- The JavaScript `RegExp` engine and `new RegExp`: each grammar's language is written as a predicate. `Patterns.Complex` keeps the pattern text, and `test` is membership in the language rather than a regex run.
- `test` as a repeatable call: the model is a pure predicate, so it gives the same answer on every call. The regex state (`lastIndex`) that a `g` or `y` flag would bring is not modelled, because the source uses neither flag.
- The full Unicode extent of `\s` and of the line terminators: they are fixed character sets in `Text.IsSpace` and `Text.IsLineTerminator`.
- Schema.GsrelCode: a string is a sequence of Unicode characters, not of UTF-16 code units. A wildcard takes one character of the Basic Multilingual Plane, which is exact for every representable string. A lone surrogate, which JavaScript would let fill a wildcard, cannot be written in the model.
- SchemaExports.Lookup: only the object's own six keys are modelled. Inherited members such as `toString` or `constructor`, which `schema[name]` would find, are not.
- Non-string inputs and JavaScript truthiness: a value is a string, and an absent cell is `None` in `SchemaExports.Check`. `0`, `false` and `null` are not modelled.
- The `@f`/`@l` marker rules and the proper-noun capital rule: `schema.js` does not implement them. `Utts` refuses `pollo@f` and `Hello World`, as the source does.
- `test.js` as code: its merge-conflict markers, its lower-case `check.lrb` style names and its `entry cannot contain numbers` reason are not modelled. Its test values appear only as case lemmas.
- Batch validation of whole records through an outside library: that library is not part of this model.
- The documentation link in `schema.js`'s comments.
- Schema.GsrelReportsFirstDefect: it concludes refusal from the defect alone only for an edge or doubled-separator defect, because a value whose only defect is white space or a digit can still match the wildcards and pass (see Findings). For every value that the grammar does refuse, Schema.GsrelRefusedReason gives the first defect's reason, white space and digits included.

## Findings

| source | as written | input that shows it | evidently intended | confidence | as-written member | corrected member |
|---|---|---|---|---|---|---|
| schema.js:42 | `^2[4-9]:` treats only hours 24–29 as out of range, so a `DD:DD:DD` value with hours 30–99 is accepted | `30:00:00` | every hour above 23 is out of range | not executed | Schema.TimeAcceptsThirtyHours | Schema.TimeIntended |
| schema.js:219-238 | the dash and hash checks only ask that `---` occur somewhere and `----` nowhere, so a lone `-` or `--` beside a `---` passes | `a --- b - c` | every run of `-` or `#` is exactly three long | not executed | Schema.UttsAcceptsLoneDash | Schema.UttsIntended |
| schema.js:135 | the dots in `ADD.err`, `E.b` and the other codes are unescaped, so each matches any one UTF-16 unit but a line terminator, including white space and digits | `ADD err`, `ADD1err` | the dots are literal, as in the `gtype` grammar at schema.js:80 | not executed | Schema.GsrelAcceptsDigit | Schema.GsrelIntended |

`Schema.GsrelAcceptsSpace` shows the `schema.js:135` finding for `ADD err`.
`Schema.GsrelIntendedReportsFirstDefect` and `Schema.GsrelIntendedWithinPatterns` prove the intended behaviour. The corrected grammar gives every defect's reason, and it accepts nothing that `patterns.gsrel.test` refuses.
`SchemaExports.Check` keeps the as-written validators. `SchemaExports.CheckIntended` uses the corrected `Time`, `GSRel` and `Utts`.
