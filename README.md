# ExcelMazRegex aggregation functions in Dafny

This project models the three list-building worksheet functions of the
ExcelMazRegex add-in, together with the argument coercions they share:

- `RegexMatchGroups` lists the names of the capture groups that succeeded, match by match.
- `RegexMatches` lists the values of the successful matches, or their replacement
  expansions, joined by a delimiter.
- `RegexGroupMatches` counts, per group column of the first match, how many matches
  that group succeeded in. It then lists the columns that succeeded at least once,
  optionally renaming them with a name transform.

The regular-expression engine is not modelled. A call receives the engine's
matches as a `seq<Match>`, each holding its success flag, its value and its
groups (`name`, `success`). `Match.Result` and `Regex.Replace` are
function-typed parameters. A worksheet argument typed `object` is an
`ExcelArg` (`Missing | Bool | Num | Str | Other`). A null .NET string is
`None` of an `Option<string>`. A function returns an `Outcome`: text, `#VALUE!`,
`#N/A`, or `Fault` when the body raises an exception.

Each function is a `method` that follows the source loop for loop. It uses a
mutable seen set, countdown counters, string accumulators, and, for
`RegexGroupMatches`, the `gnames`, `gmatched` and `gstripped` arrays. Each
method is proved equal to a specification function (`MatchGroupsResult`,
`MatchesResult`, `GroupMatchesResult`). The documented properties are lemmas
about those functions.

The countdown counters are C# `int`s. `Dec` wraps from the minimum to the maximum.
`Budget(c)` is the number of items that `if (--c == 0) break;` lets through: `c`
itself when positive, and otherwise the 2^32 + c steps it takes to wrap round to
zero. That is why zero or a negative number means "unlimited".

Modules:

- `ExcelValues` (`excel_values.dfy`): the shared values, the counters and the
  delimited-list serializer. `Prefixed` is the accumulator after a sequence of
  `acc += delim + token`. `Join` is what the final `Substring` leaves of it.
- `Coercion` (`coercion.dfy`): the `IncludeDuplicates` and `MaxGroups` coercions,
  with `int.TryParse` for the text case.
- `GroupWalk` (`group_walk.dfy`): the group-name walk that both `RegexMatchGroups`
  and `RegexGroupMatches` use. It keeps a ceiling and a seen set, and breaks
  before it adds the name to the set.
- `MatchGroups` (`match_groups.dfy`), `Matches` (`matches.dfy`) and
  `GroupMatches` (`group_matches.dfy`): one module per worksheet function.

Where the code and its own comments disagree, the model follows the code:

- The comments at src/ExcelMazRegex.cs:211 and src/ExcelMazRegex.cs:341 say
  that a call without a match returns `#N/A`. In the code, a call with zero
  matches behaves as follows:
  - `RegexMatchGroups` faults, because `"".Substring(1)` raises.
  - `RegexGroupMatches` faults, because `rmc[0]` raises.
  - Only `RegexMatches` returns `#N/A`.
- `RegexMatchGroups` also faults when no processed match contributes a token.
  An example is a pattern with capture groups, none of which took part in any
  match. A first match that lists nothing is harmless when a later match lists
  a name: `[m1(group 0 ok, group 1 failed), m2(group 0 ok, group 1 ok)]` gives
  "1".
- The description of `MaxGroups` (src/ExcelMazRegex.cs:143) says to omit it for
  all groups. An omitted `MaxGroups` faults instead: the `&` at
  src/ExcelMazRegex.cs:186 does not short-circuit, so `(bool)MaxGroups` runs on
  the missing value and the cast raises.
- A numeric `IncludeDuplicates` is true when it is greater than zero, not when it
  is non-zero.
- With duplicates excluded, the name that exhausts a group ceiling is not added
  to the seen set.
- `RegexGroupMatches` sizes its count array by the first match. A later match
  with a successful group beyond that size faults. The model keeps this case
  as a fault and does not exclude it by a precondition.

## Model

| member | source | states |
|---|---|---|
| ExcelValues.Budget | src/ExcelMazRegex.cs:228 | a counter that starts positive lets exactly that many items through; zero or negative lets through at least 2^31 (unlimited in effect) |
| ExcelValues.Dec | src/ExcelMazRegex.cs:221 | `--c` on an `int` is congruent to c - 1 modulo 2^32 (wraps at the minimum) |
| ExcelValues.DecBudget | src/ExcelMazRegex.cs:221 | the counter hits zero exactly when the last item of its budget is let through, and each decrement otherwise consumes one item |
| ExcelValues.Prefixed | src/ExcelMazRegex.cs:220 | a non-empty accumulator starts with the delimiter |
| ExcelValues.Join | src/ExcelMazRegex.cs:230 | the joined text is the accumulator without its leading delimiter; a single token is joined as itself |
| ExcelValues.PrefixedAppend | src/ExcelMazRegex.cs:220 | appending `delim + t` to the accumulator equals accumulating the tokens with `t` at the end |
| ExcelValues.PrefixedConcat | src/ExcelMazRegex.cs:220-227 | accumulating two runs of tokens one after the other equals accumulating their concatenation, as each match's tokens are added to `matchlist` |
| ExcelValues.PrefixedStrip | src/ExcelMazRegex.cs:230 | removing the leading delimiter from a non-empty accumulator yields the tokens joined by the delimiter |
| ExcelValues.PrefixedEmpty | src/ExcelMazRegex.cs:286-289 | with a non-empty delimiter the accumulator is empty iff no token was appended |
| ExcelValues.Serialized | src/ExcelMazRegex.cs:230 | the "," accumulator is empty iff no token was appended, and otherwise `Substring(1)` of it is the tokens joined by "," |
| Coercion.IncludeDuplicates | src/ExcelMazRegex.cs:154-164 | true iff the argument is omitted, the boolean true, empty text or a positive number; the text "TRUE" is false |
| Coercion.TruncateToInt32 | src/ExcelMazRegex.cs:168 | a number in the `int` range converts to itself |
| Coercion.MaxGroupsArg | src/ExcelMazRegex.cs:165-191 | faults iff the argument is omitted or of another kind (the non-short-circuit `&` reaches the `(bool)` cast); #VALUE! iff non-empty text does not parse; booleans give 1 or 0, empty text 0, an in-range number itself, text that parses the parsed value |
| Coercion.ParseInt32 | src/ExcelMazRegex.cs:181 | text that parses is not blank once white space is trimmed |
| Coercion.ParseAcceptsOnlySignedDigits | src/ExcelMazRegex.cs:181 | text that parses is white space, an optional sign, one or more digits and white space, and parses as that signed value; any other text is refused |
| Coercion.ParseSignedDigits | src/ExcelMazRegex.cs:181 | white space, an optional sign, one or more digits and white space are accepted iff the signed value fits in an `int`, and then parse as that value |
| Coercion.MaxGroupsSignedDigits | src/ExcelMazRegex.cs:176-181 | such text coerces to the ceiling it denotes when in range and to #VALUE! when out of range |
| Coercion.MaxGroupsOutOfRange | src/ExcelMazRegex.cs:181 | "2147483648", one past the largest `int`, gives #VALUE! |
| Coercion.MaxGroupsPaddedPlus | src/ExcelMazRegex.cs:181 | " +7 " gives the ceiling 7 |
| Coercion.MaxGroupsTextRoundTrip | src/ExcelMazRegex.cs:181 | the decimal text of every `int` coerces back to that `int` |
| Coercion.ParseDecimal | src/ExcelMazRegex.cs:181 | `int.TryParse` accepts the decimal text of every `int` and returns that `int` |
| Coercion.MaxGroupsRejectsLetters | src/ExcelMazRegex.cs:181 | text containing a character that is not white space, a sign or a digit is refused with #VALUE! |
| GroupWalk.WalkNames | src/ExcelMazRegex.cs:218-222 | the walk lists at most the ceiling's worth of names; the seen set only grows, and stays unchanged with duplicates included |
| GroupWalk.WalkEmitStep | src/ExcelMazRegex.cs:218-222 | listing one group either exhausts the ceiling and ends the walk with the seen set unchanged, or resumes one group on with one fewer allowed and the name remembered when duplicates are excluded |
| GroupWalk.WalkCountStep | src/ExcelMazRegex.cs:220-222 | the same step phrased on the `int` counter: `--gfound == 0` ends the walk at the listed name, anything else resumes with the decremented counter |
| GroupWalk.WalkSkipStep | src/ExcelMazRegex.cs:218 | a failed group, or a seen name with duplicates excluded, is skipped without using the ceiling |
| GroupWalk.WalkNamesBounded | src/ExcelMazRegex.cs:218-221 | the walk lists at most the ceiling's worth of names, and they are names of successful groups in group order (a subsequence) |
| GroupWalk.WalkNamesWithDuplicates | src/ExcelMazRegex.cs:218-221 | with duplicates included the walk lists exactly the first `left` successful names and leaves the seen set unchanged |
| GroupWalk.WalkNamesWithoutDuplicates | src/ExcelMazRegex.cs:218-222 | with duplicates excluded the names are pairwise distinct and were unseen, and the seen set only grows by listed names; below the ceiling every successful name ends up seen; the names are exactly the first `left` first occurrences of unseen successful names |
| GroupWalk.WalkNamesFresh | src/ExcelMazRegex.cs:218-222 | with duplicates excluded the walk lists the first `left` first occurrences of unseen successful names, and remembers all of them except the one that exhausts the ceiling |
| MatchGroups.WalkMatch | src/ExcelMazRegex.cs:206-225 | one match aborts iff it is the very first with groups and its group 0 failed; a match holding group 0 alone contributes "0"; at most the ceiling's worth of tokens |
| MatchGroups.WalkMatches | src/ExcelMazRegex.cs:204-228 | only a walk still at the first match can abort with #N/A |
| MatchGroups.Listing | src/ExcelMazRegex.cs:204-230 | never #VALUE!; no match at all faults; #N/A needs a match |
| MatchGroups.MatchGroupsResult | src/ExcelMazRegex.cs:149-230 | null input or null/empty pattern gives #VALUE!; an omitted MaxGroups faults; no match at all faults |
| MatchGroups.RegexMatchGroups | src/ExcelMazRegex.cs:134-232 | the imperative function returns exactly `MatchGroupsResult` |
| MatchGroups.MatchStep | src/ExcelMazRegex.cs:204-228 | processing one match either aborts the whole walk with #N/A or appends that match's tokens and continues with one fewer match allowed |
| MatchGroups.ListGroupsOfMatch | src/ExcelMazRegex.cs:206-227 | the per-match body signals the #N/A return iff this is the first match and its group 0 failed; otherwise it appends `,name` for each listed group, then `,0` for a match holding group 0 alone, and returns the updated seen set |
| MatchGroups.ListNames | src/ExcelMazRegex.cs:207-224 | the inner loop appends exactly the names of the group walk from group 1 and returns its seen set |
| MatchGroups.NoAbortAfterFirst | src/ExcelMazRegex.cs:209-216 | once the first match has been checked, no later match can return #N/A |
| MatchGroups.MatchGroupsNotApplicable | src/ExcelMazRegex.cs:211-213 | the result is #N/A iff there is a match and the first match's group 0 failed |
| MatchGroups.WalkMatchesWithDuplicates | src/ExcelMazRegex.cs:204-229 | with duplicates included, the walk over the next `left` matches lists each match's first `MaxGroups` successful names after group 0, or "0" for a match holding group 0 alone |
| MatchGroups.MatchGroupsWithDuplicates | src/ExcelMazRegex.cs:201-230 | with duplicates included the result is those reference tokens of the first `MaxMatches` matches joined by ",", or a fault when there are none |
| MatchGroups.MatchWithoutDuplicates | src/ExcelMazRegex.cs:206-225 | with duplicates excluded one match lists the first `MaxGroups` first occurrences of its unseen successful names (or "0" alone) and remembers them, less the exhausting one |
| MatchGroups.WalkMatchesFresh | src/ExcelMazRegex.cs:204-229 | with duplicates excluded, the walk over the next `left` matches lists exactly the reference tokens `ListedFresh`, the seen set carried from match to match |
| MatchGroups.MatchGroupsWithoutDuplicates | src/ExcelMazRegex.cs:201-230 | with duplicates excluded the result is those reference tokens of the first `MaxMatches` matches joined by ",", or a fault when there are none |
| MatchGroups.WalkMatchesWithoutDuplicates | src/ExcelMazRegex.cs:218-222 | with duplicates excluded and a per-match ceiling no match can exhaust, no name other than "0" is listed twice across all matches and none was seen before, and every successful named group of the walked matches was seen before or is listed |
| MatchGroups.WalkMatchesCovers | src/ExcelMazRegex.cs:218-222 | under the same ceiling, every successful named group of the walked matches was seen before or is listed |
| MatchGroups.ExhaustingNameNotRemembered | src/ExcelMazRegex.cs:221-222 | with MaxGroups 1 and duplicates excluded a name repeated in two matches is listed twice ("a,a"), with MaxGroups 2 once ("a") |
| MatchGroups.NamedGroupsScenario | src/ExcelMazRegex.cs:204-230 | two matches of `(?<l>[a-z]+)(?<d>\d+)` list "l,d,l,d" |
| MatchGroups.WholeMatchScenario | src/ExcelMazRegex.cs:224-230 | a match of a pattern without capture groups lists "0" |
| Matches.Delimiter | src/ExcelMazRegex.cs:273 | an omitted delimiter is ","; anything other than text or omission faults on the cast |
| Matches.Emitted | src/ExcelMazRegex.cs:280 | one token per listed match: its `Result(replacement)` when the replacement is non-empty, its value otherwise |
| Matches.MatchesResult | src/ExcelMazRegex.cs:256-289 | null input or null/empty pattern gives #VALUE!; a non-text delimiter faults; no match gives #N/A |
| Matches.RegexMatches | src/ExcelMazRegex.cs:237-291 | the imperative function returns exactly `MatchesResult` |
| Matches.Emit | src/ExcelMazRegex.cs:280 | without a replacement, or with an empty one, the token is the raw match value |
| Matches.Picked | src/ExcelMazRegex.cs:278-282 | at most `left` matches are listed, all successful |
| Matches.ListMatches | src/ExcelMazRegex.cs:276-284 | the loop leaves in `rs` the delimiter-prefixed tokens of exactly the listed matches |
| Matches.PickStep | src/ExcelMazRegex.cs:278-282 | a listed match either exhausts the ceiling or the listing resumes after it with one fewer allowed and its raw value remembered when duplicates are excluded |
| Matches.EmittedAppend | src/ExcelMazRegex.cs:280 | appending one match's token extends the accumulator by the delimiter and that token |
| Matches.PickedBounded | src/ExcelMazRegex.cs:278-282 | at most `MaxMatches` matches are listed (only listed ones count), all successful, in match order |
| Matches.PickedWithDuplicates | src/ExcelMazRegex.cs:278-282 | with duplicates included the listed matches are exactly the first `MaxMatches` successful ones |
| Matches.PickedWithoutDuplicates | src/ExcelMazRegex.cs:278-281 | with duplicates excluded the listed matches have pairwise distinct raw values, none seen before |
| Matches.PickedFirstOfValues | src/ExcelMazRegex.cs:278-282 | with duplicates excluded the listed matches are exactly the first `left` successful matches whose raw value is unseen and not repeated earlier, in order |
| Matches.PickedCoversValues | src/ExcelMazRegex.cs:278-281 | with duplicates excluded and the ceiling not reached, every successful match from the starting index on has its raw value listed or already seen |
| Matches.PickedEmpty | src/ExcelMazRegex.cs:278 | nothing is listed iff no match succeeded |
| Matches.MatchesNotApplicable | src/ExcelMazRegex.cs:286-287 | with a non-empty delimiter the result is #N/A iff no match succeeded |
| Matches.MatchesWithDuplicates | src/ExcelMazRegex.cs:276-289 | with duplicates included and the default delimiter, the result is the tokens of the first `MaxMatches` successful matches joined by "," |
| Matches.DuplicateKeyIsRawValue | src/ExcelMazRegex.cs:278-281 | two matches with different values but equal replacement tokens are both listed |
| Matches.EqualMatchesListedOnce | src/ExcelMazRegex.cs:278-281 | two matches with equal values are listed once when duplicates are excluded |
| Matches.ValueScenario | src/ExcelMazRegex.cs:276-284 | three matches of "a" with duplicates excluded list a single "a" |
| GroupMatches.CountSuccesses | src/ExcelMazRegex.cs:355-363 | a column's count never exceeds the number of processed matches |
| GroupMatches.Overflows | src/ExcelMazRegex.cs:360 | an overflow needs a processed match with more groups than the count array has slots |
| GroupMatches.ColumnName | src/ExcelMazRegex.cs:370-382 | without a transform pattern, or with an empty one, the column keeps the group's name |
| GroupMatches.FirstColumn | src/ExcelMazRegex.cs:379 | the emission starts at column 0 iff the first match holds group 0 alone, and at column 1 otherwise |
| GroupMatches.Columns | src/ExcelMazRegex.cs:346-376 | one column per group of the first match, in its order, named by the transform when its pattern is non-empty, eligible iff its success count over the processed matches is positive |
| GroupMatches.GroupMatchesResult | src/ExcelMazRegex.cs:314-395 | #VALUE! for bad arguments; a fault when there is no match; #N/A when the first match failed; text only when the first match succeeded |
| GroupMatches.RegexGroupMatches | src/ExcelMazRegex.cs:295-397 | the imperative function returns exactly `GroupMatchesResult` |
| GroupMatches.GroupNames | src/ExcelMazRegex.cs:346-353 | a fresh array holding the first match's group names in group order |
| GroupMatches.CountGroupMatches | src/ExcelMazRegex.cs:356-365 | over the first `MaxMatches` matches, each count is the number of those matches with that group successful; a successful group beyond the first match's group count faults, and only then |
| GroupMatches.TransformNames | src/ExcelMazRegex.cs:369-376 | every slot of `gstripped` becomes the transform of the group name in the same slot |
| GroupMatches.EmitColumns | src/ExcelMazRegex.cs:379-391 | the emission loop appends exactly the names of the column walk from `FirstColumn` under the global `MaxGroups` ceiling |
| GroupMatches.CountedIffSucceeded | src/ExcelMazRegex.cs:361 | a column's count is positive iff some processed match has that group successful |
| GroupMatches.GroupTokensBounded | src/ExcelMazRegex.cs:379-391 | at most `MaxGroups` names in total (when positive), forming a subsequence of the eligible column names in column order |
| GroupMatches.GroupTokensWithDuplicates | src/ExcelMazRegex.cs:379-391 | with duplicates included the list is exactly the first `MaxGroups` eligible column names |
| GroupMatches.GroupTokensWithoutDuplicates | src/ExcelMazRegex.cs:384-388 | with duplicates excluded the listed transformed names are pairwise distinct; below the ceiling every eligible name is listed; the list is exactly the first `MaxGroups` first occurrences of the eligible names |
| GroupMatches.GroupMatchesWithDuplicates | src/ExcelMazRegex.cs:355-395 | with duplicates included and a successful first match, the result is the first `MaxGroups` eligible column names joined by ",", a fault when none is eligible, or a fault when a wider later match overflows the count array |
| GroupMatches.GroupMatchesWithoutDuplicates | src/ExcelMazRegex.cs:355-395 | the same with duplicates excluded, for the first `MaxGroups` first occurrences of the eligible column names |
| GroupMatches.IdentityTransform | src/ExcelMazRegex.cs:371-376 | a transform that maps every name to itself gives the same result as no transform |
| GroupMatches.WiderLaterMatchFaults | src/ExcelMazRegex.cs:361 | a later match with more successful groups than the first match's group count faults |
| GroupMatches.ColumnScenario | src/ExcelMazRegex.cs:379-391 | two `l`/`d` matches with duplicates excluded list "l,d" |

## Left out

- The regular-expression engine: `Regex.Matches`, `Match.Result` and
  `Regex.Replace`. The matches are an input sequence. `Result` and `Replace`
  are uninterpreted function parameters, and option flags are not modelled.
  The laziness of match enumeration does not change the result, so it is
  not modelled either.
- The one-call wrappers `RegexMatch`, `RegexReplace`, `IsRegexMatch`,
  `RegexEscape` and `RegexVersionNumber`. They have no logic of their own.
- The unused `OrderedHashSet<T>`, and the superseded root `ExcelMazRegex.cs`.
  The latter does not compile.
- The Excel-DNA layer: attributes, `ExcelError` values and `ExcelMissing`.
  They appear only as `ExcelArg` and `Outcome` constructors.
- Floating-point numbers. A numeric argument is an integer `Num(n)`:
  - the `(double)` comparison `> 0` is exact on integers;
  - `(int)(double)` of a value outside the `int` range is taken to give
    0x80000000, the .NET Framework x86/x64 result;
  - fractional numbers are not modelled.
- A boxed `int` argument. It passes the `is int` tests (src/ExcelMazRegex.cs:161,
  src/ExcelMazRegex.cs:166) and would then fault at the `(double)` unboxing
  (src/ExcelMazRegex.cs:162, src/ExcelMazRegex.cs:168). Excel never passes one:
  it passes numbers as `double`, which is what `Num` stands for.
- Coercion.ParseInt32: models `int.TryParse` with the default number style
  and the invariant sign symbols. It accepts leading and trailing white space,
  one sign, and decimal digits within the `int` range. It does not model
  culture-specific signs or trailing NUL characters.
- MatchGroups.MatchGroupsNotApplicable: assumes that every match reports group 0.
  The .NET engine always does.
- MatchGroups.WalkMatchesWithoutDuplicates: assumes a per-match ceiling that no
  match can exhaust. When a match exhausts it, the exhausting name is not
  remembered and can be listed again (`ExhaustingNameNotRemembered`).
- Exceptions are a single `Fault` outcome. The model does not say which
  exception is raised.
