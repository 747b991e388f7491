# Verified models of the repository's tooling algorithms

The repository's scripts contain a number of self-contained algorithms: a small compiler
from translated Kotlin text to Android format strings, escaping codecs, delimiter-aware
scanners, translation votes, a catalog merge, a regression, a greedy scheduler, two
asynchronous protocols, a polling loop, a glob matcher and the percentile summary. This
project models them in Dafny and proves what they are for, on all inputs, all runs or all
event traces.

| file | component |
|---|---|
| `Text.dfy`, `Sorting.dfy` | `replaceAll` and chains of passes, numerals, `trim`, dotted paths, code-unit order; the stable sort, distinct values and counting maps |
| `Interpolations.dfy`, `BraceGrammar.dfy` | the Kotlin interpolation scanner, and a grammar for what it calls a braced interpolation |
| `ResourceText.dfy`, `AndroidRender.dfy` | Android resource escaping and decoding; placeholder rendering |
| `ResourceRows.dfy` | what the script's own decoder reads back from the rows it wrote, and which checked-in translations that keeps |
| `KotlinLiteral.dfy` | Kotlin literal escaping, decoding and the literal pattern |
| `TopLevelSplit.dfy`, `ArgumentScanner.dfy` | the two families of quote-aware scanners |
| `TranslationVote.dfy`, `AppleCatalog.dfy` | the Android and Apple votes; the Apple catalog builder |
| `RetainedSlope.dfy`, `Percentiles.dfy` | least-squares slope; nearest-rank percentiles |
| `DeclarationPartitions.dfy` | grouping and greedy partitioning of declaration entries |
| `SignalController.dfy`, `WorkPool.dfy` | the parent-signal controller; the work-sharing pools |
| `RestartProbe.dfy` | the restart probe loop |
| `PolicyGlob.dfy` | the dotted-path pattern matcher |
| `UiCatalog.dfy`, `Placeholders.dfy`, `UiCatalogCompare.dfy` | flattening control UI catalogs, their placeholders, and comparing them |

Code with loops or updated state is modelled by methods and classes whose contracts tie
them to a function of their inputs or old state; the properties are then proved of that
function. Everything from outside is a parameter: the exit code of a signal, the locale's
order of names (`localeCompare`), which native entries belong to a catalog, the code unit
for a number, and the clock, the process and the server of the restart probe.

## What was found

- The resource round trip is not exact. Decoding `"` + escape(s) + `"` returns s with every
  letter n after a backslash turned into a line feed, because the decoder's line feed pass
  comes before its backslash pass. It returns s if and only if s has no backslash before a
  letter n (`RoundTripIff`; `RoundTripFails` gives the input).
- The script's decoder does not undo placeholders either. The English row of a source
  decodes to that source if and only if the source has no interpolation and no backslash
  before a letter n (`EnglishRowIff`). So when the artifacts no longer translate an
  unchanged source, a build keeps its checked-in translation if and only if that is the
  source itself, or both texts have no interpolation and no backslash before a letter n and
  are not empty (`KeptIff`). A source with an interpolation falls back to English
  (`ValueWithoutArtifacts`; `KeptFails` gives the input).
- The two votes agree on every list except the empty one, where Android answers with the
  empty text and Apple with the source (`VotesAgreeIff`).
- A percentile is a nearest rank exactly for percentages above 0 and up to 100
  (`PercentileIsNearestRankIff`); the summaries use 50, 95 and 99.
- A pool without workers is fulfilled at once having done nothing, so its guarantee holds if
  and only if there is a worker or no work (`FulfilledIff`). Both call sites meet this.
- Splitting the flat keys at their dots and nesting the parts again (`Unflatten`) gives a
  catalog back if and only if every value is text or an object, no key has a dot, no inner
  object is empty and no empty key at the top level holds an object
  (`FlattenRoundTripIff`; `FlattenCanLose` gives an input for each of the last three). So
  usable catalogs are told apart by their flat forms, but an empty object more leaves no
  trace in any (`UsableAreDetermined`).

## Model

| member | source | states |
|---|---|---|
| `Interpolations.ReadBraced` | scripts/android-app-i18n.ts:171-195 | the inner loop closes exactly when the braced interpolation has an end, and stops on that brace |
| `Interpolations.ReadKotlinInterpolations` | scripts/android-app-i18n.ts:147-197 | the loop with its index rewinds terminates and returns the scan of the text, or null exactly when the scan fails |
| `Interpolations.ScanTiles` | scripts/android-app-i18n.ts:147-197 | intervals are in bounds, increasing and disjoint; gaps woven with values rebuild the text; every value is a token and no gap opens one |
| `Interpolations.ScanIsUnique` | scripts/android-app-i18n.ts:147-197 | any tokenization of a text into plain gaps and longest tokens is the one the scan returns |
| `Interpolations.ScanFailsOnlyUnclosed` | scripts/android-app-i18n.ts:192-194 | null exactly when, after a tokenized prefix, an interpolation opens that never closes |
| `Interpolations.RescanToken` | scripts/android-app-i18n.ts:147-197 | scanning a found value again yields one interval covering it |
| `Interpolations.RescanGap` | scripts/android-app-i18n.ts:147-197 | scanning a gap again yields nothing |
| `Interpolations.NameCharacters` | scripts/android-app-i18n.ts:147-170 | a name starts with a letter or underscore and goes on with letters, digits and underscores |
| `BraceGrammar.BracedIff` | scripts/android-app-i18n.ts:171-195 | the depth counter and quote flag accept exactly the texts of a grammar of plain characters, quoted strings and nested braces |
| `AndroidRender.TokenCountsIff` | scripts/android-app-i18n.ts:210-221 | the sorted token counts agree exactly when the tokens agree as multisets |
| `AndroidRender.SourceIndices` | scripts/android-app-i18n.ts:223-228 | the Map holds, for each source token, its one-based positions in order |
| `AndroidRender.RenderPlaceholders` | scripts/android-app-i18n.ts:229-242 | the cursor loop produces the rendering of the tokenization |
| `AndroidRender.RenderAndroidResourceValue` | scripts/android-app-i18n.ts:199-244 | the whole operation, with both error cases in their order |
| `AndroidRender.RenderedIff` | scripts/android-app-i18n.ts:203-221 | rendering succeeds exactly when both scans do and the token multisets are equal |
| `AndroidRender.RenderErrors` | scripts/android-app-i18n.ts:203-221 | the unbalanced error exactly when a text does not scan; the changed error exactly when both scan and the tokens differ as multisets |
| `AndroidRender.NumbersPermute` | scripts/android-app-i18n.ts:223-240 | the placeholder numbers are a permutation of 1..n and each names an argument equal to its own token |
| `AndroidRender.RenderedText` | scripts/android-app-i18n.ts:222-243 | what is escaped is the gaps with doubled percent signs woven with those placeholders; the token fallback is never taken |
| `AndroidRender.RenderingKeepsMeaning` | scripts/android-app-i18n.ts:229-242 | for every tokenization whose tokens are the arguments in some order, formatting the rendering gives the woven text back |
| `AndroidRender.RenderPreservesMeaning` | scripts/android-app-i18n.ts:222-243 | formatting what is escaped with the source's tokens gives exactly the translation |
| `AndroidRender.NoTokensUnchanged` | scripts/android-app-i18n.ts:1159-1164 | without tokens the text is escaped unchanged and the row is marked formatted="false" |
| `ResourceRows.DecodedRow` | scripts/android-app-i18n.ts:122-139 | decoding any row the script writes gives the rendering, with each letter n after a backslash outside tokens turned into a line feed |
| `ResourceRows.EnglishRowIff` | scripts/android-app-i18n.ts:1271 | the English row decodes to its source if and only if the source has no interpolation and no backslash before a letter n |
| `ResourceRows.ValueFromArtifacts` | scripts/android-app-i18n.ts:1066-1079 | where artifacts translate the source, the one winner of their vote is written whatever the checked-in rows say, and the source only in place of an empty winner |
| `ResourceRows.ValueFromRows` | scripts/android-app-i18n.ts:1270-1301 | where they do not, for any two rows: the decoded translated row if it is not empty and the English row decodes to the non-empty source, else the source |
| `ResourceRows.ValueWithoutArtifacts` | scripts/android-app-i18n.ts:1270-1301 | the value written when no artifact translates a source: the decoded checked-in translation under exactly that condition and with both texts non-empty, else the source |
| `ResourceRows.KeptIff` | scripts/android-app-i18n.ts:1066-1079 | the checked-in translation of an unchanged source is kept if and only if it is the source, or both texts are free of interpolations and of backslash-n and not empty |
| `ResourceRows.BuildSettles` | scripts/android-app-i18n.ts:1270-1301 | whatever such a build writes can be written into a row, and the next build on that row writes it again |
| `ResourceRows.KeptFails` | scripts/android-app-i18n.ts:1066-1079 | a source with an interpolation whose checked-in translation is replaced by English |
| `ResourceRows.ReadBackText` | scripts/android-app-i18n.ts:122-139 | the script's own decoder followed by formatting gives a row's value with each letter n after a backslash outside tokens turned into a line feed |
| `ResourceRows.ReadBackIff` | scripts/android-app-i18n.ts:122-139 | that composition gives exactly the value if and only if no gap has a backslash before a letter n |
| `ResourceText.DecodeXmlEscape` | scripts/android-app-i18n.ts:122-132 | the eight decoding passes after the seven escaping passes give the text with each backslash-n's letter turned into a line feed |
| `ResourceText.DecodeOfEscape` | scripts/android-app-i18n.ts:134-139 | the same for the quoted resource text, through trimming and unquoting |
| `ResourceText.RoundTripIff` | scripts/android-app-i18n.ts:246-255 | the round trip returns the text if and only if it has no backslash right before a letter n |
| `ResourceText.RoundTripFails` | scripts/android-app-i18n.ts:246-255 | the two-character input on which the round trip fails, and what comes back |
| `ResourceText.EscapedIsRowText` | scripts/android-app-i18n.ts:246-255 | in an escaped text an ampersand only starts one of three entities, a backslash only one of four escapes, and no other markup, quote or line feed is left |
| `ResourceText.DecodeAround` | scripts/android-app-i18n.ts:134-139 | white space around a row is ignored, rows with and without quotes are read alike, and a lone quote is empty |
| `ResourceText.QuoteEntities` | scripts/android-app-i18n.ts:122-132 | quotes written as entities are read as quotes |
| `KotlinLiteral.RoundTrip` | scripts/android-app-i18n.ts:257-263 | decoding an escaped literal returns the text, for every text |
| `KotlinLiteral.EscapedIsLiteralText` | scripts/android-app-i18n.ts:257-263 | an escaped text has no bare line feed, quote, dollar sign or backslash |
| `KotlinLiteral.UnicodeDecodes` | scripts/android-app-i18n.ts:388-398 | four hexadecimal digits behind backslash-u, of either case, give their code unit |
| `KotlinLiteral.OtherBackslashStays` | scripts/android-app-i18n.ts:388-398 | a backslash before anything else than n, a quote, a dollar sign, a backslash or such a code unit is kept |
| `KotlinLiteral.CapturesExactly` | scripts/android-app-i18n.ts:388-405 | before a closing quote the pattern captures exactly the escaped text when it is not empty and nothing otherwise, and what it captures decodes to the text |
| `TopLevelSplit.SplitTopLevelSegments` | scripts/android-app-i18n.ts:686-754 | the segments tile the slice and end exactly at the code commas at zero depth of every bracket kind, and of type arguments when tracked |
| `TopLevelSplit.JoinRebuilds` | scripts/android-app-i18n.ts:686-754 | joining the values with commas rebuilds the slice |
| `TopLevelSplit.SegmentsUnique` | scripts/android-app-i18n.ts:686-754 | tiling and cuts determine the segments |
| `TopLevelSplit.SegmentIsWhole` | scripts/android-app-i18n.ts:686-754 | scanned by itself, a segment has no comma to cut at |
| `TopLevelSplit.NoCutInside` | scripts/android-app-i18n.ts:686-754 | between an opening bracket of any kind and the position that closes it there is no cut |
| `TopLevelSplit.TypeArgumentsHide` | scripts/android-app-i18n.ts:686-754 | where type arguments are tracked, nothing is cut between an unquoted less-than outside a default value and the next greater-than |
| `TopLevelSplit.DefaultIgnoresComparisons` | scripts/android-app-i18n.ts:686-754 | in a default value less-than and greater-than are comparisons, and the next top-level comma is a cut |
| `TopLevelSplit.StringsAreQuoted` | scripts/android-app-i18n.ts:686-754 | a string with its escapes is passed over: nothing in it is code and the scan is unquoted after it |
| `TopLevelSplit.FindClosingDelimiter` | scripts/android-app-i18n.ts:591-627 | returns the least unquoted position that closes and brings the depth to zero, or null exactly when there is none |
| `TopLevelSplit.StaysOpen` | scripts/android-app-i18n.ts:591-627 | up to that position the depth never falls to zero |
| `Sorting.CountValues` | scripts/android-app-i18n.ts:1051-1054 | the count Map lists each value once, in order of first occurrence, with its number of occurrences |
| `Sorting.DistinctInOrder` | scripts/android-app-i18n.ts:1051-1054 | distinct values stand in the order of their first occurrence |
| `Sorting.SortStable` | scripts/android-app-i18n.ts:1055-1062 | sorting keeps the order of elements that tie |
| `TranslationVote.SelectDeterministicTranslation` | scripts/android-app-i18n.ts:1048-1063 | filter, count, sort and take the first, with the empty text for no candidates |
| `TranslationVote.ChooseTranslation` | scripts/apple-app-i18n.ts:604-617 | count, sort with a penalty for the source and take the first, with the source for no candidates |
| `TranslationVote.VoteIffWinner` | scripts/apple-app-i18n.ts:611-616 | each vote is the one candidate that beats every translation in votes and then in text order, and is the source only if all candidates are |
| `TranslationVote.VotesAgreeIff` | scripts/android-app-i18n.ts:1048-1063 | the votes agree exactly on non-empty lists and on the empty source |
| `TranslationVote.VotesForgetOrder` | scripts/android-app-i18n.ts:1055-1062 | neither vote depends on the order of its input |
| `TranslationVote.SourceOnlyAlone` | scripts/android-app-i18n.ts:1282-1286 | with another candidate present neither vote returns the source, so the guard against that never fires |
| `AppleCatalog.CollectBySource` | scripts/apple-app-i18n.ts:636-647 | one artifact's values by catalog source, skipping unknown and excluded ids, in order |
| `AppleCatalog.CollectByLocale` | scripts/apple-app-i18n.ts:634-649 | candidates by locale and source, the last artifact of a locale counting |
| `AppleCatalog.LocalizeSource` | scripts/apple-app-i18n.ts:655-682 | the inner loop keeps shipped units, writes English from the source, votes otherwise, and collects contradictions |
| `AppleCatalog.BuildAppleCatalog` | scripts/apple-app-i18n.ts:619-698 | the whole build: every source in every locale, contradictions sorted by source and locale |
| `AppleCatalog.BuildIsIdempotent` | scripts/apple-app-i18n.ts:619-698 | building again on the built catalog with the same inputs changes nothing |
| `AppleCatalog.ShippedSurvives` | scripts/apple-app-i18n.ts:662-666 | a shipped non-empty translated value survives any later builds that keep its source |
| `AppleCatalog.ShippedIsKept` | scripts/apple-app-i18n.ts:662-666 | a shipped translated, non-empty value is written again, for English as for any locale, whatever the artifacts say |
| `AppleCatalog.EnglishIsSource` | scripts/apple-app-i18n.ts:667-675 | where no English value is shipped the English unit is the source, translated, whatever the artifacts say |
| `AppleCatalog.OtherIsVoted` | scripts/apple-app-i18n.ts:676-682 | where nothing is shipped any other unit is the winner among the candidates, or the source without candidates, and is new exactly when that is the source |
| `AppleCatalog.CandidatesAre` | scripts/apple-app-i18n.ts:634-649 | the candidates are the values of the last artifact of the locale whose ids stand for the source, in order; an id stands for the catalog value of the last entry that has it, if an included entry has it |
| `AppleCatalog.KeepsExactlySources` | scripts/apple-app-i18n.ts:625-630 | the built catalog has exactly the sources of the included entries |
| `AppleCatalog.FreshUnitIsWinner` | scripts/apple-app-i18n.ts:676-682 | where nothing is shipped the unit holds the winner, or the source when there are no candidates, marked new exactly when no candidate differs from the source |
| `AppleCatalog.ContradictionsExact` | scripts/apple-app-i18n.ts:655-661 | a contradiction is reported exactly for a catalog source and a required locale with two different candidates, and lists just the candidates, once and in text order |
| `AppleCatalog.ContradictionsOnce` | scripts/apple-app-i18n.ts:685-697 | for distinct locales each source and locale is reported once, an earlier source first and then an earlier locale |
| `RetainedSlope.ComputeSlope` | scripts/bench-task-registry-sqlite-worker.ts:109-123 | the two loops compute the slope from the centred sums |
| `RetainedSlope.DenominatorClosed` | scripts/bench-task-registry-sqlite-worker.ts:117-122 | the denominator is n(n^2 - 1)/12, so positive from two values on |
| `RetainedSlope.ErrorDecomposes` | scripts/bench-task-registry-sqlite-worker.ts:109-123 | the squared error of any line exceeds the fitted line's by an exact sum of two weighted squares |
| `RetainedSlope.SlopeIsOptimal` | scripts/bench-task-registry-sqlite-worker.ts:109-123 | no line has a smaller squared error, and only the fitted line has the same |
| `RetainedSlope.SlopeOfAffine` | scripts/bench-task-registry-sqlite-worker.ts:109-123 | affine data returns its own coefficient; fewer than two values give zero |
| `DeclarationPartitions.PartitionUnifiedEntryGroups` | tsdown.config.ts:644-665 | each group goes to the first least loaded partition; with no partitions it fails exactly when there is a group |
| `DeclarationPartitions.GoesToFirstLeast` | tsdown.config.ts:644-665 | each group goes to the first of the partitions that hold the fewest entries just then, and no other partition changes |
| `DeclarationPartitions.Balanced` | tsdown.config.ts:644-665 | any two partitions differ by at most the largest group |
| `DeclarationPartitions.LoadBound` | tsdown.config.ts:644-665 | m times any load is at most the total plus (m - 1) times the largest group |
| `DeclarationPartitions.WithinTwice` | tsdown.config.ts:644-665 | against every other assignment of whole groups to the same m partitions, each greedy load is at most (2 - 1/m) times that assignment's largest load |
| `DeclarationPartitions.EntriesConserved` | tsdown.config.ts:644-665 | the multiset of entries is conserved |
| `DeclarationPartitions.GroupsStayWhole` | tsdown.config.ts:644-665 | each partition is the concatenation, in input order, of the groups sent to it |
| `DeclarationPartitions.GroupIsContiguous` | tsdown.config.ts:644-665 | every group stands in its one target partition as a contiguous block |
| `DeclarationPartitions.GroupExtensionEntries` | tsdown.config.ts:698-723 | the Map groups entries by extension and its values are sorted by extension |
| `DeclarationPartitions.ExtensionIdIff` | tsdown.config.ts:705-712 | a name has an extension exactly when that is non-empty, has no slash, and the name is `extensions/` with it or starts with that and a slash |
| `DeclarationPartitions.GroupsAre` | tsdown.config.ts:698-723 | one group for each extension that some entry lies in and no other, sorted by extension, each listing its entries in order |
| `DeclarationPartitions.ExtensionStaysTogether` | tsdown.config.ts:698-723 | all entries of an extension form one group and no other group holds any |
| `DeclarationPartitions.ExtensionInOnePartition` | tsdown.config.ts:719-724 | end to end, the entries whose names lie below one extension are one contiguous block of one partition, and no other partition holds any of them |
| `SignalController.Controller.constructor` | scripts/anthropic-prompt-probe.ts:696-701 | the controller starts armed for the three signals |
| `SignalController.Controller.BeginShutdown` | scripts/anthropic-prompt-probe.ts:713-730 | shutdown starts once, when both an attachment and a signal are there, and a pending force kill is made |
| `SignalController.Controller.OnSignal` | scripts/anthropic-prompt-probe.ts:732-743 | the first signal is kept; a later one force-kills or is remembered |
| `SignalController.Controller.AttachChild` | scripts/anthropic-prompt-probe.ts:748-751 | only the first attachment is kept, and it may start the shutdown |
| `SignalController.Controller.DisposeHandlers` | scripts/anthropic-prompt-probe.ts:702-707 | all handlers are removed |
| `SignalController.Controller.RunScheduledStop` | scripts/anthropic-prompt-probe.ts:723-724 | the scheduled microtask calls stop on the captured attachment |
| `SignalController.Controller.OnStopSettled` | scripts/anthropic-prompt-probe.ts:725-729 | fulfilled or rejected, settlement disposes and exits with the captured code |
| `SignalController.StopsOnce` | scripts/anthropic-prompt-probe.ts:713-730 | over every trace stop runs at most once, on the first attachment, exactly when its task ran after an attachment and a signal |
| `SignalController.ExitsOnce` | scripts/anthropic-prompt-probe.ts:713-730 | over every trace the exit happens at most once, exactly when stop ran and then settled, with the code of the first delivered signal |
| `SignalController.KillsCounted` | scripts/anthropic-prompt-probe.ts:732-743 | force-kill attempts equal the extra signals after the attachment, plus one at it if any extra signal came before |
| `SignalController.HandlersUntilDone` | scripts/anthropic-prompt-probe.ts:702-707 | handlers stay registered exactly until disposal or exit |
| `SignalController.ExitIsFinal` | scripts/anthropic-prompt-probe.ts:725-729 | after the exit nothing more is called, whatever arrives |
| `RestartProbe.KeyIdentifies` | scripts/bench-gateway-restart.ts:531 | state keys are equal exactly when the attempts are |
| `RestartProbe.ErrorKindIff` | scripts/lib/gateway-bench-probes.ts:25-33 | only a success has no error kind, and the kind of any other answer names its status |
| `RestartProbe.WaitForRestartProbe` | scripts/bench-gateway-restart.ts:494-579 | the loop returns the report on the attempts of the run and pushes one event for each transition |
| `RestartProbe.RunMakes` | scripts/bench-gateway-restart.ts:512-568 | a run makes the attempts of the first n turns, where n is the first turn before which an attempt has recovered, or at which the deadline has passed, the process is done, or the caller is done after nothing but successes |
| `RestartProbe.AttemptsUnique` | scripts/bench-gateway-restart.ts:512-568 | only one number of attempts meets that |
| `RestartProbe.ReportOnTicks` | scripts/bench-gateway-restart.ts:527-578 | on the turns: status and time are the last attempt's, outage and error kind the first ones', and downtime is the time from the first failing attempt to the recovery, present exactly when there is one |
| `RestartProbe.EventsOnTicks` | scripts/bench-gateway-restart.ts:531-546 | each change of the attempts gives one transition timed from the signal and one event timed from the start of the sample, in order |
| `RestartProbe.MsIffSuccess` | scripts/bench-gateway-restart.ts:570-578 | on every run the time is present exactly when the status is 200 |
| `RestartProbe.DowntimeIffRecovery` | scripts/bench-gateway-restart.ts:550-568 | downtime is present exactly when a failing attempt is followed by a success, and is the first such success minus the first failure |
| `RestartProbe.DowntimeNonNegative` | scripts/bench-gateway-restart.ts:556-560 | with a clock that does not run backwards downtime is not negative |
| `RestartProbe.TransitionsAreChanges` | scripts/bench-gateway-restart.ts:531-546 | transitions are the attempts at exactly the change points, in order |
| `PolicyGlob.MatchesParts` | scripts/check-policy-config-coverage.ts:209-233 | the recursion with its search loop decides the pattern |
| `PolicyGlob.MatchesIff` | scripts/check-policy-config-coverage.ts:209-233 | a value matches exactly when it divides into runs allowed by the parts of the pattern |
| `PolicyGlob.MatchesComposes` | scripts/check-policy-config-coverage.ts:209-233 | p followed by q matches exactly when the value splits into a match of p and a match of q |
| `PolicyGlob.DoubleStarsCollapse` | scripts/check-policy-config-coverage.ts:214-223 | adjacent double stars mean the same as one, in any context |
| `PolicyGlob.PathMatchesPattern` | scripts/check-policy-config-coverage.ts:203-207 | matching of dotted paths is matching of their parts |
| `PolicyGlob.LiteralPattern` | scripts/check-policy-config-coverage.ts:203-207 | a pattern without star parts matches its own path only |
| `WorkPool.Pool.constructor` | scripts/bench-gateway-concurrency.ts:1105-1113 | the workers start in turn, each up to its first request |
| `WorkPool.Pool.TakeIndex` | scripts/bench-gateway-concurrency.ts:1107-1112 | a worker takes the next index, or returns when there is none |
| `WorkPool.Pool.OnAnswer` | scripts/bench-gateway-concurrency.ts:1117-1123 | an answer counts and its worker goes on; a failure makes the worker throw |
| `WorkPool.NeverTwice` | scripts/bench-gateway-concurrency.ts:1103-1132 | at every moment of every interleaving requests are in index order, none twice, at most one in flight per worker |
| `WorkPool.RequestsCounted` | scripts/bench-gateway-concurrency.ts:1105-1123 | the pool is never idle: after k successes it has made the smaller of n and the number of workers plus k requests, and every answer is a success or a thrown worker |
| `WorkPool.FailureIsFinal` | scripts/bench-gateway-concurrency.ts:1117-1123 | a failing answer ends its worker for good and the pool is never fulfilled after it |
| `WorkPool.FulfilledIff` | scripts/bench-gateway-concurrency.ts:1105-1132 | a fulfilled pool has served every index exactly once if and only if it had a worker or no work |
| `WorkPool.SessionPool` | scripts/bench-gateway-concurrency.ts:1103-1132 | at most min(16, n) creations in flight; a fulfilled pool created each session once and counted n |
| `WorkPool.UpdatePool` | scripts/bench-gateway-concurrency.ts:1311-1334 | the same for the updates, with the clients that are connected; a fulfilled pool has patched each session its share of the updates, rounded down, and the first ones once more |
| `WorkPool.PoolDrains` | scripts/bench-gateway-concurrency.ts:1103-1132 | each answer lowers a measure from n by one; until the pool is fulfilled an answer is awaited or a worker has thrown |
| `Percentiles.PercentileIsNearestRankIff` | scripts/bench-gateway-concurrency.ts:362-368 | the value is a sample, and is the nearest rank exactly for percentages above 0 and up to 100 |
| `Percentiles.NearestRankUnique` | scripts/bench-gateway-concurrency.ts:362-368 | no two values are nearest ranks for one percentage |
| `Percentiles.SummaryIsRight` | scripts/bench-gateway-concurrency.ts:370-382 | a summary exists exactly when a sample is finite; its maximum and percentiles are right and ordered |
| `Percentiles.SummaryForgetsOrder` | scripts/bench-gateway-concurrency.ts:370-382 | the summary does not depend on the order of the samples |
| `UiCatalog.FlattenControlUiCatalog` | scripts/control-ui-i18n-verify.ts:53-73 | the recursion fills the Map as specified and stops at the first value of the wrong kind |
| `UiCatalog.FlattenNeedsText` | scripts/control-ui-i18n-verify.ts:66-67 | flattening succeeds exactly when every value at every level is text or an object |
| `UiCatalog.FlattenFailsAt` | scripts/control-ui-i18n-verify.ts:66-67 | it fails at the first value of the wrong kind and names its dotted path |
| `UiCatalog.PutIs` | scripts/control-ui-i18n-verify.ts:64-65 | a Map keeps the place of a key it knows and appends one it does not |
| `UiCatalog.FlattenRoundTripIff` | scripts/control-ui-i18n-verify.ts:53-73 | flattening succeeds and `Unflatten` gives the catalog back if and only if every value is text or an object, no key has a dot, no inner object is empty and no empty key at the top level holds an object |
| `UiCatalog.UsableAreDetermined` | scripts/control-ui-i18n-verify.ts:53-73 | two such catalogs with the same flat form are the same, and an empty object more never changes a flat form |
| `UiCatalog.FlattenListsLeaves` | scripts/control-ui-i18n-verify.ts:53-73 | the flat form of such a catalog is the list of its leaves, in order, under their dotted paths |
| `UiCatalog.FlattenCanLose` | scripts/control-ui-i18n-verify.ts:62-70 | three concrete catalogs that break the last three conditions and what their leaves or objects become |
| `Placeholders.ExtractedIff` | scripts/control-ui-i18n-verify.ts:44-48 | the list holds exactly the words that stand between two braces in the text, each once |
| `Placeholders.WordCharacters` | scripts/control-ui-i18n-verify.ts:45 | words are made of letters, digits and underscores |
| `Placeholders.ListsAgreeIff` | scripts/control-ui-i18n-verify.ts:44-48 | the lists of two texts are equal exactly when the texts have the same placeholders |
| `UiCatalogCompare.CompareKeys` | scripts/control-ui-i18n-verify.ts:98-114 | the loop over English keys records fallbacks and placeholder mismatches |
| `UiCatalogCompare.CompareLocale` | scripts/control-ui-i18n-verify.ts:87-96 | orphan keys and key order of one locale |
| `UiCatalogCompare.AnalyzeControlUiCatalogs` | scripts/control-ui-i18n-verify.ts:75-124 | the whole comparison, locales and fallback keys sorted |
| `UiCatalogCompare.FallbacksExact` | scripts/control-ui-i18n-verify.ts:98-123 | a locale is listed for a key exactly when the key is English and the locale lacks it; each key once |
| `UiCatalogCompare.NoErrorsIff` | scripts/control-ui-i18n-verify.ts:84-115 | no errors exactly when every locale has the English key sequence without its fallback keys and each translation has the placeholders of its English text |
| `UiCatalogCompare.ErrorsExact` | scripts/control-ui-i18n-verify.ts:84-115 | each error, with the keys or lists of placeholders it carries, is reported exactly for a locale that has it |
| `UiCatalogCompare.LocaleRanked` | scripts/control-ui-i18n-verify.ts:87-115 | within a locale orphan keys come first, then the key order, then the mismatches in the order of English keys, each once |
| `UiCatalogCompare.AnalysisInOrder` | scripts/control-ui-i18n-verify.ts:84-123 | errors come by locale, fallbacks by key, each with its locales in order |
| `UiCatalogCompare.OrderIff` | scripts/control-ui-i18n-verify.ts:93-96 | a locale has the English key sequence exactly when its keys are some of the English ones, in order |
| `ArgumentScanner.QuoteScanState.BeginQuotedSection` | scripts/check-temp-path-guardrails.ts:48-54 | a quote character begins a quoted section |
| `ArgumentScanner.QuoteScanState.ConsumeQuotedChar` | scripts/check-temp-path-guardrails.ts:56-72 | inside a quoted section a character is consumed, honouring escapes and the closing quote |
| `ArgumentScanner.FindMatchingParen` | scripts/check-temp-path-guardrails.ts:74-97 | returns a closing parenthesis after balanced text, or -1 exactly when there is none |
| `ArgumentScanner.ClosesUnique` | scripts/check-temp-path-guardrails.ts:74-97 | at most one position closes a call |
| `ArgumentScanner.SplitTopLevelArguments` | scripts/check-temp-path-guardrails.ts:99-163 | the loop returns the trimmed pieces between top-level commas, without a blank last one |
| `ArgumentScanner.CutIff` | scripts/check-temp-path-guardrails.ts:99-151 | the cuts are exactly the commas outside quotes with no bracket of any kind open around them |
| `ArgumentScanner.NoCutInside` | scripts/check-temp-path-guardrails.ts:115-151 | between an unquoted bracket of any kind and the one that closes it there is no cut |
| `ArgumentScanner.CutAfterBalanced` | scripts/check-temp-path-guardrails.ts:151-155 | a comma after text that is balanced in all three kinds of brackets is a cut |
| `ArgumentScanner.ArgumentsAre` | scripts/check-temp-path-guardrails.ts:99-163 | the arguments are the texts between the cuts, trimmed, in order, and what follows the last cut unless it is blank |
| `ArgumentScanner.StringsAreQuoted` | scripts/check-temp-path-guardrails.ts:56-72 | a quoted string with its escapes is passed over: nothing in it is code and the scan is unquoted after it |
| `ArgumentScanner.PiecesRebuild` | scripts/check-temp-path-guardrails.ts:99-163 | the untrimmed pieces and the commas rebuild the text, one finished piece for each cut |
| `ArgumentScanner.ArgumentSplitsToItself` | scripts/check-temp-path-guardrails.ts:99-163 | splitting a non-empty returned argument again gives just that argument |

## Left out

- Strings are sequences of characters standing for UTF-16 code units; no surrogate, lone or in a pair, is a Dafny character, so the code unit made by a `\u` escape is a parameter, and for characters beyond the basic plane lengths, positions and `TextLe` are those of code points and not of code units.
- Numbers are exact reals or integers; floating-point rounding in the slope, the rank and the clock differences is not modelled.
- JavaScript objects are maps or ordered fields with ordinary keys; prototype keys and the reordering of integer-like keys are not modelled.
- Error messages of rendering are shortened to their kind, and the JSON texts compared there are compared as the lists they encode.
- `Format` models `%%` and `%k$s` only, the two forms the renderer produces; any other conversion is an error in the model.
- The signal controller's callbacks do not call back into the controller, and `process.exit` is recorded rather than ending the trace.
- The search for `nativeString(` before a literal and the regular expressions for inflected counts are outside the model; `localeCompare` is a parameter, and where lists of placeholders are compared it is taken to be a total preorder that tells any two words apart.
- Android's resource compiler reads escapes from left to right and is not part of this model; what is proved of reading rows back is about the script's own decoder.
- The writing and parsing of the row around its quoted text is not modelled: a row is read as it was written.
- TopLevelSplit.SplitTopLevelSegments: takes offsets within the text, in order, as its two callers pass them.
- RestartProbe.WaitForRestartProbe: takes the turns of a run up to one whose clock reading has reached the deadline; that such a turn comes is assumed of the clock.
- `retainedMemorySlopes`, `summarizeCase`, `hasBenchmarkFailures`, `summarize` and `selectInfoPlistTranslation` would only add easy members.
- Serialisation of catalogs, XML and Kotlin files, SHA-256 resource keys, command lines, processes, HTTP, files and timers are not part of this model.
- The members of `lib/import-cycle-graph.ts` and `managed-child-process` are not part of this model; the exit code of a signal is a parameter.
