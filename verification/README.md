# Verified model of the kitamanager-go calculation cores

This project models four parts of kitamanager-go in Dafny and proves what they promise.

* **Bill import** (`internal/isbj`). A facility uploads the Senate's spreadsheet. The importer finds the
  columns by their headers, reads every contract row up to the end of the table, reads amounts as cents from
  either locale's number format, checks the rows against the header figure, turns each row into
  key/value/amount triples that add up to the row total, and groups the rows by voucher. Money is conserved
  from the sheet's total column to the emitted triples; a table is never truncated silently; inserting blank
  columns changes nothing.
* **Name matching** (`internal/fuzzy`). Jaro-Winkler similarity with a greedy windowed scan over two flag
  arrays, and a greedy token assignment on top. The scan is the unique stable matching of the two strings,
  which makes the score symmetric, and it is a maximum matching.
* **Funding sync** (`internal/importer`, with the refusals of `internal/service`). A keyed diff of a funding
  file against stored periods. When an incremental import succeeds it leaves what a fresh import would build;
  exactly when it succeeds, and what a second import reports, is part of the results.
* **Limiters** (`internal/middleware`). The request rate limiter and the throttle on audit rows, as classes
  whose state is a function of the history of calls. The results are about whole runs: other actors and
  sweeps are invisible, no refusal is lost, and any interval of one window length sees at most
  `2 * limit - 1` grants.

## How it is laid out

| file | contents |
|---|---|
| `Text`, `Numbers`, `Money` | string, digit and rounding operations of the Go standard library |
| `Decimal`, `Bill`, `Sheet`, `Facility`, `Vertrag`, `Korrektur` | reading the spreadsheet |
| `ConvertRow`, `Grouping`, `BillImport` | conversion, grouping and the whole import |
| `GreedyMatching`, `JaroWinkler`, `TokenAssignment`, `NameSimilarity` | name matching |
| `PropertyKey`, `FundingService`, `PropertyDiff`, `PeriodSync`, `StoredRows`, `FundingFile`, `FundingImport` | funding sync |
| `FixedWindow`, `RateLimiter`, `DenialThrottle` | limiters |

Code that computes a value is a function with lemmas about it. Loops, in-place edits and mutable state are
methods and classes that are proved equal to such a function, or against a predicate that says what the
result means. Rows and columns are 0-based. A month is `12 * year + month`, and 0 is Go's zero time.
A string is the sequence of its runes; only the Winkler prefix looks at bytes.

Library behaviour enters as parameters: `lower` (unicode.ToLower), `parseFloat` and `parseInt` (strconv),
`parseDate`, `parseMonth` and `formatLabel`, `classify` (the reason patterns), and `now` for the clock.

## Findings

* The sliding bound of both limiters is `2 * limit - 1`, not `2 * limit`: the call that opens a window always
  lies before any interval that also reaches the next window. The bound is attained
  (`RateLimiter.SlidingBoundAttained`).
* `Remaining` announces grants correctly after every run exactly when the limit is positive
  (`RateLimiter.RemainingHonestIff`); with a limit of zero the first call of each window is still granted and
  never announced (`RateLimiter.ZeroLimitRuns`).
* Creating a property refuses a minimum age above the maximum, updating one also refuses equal ages. A stored
  property for a single age, such as `[2, 2]` (`configs/government-fundings/berlin.yaml:65-69`), can therefore never be changed by an import: the whole file is
  refused, although a fresh import of it goes through (`PropertyDiff.SingleAgeFrozen`,
  `PeriodSync.SingleAgeBlocks`). The exact condition is `PeriodSync.IncrementalSucceedsIff`.
* Overlaps are checked one period at a time against the store as it is at that moment, so the order of a file
  matters: a new period listed above the one that closes its stored open predecessor makes the import fail, as
  in a file that lists the newest period first (`configs/government-fundings/berlin.yaml:1-2`,
  `PeriodSync.OrderDecides`).
* The importer compares a generated label untrimmed with the stored one, which is trimmed. A property whose
  generated label is padded is reported as updated on every import (`PropertyDiff.ReimportSilent`,
  `FundingFile.PaddedLabelIff`), so a second import is silent exactly when there is none
  (`PeriodSync.SecondImport`).
* NaN passes the range checks of `cellAsCents` and `euroToCents`, because neither comparison holds of it. What
  is read as cents fits 32 bits exactly when the text does not parse as NaN (`Decimal.CentsFitIff`,
  `Decimal.NanCell`, `Money.EuroToCentsFitsIff`).
* A file that names a stored property twice does not converge: the second occurrence patches the same row
  instead of adding one (`PropertyDiff.ConvergesIff`). A file that repeats a key with different content and was
  imported fresh reports updates again on the next import (`PropertyDiff.RepeatedKeysReimport`), because each
  occurrence is compared with the row as it was loaded.
* The composite property key is injective among properties whose key is free of `|` and whose ages are not -1;
  values may contain `|`. Beyond that, `PropertyKey.MatchKeyIff` says which properties collide, and
  `PropertyKey.KeyUniqueIff` which collide with none.
* The month tokens of a correction text must not share characters: in `12/11/24` the second month stands between
  non-word characters like the first, and is not counted (`Korrektur.SharedDigitsSkipped`). What counts is exactly
  what a reader from the left finds (`Korrektur.TokensAre`).
* `normalizeDecimal` undoes both locales for every amount with two decimals. A whole amount in German
  grouping is read correctly exactly below one thousand: `1.234` is read as a decimal
  (`Decimal.WholeGermanReadIff`).

## Model

| member | source | states |
|---|---|---|
| GreedyMatching.FirstFree | internal/fuzzy/similarity.go:59-61 | the inner loop picks the leftmost admissible partner that is not taken; everything admissible before it is taken |
| GreedyMatching.GreedyStable | internal/fuzzy/similarity.go:56-68 | the scan ends in a one-to-one matching of equal characters at most matchDist apart in which no admissible pair would suit both ends better |
| GreedyMatching.StableUnique | internal/fuzzy/similarity.go:56-68 | there is exactly one such matching, so the scan order leaves no freedom |
| GreedyMatching.GreedyMirror | internal/fuzzy/similarity.go:56-68 | scanning from the other string flags exactly the mirrored pairs |
| GreedyMatching.Exchange | internal/fuzzy/similarity.go:43-68 | any matching that agrees with the scan below position i can be made to agree at i without losing a pair |
| GreedyMatching.GreedyMaximum | internal/fuzzy/similarity.go:43-68 | no one-to-one pairing of equal characters at most matchDist apart has more pairs than the scan flags |
| JaroWinkler.KeptBalanced | internal/fuzzy/similarity.go:53-68 | both flag arrays hold the same number of true flags, the number of matches, at most either length |
| JaroWinkler.FindPartner | internal/fuzzy/similarity.go:57-67 | the windowed inner loop finds the leftmost free partner over the whole second string |
| JaroWinkler.FlagMatches | internal/fuzzy/similarity.go:56-68 | in place, the two arrays end up flagging exactly the two sides of the matching, and matches is its size |
| JaroWinkler.NextFlag | internal/fuzzy/similarity.go:79-81 | the second cursor stops at a flag inside the array and skips no kept character |
| JaroWinkler.CountTranspositions | internal/fuzzy/similarity.go:74-86 | the two-cursor loop counts the positions at which the kept characters of the two strings differ |
| JaroWinkler.JaroSimilarity | internal/fuzzy/similarity.go:31-90 | the imperative scan computes the Jaro score of its specification |
| JaroWinkler.JaroRange | internal/fuzzy/similarity.go:32-39 | the Jaro score lies in [0,1] and is 1 exactly for equal strings |
| JaroWinkler.ScanSymmetric | internal/fuzzy/similarity.go:56-86 | match count, flagged positions and transposition count do not depend on which string is scanned |
| JaroWinkler.JaroSymmetric | internal/fuzzy/similarity.go:88-89 | the Jaro score is symmetric |
| JaroWinkler.OneStableMatching | internal/fuzzy/similarity.go:41-68 | two strings have exactly one stable matching of equal characters at the same position, or at positions whose distance plus one is at most half the longer length |
| JaroWinkler.JaroPositiveIff | internal/fuzzy/similarity.go:41-72 | different strings score above 0 if and only if such a pair of characters exists |
| JaroWinkler.JaroWritten | internal/fuzzy/similarity.go:70-90 | from that matching of m pairs, with t places at which its two sides differ, three times the score is m/len1 + m/len2 + (m - t/2)/m, and 0 without pairs |
| JaroWinkler.AgreeingBytes | internal/fuzzy/similarity.go:20-26 | the Winkler prefix is the longest common byte prefix within the limit |
| JaroWinkler.CommonPrefix | internal/fuzzy/similarity.go:20-26 | the prefix loop computes it, and byte indices below the rune counts are in range |
| JaroWinkler.SimilarityLaws | internal/fuzzy/similarity.go:9-29 | Jaro-Winkler lies in [0,1], is 1 exactly for strings of one length that agree rune by rune after lowercasing, and is symmetric |
| JaroWinkler.SimilarityWritten | internal/fuzzy/similarity.go:13-29 | the score is the Jaro score of the lowercased strings plus a tenth of what it lacks for each of at most four leading bytes that agree |
| JaroWinkler.RuneDecodes | internal/fuzzy/similarity.go:20-26 | the bytes compared are the UTF-8 encoding: they decode to the code point |
| JaroWinkler.Utf8Concat | internal/fuzzy/similarity.go:20-26 | a text is encoded rune by rune, in order |
| JaroWinkler.ComputeSimilarity | internal/fuzzy/similarity.go:13-29 | the code computes that score |
| TokenAssignment.Best | internal/fuzzy/similarity.go:120-132 | the pick is an unused token scoring at least as high as every unused one |
| TokenAssignment.AssignIsPicks | internal/fuzzy/similarity.go:112-137 | whatever list of picks follows the rule (first unused token with the highest positive score), the assignment totals exactly its scores and uses exactly its tokens |
| TokenAssignment.TokenScoreWritten | internal/fuzzy/similarity.go:149-181 | the token score is that total averaged over the shorter list, or over the first of two equally long ones |
| TokenAssignment.ServedExactly | internal/fuzzy/similarity.go:163-177 | a token with an unclaimed copy left is served with score 1 |
| TokenAssignment.PerfectIffIncluded | internal/fuzzy/similarity.go:160-180 | the greedy total is perfect if and only if the shorter token multiset is contained in the longer one |
| TokenAssignment.TokenScoreLaw | internal/fuzzy/similarity.go:149-181 | the token score lies in [0,1] and is 1 exactly for two non-empty nested token multisets |
| NameSimilarity.FieldsConcat | internal/fuzzy/similarity.go:102-103 | the fields of two names joined by a space are the fields of the first followed by those of the second |
| NameSimilarity.FieldsOfWord | internal/fuzzy/similarity.go:183-193 | a text without white space is its only field, which with the law above fixes the fields of every text |
| NameSimilarity.Tokenize | internal/fuzzy/similarity.go:183-193 | the trimming loop returns exactly the white-space fields of the lowercased text |
| NameSimilarity.AssignTokens | internal/fuzzy/similarity.go:118-137 | the assignment loop over the used array computes the greedy total |
| NameSimilarity.BestTokenScore | internal/fuzzy/similarity.go:150-181 | the last-name score is the token score of its specification |
| NameSimilarity.ComputeScore | internal/fuzzy/similarity.go:101-147 | the code computes the combined name score |
| NameSimilarity.ScoreWritten | internal/fuzzy/similarity.go:134-147 | five times the score is twice the last-name score plus twice the full token score plus the ratio of the token counts |
| NameSimilarity.ScoreLaw | internal/fuzzy/similarity.go:92-147 | the name score lies in [0,1] and is 1 exactly when the full token multisets are equal and non-empty and the non-empty last-name multisets are nested |
| Decimal.NormalizeUndoesPrinters | internal/isbj/parse.go:120-154 | every signed amount with two decimals, grouped or not, German or US, normalises to its plain decimal |
| Decimal.AmountsReadBack | internal/isbj/parse.go:156-171 | every amount that fits 32 bits is read back to the cent from either locale by a parser that is exact on its plain decimal |
| Decimal.PlainComma | internal/isbj/parse.go:139-153 | a text with one comma and no point has a decimal comma exactly if at most two characters follow, and otherwise loses it; a text without a comma is unchanged |
| Decimal.CentsOfIff | internal/isbj/parse.go:156-171 | a blank cell reads as 0, a number in range as its nearest cent, halves away from zero, a NaN as the minimum 64-bit integer, and nothing else is read |
| Decimal.WholeUSRead | internal/isbj/parse.go:146-149 | a whole amount in US grouping normalises to its digits |
| Decimal.WholeGermanReadIff | internal/isbj/parse.go:139-153 | a whole amount in German grouping does so exactly below one thousand |
| Decimal.ThousandsMisread | internal/isbj/parse.go:152-153 | 1.234 stands for 1234 and is left as it is |
| Decimal.CentsFitIff | internal/isbj/parse.go:156-171 | what is read as cents fits 32 bits if and only if the text does not parse as NaN; a NaN passes both comparisons and becomes the minimum 64-bit integer |
| Decimal.NanCell | internal/isbj/parse.go:163-170 | the cell NaN is such an input |
| Money.EuroToCentsFitsIff | internal/importer/government_funding.go:442-449 | a converted payment fits 32 bits exactly when the file states a number; infinities become 0 |
| Money.EuroToCentsIff | internal/importer/government_funding.go:442-449 | the payment is the nearest cent of a number in range, halves away from zero, and 0 for any other number |
| Sheet.MapFindsLast | internal/isbj/parse.go:692-707 | the header map holds exactly the non-blank texts, each with its last column |
| Sheet.BuildColumnMap | internal/isbj/parse.go:692-699 | the loop over header cells builds that map |
| Sheet.HeaderAtIff | internal/isbj/parse.go:443-456 | a header is found at a position if and only if that is the only cell of the sheet that contains it |
| Sheet.CellTextIff | internal/isbj/parse.go:104-110 | a cell reads as its text without the white space around it, and outside its row as blank |
| Sheet.HeaderTextIff | internal/isbj/parse.go:653-660 | a header text is the trimmed cell with a space for every line feed and carriage return |
| Text.TrimSpaceIff | internal/isbj/parse.go:104-110 | trimming removes the Unicode white space around a text and nothing else |
| Vertrag.ColumnsCarryTitles | internal/isbj/parse.go:709-791 | in an accepted layout every titled field is read below a cell that carries its own title, in the right one of the two header rows |
| Vertrag.ColumnsDistinct | internal/isbj/parse.go:709-791 | two fields of an accepted layout share a column only if one is titled in the header row and the other in the sub-header row; Typ is the column after Monat |
| Vertrag.ColumnChosen | internal/isbj/parse.go:709-791 | a field other than BuT is read from the last column with its title, or with its older title where the newer is missing |
| Vertrag.ButChosen | internal/isbj/parse.go:709-791 | the subsidy is read from the second BuT column of the header row, or from the only one |
| Vertrag.DiscoverColumns | internal/isbj/parse.go:664-805 | the discovery loops compute the layout, the second-BuT rule and the first data row, or the specified error |
| Vertrag.DiscoverIff | internal/isbj/parse.go:664-805 | a layout is found if and only if GutscheinNr stands in one cell only, every required title is present and a voucher row follows; the data starts at the first such row |
| Vertrag.DiscoverErrs | internal/isbj/parse.go:664-805 | otherwise the error says which of these fails, and names exactly the missing fields |
| Vertrag.NothingAboveData | internal/isbj/parse.go:793-802 | no row between the header and the first data row carries a voucher |
| Vertrag.ParseMonatTyp | internal/isbj/parse.go:882-950 | a parsed month is unknown or within 2000-2099 |
| Vertrag.MonthSpellingsAgree | internal/isbj/parse.go:928-949 | MM.YY and MM.20YY always mean the same, including the error cases |
| Vertrag.MonthReadBack | internal/isbj/parse.go:882-950 | for every month m and year 2000 + y, m in one or two digits, a dot and the year in two or four digits read back as 12 * (2000 + y) + m |
| Vertrag.MonthParsedIff | internal/isbj/parse.go:882-950 | nothing else but the blank is read: a month is parsed if and only if the text is digits, a dot and two or four digits that name it |
| Vertrag.KindOf | internal/isbj/parse.go:967-1063 | an accepted row has a valid district and care scope, carries its own voucher, and its total is the total cell |
| Vertrag.RowAcceptedIff | internal/isbj/parse.go:967-1063 | a row is accepted if and only if its month is blank or well written, its district is 1 to 12, its care scope is one of four and its amounts are readable; the first failure is the error |
| Vertrag.KindReadsOwnColumns | internal/isbj/parse.go:970-1060 | every text and figure of an accepted row is what the cell of its own field says |
| Vertrag.CellsFitIff | internal/isbj/parse.go:967-1063 | all amounts of an accepted row fit 32 bits if and only if none of its amount cells parses as NaN |
| Vertrag.ScanComplete | internal/isbj/parse.go:1092-1137 | a scan that succeeds has read every voucher row of the table in order, in one unbroken block, and stopped at a terminator or a blank |
| Vertrag.ScanSucceeds | internal/isbj/parse.go:1092-1137 | an unbroken readable block ended by a terminator or a blank is read |
| Vertrag.ScanFails | internal/isbj/parse.go:1092-1137 | a failed scan names the first row that is a hole in the table, no voucher or unreadable, and every row before it is readable |
| Vertrag.VoucherIff | internal/isbj/parse.go:615-616 | a voucher number is GB-, eleven digits, a dash and two digits |
| Vertrag.TableRowsExact | internal/isbj/parse.go:1092-1137 | a row is in the table if and only if it carries a voucher number and no cell of the voucher column from the start to it contains Abrechnungssumme |
| Vertrag.ParsedInPlace | internal/isbj/parse.go:1075-1138 | every text, amount, share and month of a parsed row stands below its own title, written out, in the right header row |
| Vertrag.ParsedIffWholeTable | internal/isbj/parse.go:1075-1138 | parsing succeeds with some rows if and only if the columns are found and those rows are the whole table |
| Vertrag.RemainingVoucherRows | internal/isbj/parse.go:1140-1168 | the loop counts the voucher rows below a blank, up to the terminator |
| Vertrag.ParseVertrag | internal/isbj/parse.go:1075-1138 | the unbounded loop terminates on every sheet and returns the specified rows or error |
| Vertrag.DiscoverShifts | internal/isbj/parse.go:664-805 | blank columns on the left shift every discovered column by their number and change nothing else, error cases included |
| Vertrag.ParsedShifts | internal/isbj/parse.go:1075-1138 | blank columns on the left change no parsed row and no error |
| Korrektur.KorrekturMonthRange | internal/isbj/parse_korrektur.go:180-207 | the span is the earliest and latest month token of the text, or both zero |
| Korrektur.TokensAre | internal/isbj/parse_korrektur.go:180-207 | the span is that of the months the text counts: MM/YY between non-word characters, read from the left without sharing characters |
| Korrektur.SharedDigitsSkipped | internal/isbj/parse_korrektur.go:180-207 | of the two months in 12/11/24 only the first counts |
| Korrektur.ReadRows | internal/isbj/parse_korrektur.go:130-177 | the row loop returns rows only when checked against the first total row; otherwise it names the first unreadable row, the wrong total or the missing one |
| Korrektur.ReadsSheetUnique | internal/isbj/parse_korrektur.go:96-178 | the sheet determines the rows, the nothing or the error that is returned |
| Korrektur.ParseKorrektur | internal/isbj/parse_korrektur.go:96-178 | without the sheet or its headers there is nothing to report |
| Korrektur.FindColumnsIff | internal/isbj/parse_korrektur.go:101-127 | the reason stands below the only cell that contains Korrekturgrund, the amount below the first cell of that row that mentions Betrag |
| Korrektur.ReadsWritten | internal/isbj/parse_korrektur.go:130-177 | each outcome on the cells: one entry per row above the first Korrektursumme that has a text or an amount, with its classified reason, its counted months and its cents; and exactly which cells make each error |
| Korrektur.CheckedIsWhole | internal/isbj/parse_korrektur.go:84-95 | checked rows include every non-blank row above the total, carry every cent of the amount column, sum to the stated total and are never inverted |
| Korrektur.SummarizeKorrektur | internal/isbj/parse_korrektur.go:222-253 | the summary is the exact minimum and maximum over rows that name a month, with the common reason |
| Korrektur.ReasonWritten | internal/isbj/parse_korrektur.go:243-252 | the common reason is the one all rows with a reason share, "mixed" where two disagree, and blank where none has one |
| Korrektur.OrderIrrelevant | internal/isbj/parse_korrektur.go:226-253 | row order does not change the summary |
| Korrektur.SplitIrrelevant | internal/isbj/parse_korrektur.go:226-253 | joining the summaries of two parts summarises the whole |
| Korrektur.SpanNotInverted | internal/isbj/parse_korrektur.go:229-242 | if every row's span is in order, so is the summary's |
| ConvertRow.ReconcileRow | internal/isbj/convert.go:197-244 | in place: success means the amounts sum to the row total and only the first parent:meals entry changed, by the residual; a refused row is untouched and gets the right error |
| ConvertRow.EmittedSum | internal/isbj/convert.go:165-170 | what a row emits adds up to its stated total |
| ConvertRow.KeysEmitted | internal/isbj/convert.go:260-321 | a key is emitted exactly when the row says something about it: its flag is active or there is money |
| ConvertRow.ComponentsKept | internal/isbj/convert.go:282-321 | every component reaches its own key to the cent; only parent carries the residual |
| ConvertRow.EmitsDue | internal/isbj/convert.go:260-321 | an accepted row emits exactly the entries that are due, field by field, each pair of key and value once |
| ConvertRow.PairsKept | internal/isbj/convert.go:260-321 | every component reaches its own key and value to the cent, only parent:meals also carries the residual, and any other pair carries nothing |
| ConvertRow.ValuelessIsZero | internal/isbj/convert.go:266-281 | an entry without a value has amount zero, so filtering drops no money |
| ConvertRow.MealsAlwaysThere | internal/isbj/convert.go:225-229 | the error about a missing parent:meals entry cannot occur for a converted row |
| ConvertRow.AcceptedReadings | internal/isbj/convert.go:207-218 | two accepted readings with the same total and subsidy differ by at most the meal share ceiling, and not at all without a subsidy |
| ConvertRow.AcceptedIff | internal/isbj/convert.go:197-244 | a row is accepted if and only if its care scope is one of four and its residual is 0 or has the opposite sign of the subsidy and at most 10000 cents; otherwise the error is as stated |
| ConvertRow.ConvertChild | internal/isbj/convert.go:254-338 | the code emits the specified triples, or the specified refusal |
| ConvertRow.LineBalanced | internal/isbj/convert.go:323-331 | a converted row's amounts add up to its total, which is the stated one, and it carries the row's own metadata |
| Grouping.GroupIsStablePartition | internal/isbj/convert.go:127-149 | children have distinct vouchers in order of first appearance, each with exactly its voucher's rows in input order, metadata of the first and the summed total |
| Grouping.RowsOfLines | internal/isbj/convert.go:135-148 | the rows of a voucher are those of its lines, one for one and in order |
| Grouping.ChildrenAreVouchers | internal/isbj/convert.go:150-150 | ChildrenCount is the number of distinct vouchers |
| Grouping.GroupConserves | internal/isbj/convert.go:135-148 | children's totals and emitted amounts both sum to the row totals |
| BillImport.ReadOrSumColumn | internal/isbj/parse.go:592-613 | a filled total cell is read, a blank one stands for the sum of the rows above it |
| BillImport.ParseAbrechnung | internal/isbj/parse.go:562-590 | the two header figures, each found under a header that occurs exactly once |
| BillImport.AbrechnungIff | internal/isbj/parse.go:562-590 | each figure is the cents of the cell where its own only header meets the only Summe: row, or where that is blank the sum of the cells between |
| BillImport.ReconcileAgainstHeader | internal/isbj/parse.go:379-393 | accepted if and only if the row totals sum to the header figure |
| BillImport.AddToChildren | internal/isbj/convert.go:135-148 | appending to a known child or starting a new one keeps the voucher index exact |
| BillImport.Convert | internal/isbj/convert.go:108-152 | all rows grouped and the exact correction summary, or the first row's error |
| BillImport.ConvertAllIff | internal/isbj/convert.go:127-133 | the rows convert if and only if each does; otherwise the error is that of the first refused row |
| BillImport.LineFrom | internal/isbj/convert.go:254-338 | line i is the conversion of row i and states its total |
| BillImport.SurchargesDue | internal/isbj/convert.go:119-123 | three facility surcharges, NDH, QM plus MSS, and integration, each under its own key and value |
| BillImport.MoneyConserved | internal/isbj/convert.go:168-174 | emitted amounts, children's totals and row totals are one sum, equal to the booking for a reconciled bill |
| BillImport.SheetToSettlement | internal/isbj/parse.go:359-378 | what is emitted is the sum of the total column over all voucher rows of the table |
| BillImport.ImportBill | internal/isbj/parse.go:313-356 | whether a workbook is refused, with which error, and everything it emits depends on the sheets other than the correction sheet; the emitted amounts add up to the stated contract booking, name, total, surcharges and month stand on the facility sheet, and the correction sheet only adds the summary of its checked rows |
| BillImport.RefusalMeans | internal/isbj/parse.go:313-356 | each refusal on the cells: the first check that fails, in the order facility, header, contracts, billing month, header total, rows |
| BillImport.UncheckedContributesNothing | internal/isbj/parse.go:337-348 | a missing, empty or broken correction sheet adds exactly the empty summary |
| BillImport.UploadEmitsTotalColumn | internal/isbj/parse.go:313-356 | an accepted workbook emits the total column over all voucher rows of its table |
| Facility.ValueOffset | internal/isbj/parse.go:410-427 | the value is the first cell within ten columns right of the label that is filled and does not repeat the label |
| Facility.ParseBillingMonth | internal/isbj/parse.go:399-441 | the search loop and the month cell below the value it finds |
| Facility.BillingMonthIff | internal/isbj/parse.go:399-441 | a month is read if and only if it stands below the first value right of the only cell that contains Trägernummer |
| Facility.EinrichtungIff | internal/isbj/parse.go:458-560 | the facility is read if and only if name, total and surcharges each stand below their own header, which occurs once; NDH falls back to its other spelling |
| BillImport.RowSumsFit | internal/isbj/convert.go:198-202 | no partial sum of a row's entries leaves 64 bits |
| BillImport.BillSumsFit | internal/isbj/parse.go:380-383 | for a parsed sheet within the row cap and without NaN cells neither the header sum nor any child's total leaves 64 bits at any step |
| BillImport.ParsedWithin | internal/isbj/parse.go:1092-1137 | every parsed row is a row of the sheet, so the cap on rows bounds the bill, and without NaN cells its amounts fit 32 bits |
| BillImport.ColumnTotalFits | internal/isbj/parse.go:604-611 | summing a header column by hand stays within 64 bits at every row |
| BillImport.CorrectionSumsFit | internal/isbj/parse_korrektur.go:131-168 | so does the running total of the correction rows |
| PropertyKey.MatchKeyInjective | internal/importer/government_funding.go:401-411 | two properties whose keys are free of the separator and whose ages are not -1 share a composite key if and only if key, value and ages agree |
| PropertyKey.MatchKeyIff | internal/importer/government_funding.go:401-411 | any two properties share a composite key if and only if they agree once cleaned: the key cut at its first separator, the rest moved into the value, an age of -1 taken for none |
| PropertyKey.CleanedShape | internal/importer/government_funding.go:401-411 | every property shares its key with its clean form, which differs from it exactly when it is not clean |
| PropertyKey.KeyUniqueIff | internal/importer/government_funding.go:410-410 | a property is alone with its composite key if and only if key and value are free of the separator and both ages are given and not -1 |
| FundingService.NormalizedIsNormal | internal/service/government_funding.go:501-513 | required keys end up trimmed, not blank, without repetition, and exactly those the list names |
| FundingService.NormalIffUnchanged | internal/service/government_funding.go:491-500 | normalising leaves exactly the normal lists alone, so the stored form compares equal to itself |
| FundingService.NormalizeRequiredKeys | internal/service/government_funding.go:501-513 | the loop computes that list |
| FundingService.NormalizedInOrder | internal/service/government_funding.go:501-513 | the keys keep the order of their first occurrences |
| FundingService.OverlapMeansDay | internal/service/helpers.go:96-112 | two periods that do not end before they start overlap if and only if they share a day |
| PropertyDiff.CountConserved | internal/importer/government_funding.go:299-324 | the stored count changes by exactly created minus deleted |
| PropertyDiff.WantedCounted | internal/importer/government_funding.go:299-314 | created counts exactly the file properties without a stored row, updated exactly those whose stored row differs |
| PropertyDiff.DeletedCounted | internal/importer/government_funding.go:316-324 | deleted counts exactly the stored properties the file does not name |
| PropertyDiff.ConvergesIff | internal/importer/government_funding.go:276-327 | over distinct stored keys the diff leaves what a fresh import builds if and only if the file repeats no stored key |
| PropertyDiff.RepeatDoesNotConverge | internal/importer/government_funding.go:300-313 | a stored property named twice stays one row, where a fresh import stores two |
| PropertyDiff.Converges | internal/importer/government_funding.go:276-327 | with distinct file keys the stored properties end up as exactly the wanted ones, in the form the service stores |
| PropertyDiff.FreshBuildsWanted | internal/importer/government_funding.go:215-221 | an empty period receives the wanted properties, in that form and in file order |
| PropertyDiff.StaleCopySurvives | internal/importer/government_funding.go:278-283 | a stored copy that the lookup table misses is never updated or deleted |
| PropertyDiff.ReimportSilent | internal/importer/government_funding.go:300-323 | over its own result a distinct-key file creates and deletes nothing and reports as updated exactly the properties the service stores trimmed |
| PropertyDiff.RepeatedKeysReimport | internal/importer/government_funding.go:358-382 | after a fresh import of repeated keys, re-import creates and deletes nothing, and reports no update if and only if same-key properties share their settled content |
| PropertyDiff.DisagreeingRepeatReported | internal/importer/government_funding.go:358-382 | two properties with one key and different content are reported as updated |
| PropertyDiff.DiffKeepsHealth | internal/importer/government_funding.go:276-327 | distinct keys and settled content of a period survive every diff against distinct clean keys |
| PropertyDiff.DiffAcceptedIff | internal/service/government_funding.go:359-382 | the service goes along with a diff if and only if what has no stored row can be created and what differs from its stored row can be changed |
| PropertyDiff.DiffVersusFresh | internal/service/government_funding.go:465-468 | a file that can be imported fresh is accepted over a store if and only if every property whose stored row differs has a label and ages that are not equal |
| PropertyDiff.SingleAgeFrozen | internal/service/government_funding.go:465-468 | a stored property for one single age cannot be changed by any import |
| PropertyDiff.AgeTwoFrozen | internal/service/government_funding.go:359-361 | the ages [2, 2] with a new payment are an instance: accepted fresh, refused over the stored row |
| PropertyDiff.ReimportAcceptedIff | internal/importer/government_funding.go:366-396 | importing a file over its own result is accepted if and only if its padded properties may be changed |
| PeriodSync.IncrementalEqualsFresh | internal/importer/government_funding.go:146-185 | a successful import leaves every file period with the metadata and properties a fresh import gives it; other periods are untouched, none is duplicated, and the store stays well kept |
| PeriodSync.ImportPlaces | internal/importer/government_funding.go:162-182 | position by position, the result is the stored period or what the diff makes of it, with new periods behind |
| PeriodSync.SucceedsIff | internal/importer/government_funding.go:162-182 | an import succeeds if and only if every file period has positive hours where it is new, does not overlap the earlier file periods and the stored ones not yet replaced where it is new or changed, and has its diff accepted |
| PeriodSync.FreshImported | internal/importer/government_funding.go:136-140 | a fresh import stores the file in settled form, and succeeds if and only if hours are positive, no two periods overlap and every property can be created |
| PeriodSync.IncrementalSucceedsIff | internal/service/government_funding.go:465-468 | a file that can be imported fresh goes through incrementally if and only if what it creates or changes is clear of stored periods not yet replaced, and every property whose stored row differs has a label and ages that are not equal |
| PeriodSync.OrderDecides | internal/service/helpers.go:96-134 | a successor listed before the stored open period is closed makes the import fail; the other order and both fresh imports go through |
| PeriodSync.SingleAgeBlocks | internal/service/government_funding.go:465-468 | changing one payment at ages [2, 2] makes the incremental import fail and not the fresh one |
| PeriodSync.ImportConservesCount | internal/importer/government_funding.go:162-182 | over a successful import the property count changes by exactly created minus deleted |
| PeriodSync.PeriodsCounted | internal/importer/government_funding.go:162-182 | periods count as created where their start is not stored, as updated where their metadata differs |
| PeriodSync.FreshCounts | internal/importer/government_funding.go:136-140 | a fresh import counts every period and every property as created and nothing else |
| PeriodSync.SecondImport | internal/importer/government_funding.go:66-69 | the same file again creates and deletes nothing, updates no period, counts exactly the padded properties as updated, and is accepted if and only if those may be changed |
| StoredRows.ProgressFinish | internal/importer/government_funding.go:316-324 | deleting the unseen rows by id leaves exactly the outcome of the diff |
| FundingImport.Importer.BuildLookup | internal/importer/government_funding.go:277-283 | the lookup table holds the last stored row of each composite key |
| FundingImport.Importer.CreateProperty | internal/service/government_funding.go:353-390 | refused if and only if the ages are inverted or key or value blank, changing nothing; otherwise the property becomes a new row with key, value, label and comment trimmed and all else as given |
| FundingImport.Importer.UpdateIfChanged | internal/importer/government_funding.go:357-399 | equal content passes; different content is refused for a blank label or ages that touch, and otherwise replaces the row's content in settled form |
| FundingImport.Importer.NoOverlap | internal/service/helpers.go:117-134 | the loop accepts a span if and only if no other period overlaps it |
| FundingImport.Importer.CreatePeriod | internal/service/government_funding.go:242-265 | refused if and only if a stored period overlaps; otherwise appended with settled metadata |
| FundingImport.Importer.UpdateMetaIfChanged | internal/importer/government_funding.go:234-269 | metadata equal to the settled file metadata passes unseen; otherwise it is refused for an overlap or replaced |
| FundingImport.Importer.ApplyEntries | internal/importer/government_funding.go:285-314 | the nested loops create or patch row by row and record which keys the file names; they fail if and only if the service refuses one of them |
| FundingImport.Importer.DeleteUnseen | internal/importer/government_funding.go:316-324 | the deletion loop, in any order, leaves the outcome of the diff and counts each deletion once |
| FundingImport.Importer.DiffProperties | internal/importer/government_funding.go:275-327 | fails if and only if the service refuses part of the diff; otherwise the period's rows become its outcome, other periods keep theirs, counters grow by the specified amounts |
| FundingImport.Importer.UpdatePeriodIfChanged | internal/importer/government_funding.go:226-273 | metadata first, then the diff, with the exact conditions of success |
| FundingImport.Importer.CreatePeriodWithProperties | internal/importer/government_funding.go:187-224 | succeeds if and only if both dates parse, hours are positive, no period overlaps and every property can be created; then one period with the settled wanted properties is appended |
| FundingImport.Importer.IncrementalImport | internal/importer/government_funding.go:145-185 | succeeds if and only if the dates parse and the specified import does, and then holds its result and counters |
| FundingImport.Importer.FreshImport | internal/importer/government_funding.go:122-143 | succeeds if and only if the dates parse and the import into nothing does, and then holds its result and counters |
| FundingImport.Importer.ImportFile | internal/importer/government_funding.go:92-106 | dispatches on whether the funding exists; success is exact, the counters are those of this import, and an error leaves the store as it was |
| FundingFile.BuildCarries | internal/importer/government_funding.go:329-355 | a stored property carries the trimmed key and value, first age as minimum and second as maximum, the label or else the generated one, the nearest cent, the requirement, the comment and the flag of its file property |
| FundingFile.FreshMatches | internal/importer/government_funding.go:122-143 | after a fresh import the store holds, period by period, the parsed dates, the metadata and for every file property its row, and no other row |
| FundingFile.IncrementalMatches | internal/importer/government_funding.go:145-185 | after an incremental import every file period stands in the store in just that way |
| FundingFile.FreshSucceedsIff | internal/importer/government_funding.go:187-224 | a fresh import succeeds if and only if all dates parse, hours are positive, no two periods collide, ages are in order or equal and no key or value is blank, on the fields of the file |
| FundingFile.DiffToleratedIff | internal/importer/government_funding.go:357-399 | a diff goes through if and only if each file property can be created where no row stands for it, and changed where its row differs |
| FundingFile.PaddedLabelIff | internal/importer/government_funding.go:331-334 | only a generated label can be stored in another form than the importer compares with |
| FundingFile.StoreWellKept | internal/importer/government_funding.go:66-69 | after any sequence of imports of well-formed files, accepted or refused, the store is well kept |
| FundingFile.NextImportConverges | internal/importer/government_funding.go:66-69 | after any such history the next import, if it succeeds, leaves its periods as a fresh import stores them |
| FixedWindow.SlidingBound | internal/middleware/ratelimit.go:32-34 | a log of fixed windows puts at most 2 * limit - 1 grants into any closed interval of one window length |
| FixedWindow.WindowBound | internal/middleware/ratelimit.go:94-97 | no fixed window holds more than limit grants |
| RateLimiter.NonInterference | internal/middleware/ratelimit.go:50-120 | everything an address is told depends only on its own operations; other addresses and every sweep are invisible |
| RateLimiter.LogDisciplined | internal/middleware/ratelimit.go:78-101 | in every run the entry of an address mirrors its current window, and a missing entry means that window is over |
| RateLimiter.GrantedIff | internal/middleware/ratelimit.go:77-101 | in every run a call is granted if and only if the address was granted nothing yet, or the window of its last grant is over, or holds fewer than limit grants |
| RateLimiter.GrantBounds | internal/middleware/ratelimit.go:78-101 | at most limit grants per window and 2 * limit - 1 per interval of one window length, in every run |
| RateLimiter.SlidingBoundAttained | internal/middleware/ratelimit.go:85-100 | for every positive limit some run attains that bound |
| RateLimiter.RemainingPredicts | internal/middleware/ratelimit.go:103-120 | if Remaining answers k, exactly the next k calls of that window are granted and all later ones refused, whatever happens in between |
| RateLimiter.RemainingHonestIff | internal/middleware/ratelimit.go:103-120 | after every run the preview announces a grant exactly when the next call gets one, if and only if the limit is positive |
| RateLimiter.ZeroLimitRuns | internal/middleware/ratelimit.go:77-101 | without a positive limit a call is granted exactly when the address got nothing for one window length, and the preview never announces one |
| RateLimiter.Limiter.AllowRequest | internal/middleware/ratelimit.go:77-101 | the call extends the history and answers as the history demands |
| RateLimiter.Limiter.RemainingRequests | internal/middleware/ratelimit.go:103-120 | the preview of the current state, which it leaves alone |
| RateLimiter.Limiter.ResetAddress | internal/middleware/ratelimit.go:122-127 | exactly this address is forgotten |
| RateLimiter.Limiter.CleanUp | internal/middleware/ratelimit.go:59-67 | exactly the expired entries are removed |
| DenialThrottle.OutstandingExact | internal/middleware/audit_denied.go:48-51 | the outstanding count is the number of refusals swallowed since the last written row |
| DenialThrottle.RowReportsSwallowed | internal/middleware/audit_denied.go:81-82 | a written row reports exactly the refusals swallowed since the row before it |
| DenialThrottle.Conservation | internal/middleware/audit_denied.go:48-51 | at every point of every run, refusals equal rows written plus counts reported plus the outstanding count |
| DenialThrottle.NonInterference | internal/middleware/audit_denied.go:53-55 | one actor's outcomes depend only on that actor's calls; other actors and any placement of forget are invisible |
| DenialThrottle.RowBounds | internal/middleware/audit_denied.go:83-107 | at most limit rows per window and 2 * limit - 1 per interval of one window length, in every run |
| DenialThrottle.WrittenIff | internal/middleware/audit_denied.go:83-107 | in every run a refusal is written if and only if the limit is positive and the actor has no row yet, or the window of the last row is over, or holds fewer than limit rows |
| DenialThrottle.Throttle.AdmitDenial | internal/middleware/audit_denied.go:83-107 | the call extends the history and reports what the history owes |
| DenialThrottle.Throttle.ForgetExpired | internal/middleware/audit_denied.go:109-120 | exactly the expired entries with nothing outstanding go, and no outstanding count changes |

## Left out

- Floating point: scores and finite amounts are exact reals, so rounding in the similarity scores, in
  `cellAsCents` and in `euroToCents` is not modelled. Infinite and NaN readings of an amount are.
- Money.EuroToCentsFitsIff: takes the conversion of NaN to an integer as amd64 makes it; Go leaves it to the processor.
- Sums over amounts read from NaN cells are unbounded here, where the code's wrap around; without such cells they
  agree (`BillImport.BillSumsFit`).
- A NaN as hours or requirement of a funding file: both are exact reals.
- The spreadsheet library: a sheet is a grid of texts. Merged cells, cached formulas, size limits and panics
  on malformed archives are not part of this model.
- Names, birthdates and figures in error messages: an error carries its kind, its row and the numbers compared.
- The reason patterns of corrections: the classification is a parameter.
- Errors of the database, and of creating or loading the funding record itself: a missing record is created, a
  present one is loaded with all its periods.
- Column widths of the database: texts of any length are stored.
- The label generator for unlabelled properties is a parameter.
- Locks and goroutines of the limiters: each method body runs under one mutex, so it is one step.
- The HTTP middleware around the limiters, including the sweep on every 256th refusal: any placement of
  sweeps is covered by the run theorems.
- RateLimiter.GrantBounds: speaks about runs in which the address itself is not reset, because a reset is meant to
  start its budget afresh; other addresses may be.
- RateLimiter.NonInterference: needs a clock that does not go back, like the code.
- DenialThrottle.RowBounds: needs clock readings after Go's zero time, which every wall clock gives, because a new
  entry's window end is that zero value.
- PropertyDiff.ConvergesIff: assumes distinct clean stored keys, because a stored duplicate is never touched
  (`PropertyDiff.StaleCopySurvives`).
- PeriodSync.IncrementalEqualsFresh: assumes that file periods start on distinct dates and file keys are distinct and
  clean; the exact role of repeated keys is `PropertyDiff.ConvergesIff`. For the store this is no assumption, see
  `FundingFile.StoreWellKept`.
- FundingImport.Importer.IncrementalImport: assumes a file whose periods start on distinct dates, because a repeated date
  would be compared with rows loaded before the first one was applied.
- FundingImport.Importer.ImportFile: assumes the same where the funding is already present.
- NameSimilarity.ScoreLaw: compares tokens after lowercasing them once more, as the similarity does.
- Contract amendments, funding calculation, bill comparison, handlers and export: outside these four parts.
