# Safe Harbor validator — a Dafny model

ARX's `SafeHarborValidator` checks a table for columns that look like one of the
identifier categories of the HIPAA Privacy Rule's Safe Harbor de-identification
method (section 164.514(b)(2) of 45 CFR). It runs in three steps.

1. **Column list.** It starts a list with every column index.
2. **Header scan.** Every column title is tried against every entry of a fixed
   thirteen-entry taxonomy.
   - Each entry whose labels accept the title adds a row-0 warning, so one column can
     collect several.
   - A column with at least one such warning is removed from the list by value.
3. **Content scan.** The iterator's first element, the header row, is skipped, and data
   rows are numbered from 1.
   - In each row, the remaining positions of the list are visited from last to first.
   - A cell that some entry's pattern accepts yields one warning, naming the first such
     entry in taxonomy order, with the cell as evidence.
   - That column is then removed from the list at its position, so it is never
     examined again.

The result is every header warning followed by every content warning.

The model is organised as follows:

- **Label and pattern tests.** They are a `Matcher`, two arbitrary total predicates
  passed as a parameter. Every property proved here therefore holds whatever the
  edit-distance and regular-expression code does.
- **Engine.** It is stated for an arbitrary taxonomy `attrs`, and the validator passes
  the literal thirteen-entry `Hipaa.Attributes()`.
- **Data handle.** It is a header sequence plus the iterator's elements (`rows`), so
  `rows[r]` is data row `r`.
- **Loops that mutate the list.** These are the header scan's remove-by-value and the
  content scan's descending remove-by-index loop. They are methods with loop
  invariants.
- **Reference definitions.** Each method is proved equal to a pure function:
  - `HeaderWarnings` and `HeaderMatchedColumns` for the header scan;
  - `DescHits` and `Kept` for one row;
  - `ScanRows` for the whole content scan.
- **Independent characterisations.** Lemmas relate those functions to definitions
  written without the scan:
  - `HeaderMatched` for titles;
  - `FirstPatternMatch` for cells;
  - `FirstHitRow` for the first data row whose cell in a column matches;
  - `HeaderWarned` and `ContentWarned` for the final report.

Files:

- `wrappers.dfy`: `Option`.
- `hipaa.dfy`: the categories, the labels and patterns, the taxonomy, the warnings, the
  handle and the matcher.
- `column_list.dfy`: the column list and its two kinds of removal.
- `header_scan.dfy`: `checkColumnTitles`.
- `row_scan.dfy`: both `checkRows` overloads.
- `validator.dfy`: `getColumns`, both `validate` overloads, and the corrected limit
  handling.

Points of the code the model keeps exactly:

- **Header scan.** The attribute loop for a title has no `break`
  (SafeHarborValidator.java:104-109). A column therefore gets one warning per entry
  whose labels accept its title, in taxonomy order. Removing an index that was already
  removed is a no-op.
- **Content scan.** For each cell, the pattern of every entry is tried in taxonomy
  order, and the loop stops at the first that accepts (lines 134-139).
- **Limit in `validate`.** The Javadoc of `validate` says that `limit` is the number of
  rows which should be validated (line 60). The code ignores it, because both branches
  call the unbounded scan (lines 70-73; see Findings).
- **Limit in the bounded `checkRows`.** It examines the rows whose number is below
  `limit`, that is `limit - 1` data rows (line 129). A `limit` of 1 already means
  header warnings only. The corrected `SafeHarbor.ValidateLimited` keeps that meaning
  of the source's own bounded scan.

## Model

| member | source | states |
|---|---|---|
| Hipaa.TaxonomyShape | src/main/org/deidentifier/arx/risk/hipaa/SafeHarborValidator.java:35-54 | The taxonomy has 13 entries in source order. Exactly entries 1, 4, 8 and 10 (address, telephone, certificate, device) have no value pattern. The telephone entry's second label is the literal text "telephone, 1" with the default tolerance. |
| Hipaa.PatternMatchHasPattern | src/main/org/deidentifier/arx/risk/hipaa/SafeHarborValidator.java:35-54 | Under a matcher that never accepts a missing pattern, a cell is only ever attributed to a category with a pattern. Telephone, certificate and device numbers are found by header only. |
| Hipaa.FirstPatternMatch | src/main/org/deidentifier/arx/risk/hipaa/SafeHarborValidator.java:134-139 | The attribute a cell is attributed to accepts it, and no earlier attribute does. There is none exactly when no attribute's pattern accepts the cell. |
| SafeHarbor.GetColumns | src/main/org/deidentifier/arx/risk/hipaa/SafeHarborValidator.java:87-93 | The initial list is exactly 0, 1, …, n-1 for n columns, strictly ascending. |
| ColumnList.RemoveValueCount | src/main/org/deidentifier/arx/risk/hipaa/SafeHarborValidator.java:107 | Remove-by-value, as `List.remove(Object)`. An absent value leaves the list unchanged. For a present value, the result is the list with its first occurrence cut out and every other element kept in order, so the length drops by one and the multiset loses one copy. |
| ColumnList.RemoveValueFirst | src/main/org/deidentifier/arx/risk/hipaa/SafeHarborValidator.java:107 | A present value is removed at the position of its first occurrence, and the elements before and after it keep their order. |
| ColumnList.RemoveAt | src/main/org/deidentifier/arx/risk/hipaa/SafeHarborValidator.java:137 | Remove-by-index. Elements before the position keep their place, later ones move down by one, and the length drops by one. |
| ColumnList.ExceptMembers | src/main/org/deidentifier/arx/risk/hipaa/SafeHarborValidator.java:101-112 | What remains of a list after a set of columns is taken off: exactly its members outside the set, never more elements than before. |
| ColumnList.ExceptAscending | src/main/org/deidentifier/arx/risk/hipaa/SafeHarborValidator.java:101-112 | Taking columns off a strictly ascending list leaves it strictly ascending. |
| ColumnList.RemoveValueExcept | src/main/org/deidentifier/arx/risk/hipaa/SafeHarborValidator.java:105-107 | On a strictly ascending list, removing a column by value from what remains equals taking that column off too. Removing an already removed column changes nothing. |
| HeaderScan.LabelHitsMembers | src/main/org/deidentifier/arx/risk/hipaa/SafeHarborValidator.java:104-109 | A warning is among one column's header warnings exactly when it has that column, row 0 and the title as evidence, and names the category of some attribute whose labels accept the title. |
| HeaderScan.HeaderWarningsMembers | src/main/org/deidentifier/arx/risk/hipaa/SafeHarborValidator.java:103-110 | A warning is a header warning exactly when it is on row 0, for an existing column, with that column's title, and with the category of an attribute that accepts the title. |
| HeaderScan.AcceptingMembers | src/main/org/deidentifier/arx/risk/hipaa/SafeHarborValidator.java:104-105 | The accepting positions of the taxonomy for a title are listed exactly, each once, in ascending order. |
| HeaderScan.LabelHitsAccepting | src/main/org/deidentifier/arx/risk/hipaa/SafeHarborValidator.java:104-107 | One column's header warnings are one per accepting attribute, in taxonomy order: the j-th names the category of the j-th accepting attribute. Two accepting entries of the same category, such as the two geographic-subdivision entries, give two equal warnings. |
| HeaderScan.LabelHitsShape | src/main/org/deidentifier/arx/risk/hipaa/SafeHarborValidator.java:104-109 | Every header warning of one column carries that column, row 0 and its title as evidence. |
| HeaderScan.HeaderWarningsShape | src/main/org/deidentifier/arx/risk/hipaa/SafeHarborValidator.java:103-110 | Header warnings over the first n columns are all on row 0 and about one of those n columns. |
| HeaderScan.HeaderMatchedColumnsMembers | src/main/org/deidentifier/arx/risk/hipaa/SafeHarborValidator.java:103-108 | The columns the header scan takes off are exactly those among the first n whose title some attribute accepts. |
| HeaderScan.HeaderWarningsSorted | src/main/org/deidentifier/arx/risk/hipaa/SafeHarborValidator.java:103-110 | Header warnings are in ascending column order. |
| HeaderScan.HeaderWarningsOfColumn | src/main/org/deidentifier/arx/risk/hipaa/SafeHarborValidator.java:104-109 | The header warnings of one column are exactly its label hits, in taxonomy order. This allows several per column, because there is no early exit. |
| HeaderScan.HeaderWarningsInside | src/main/org/deidentifier/arx/risk/hipaa/SafeHarborValidator.java:104-109 | For a column inside the header, its header warnings are exactly the label hits of its title. |
| HeaderScan.HeaderWarningsOutside | src/main/org/deidentifier/arx/risk/hipaa/SafeHarborValidator.java:103-110 | A column outside the header has no header warnings. |
| HeaderScan.HeaderWarnedIffMatched | src/main/org/deidentifier/arx/risk/hipaa/SafeHarborValidator.java:103-108 | A column has a header warning if and only if some attribute accepts its title. |
| HeaderScan.QuietTitle | src/main/org/deidentifier/arx/risk/hipaa/SafeHarborValidator.java:104-109 | A title no attribute accepts yields no header warning. |
| HeaderScan.QuietHeaders | src/main/org/deidentifier/arx/risk/hipaa/SafeHarborValidator.java:103-110 | A table none of whose titles is accepted gets no header warning. |
| HeaderScan.CheckColumnTitle | src/main/org/deidentifier/arx/risk/hipaa/SafeHarborValidator.java:104-109 | The inner attribute loop for one title. It yields that title's label hits and takes the column off the list when, and only when, some attribute accepts the title. |
| HeaderScan.CheckColumnTitles | src/main/org/deidentifier/arx/risk/hipaa/SafeHarborValidator.java:101-112 | The header scan yields exactly the header warnings. It leaves the original list minus exactly the columns with an accepted title, still strictly ascending. |
| RowScan.MatchPattern | src/main/org/deidentifier/arx/risk/hipaa/SafeHarborValidator.java:134-140 | The pattern loop with `break` finds the first attribute, in taxonomy order, whose pattern accepts the cell. It finds none exactly when no pattern accepts it. |
| RowScan.ScanRowStep | src/main/org/deidentifier/arx/risk/hipaa/SafeHarborValidator.java:131-139 | Removing at the current position of the descending loop only shifts positions already visited. The list before that position is still the original one. |
| RowScan.VisitColumn | src/main/org/deidentifier/arx/risk/hipaa/SafeHarborValidator.java:133-139 | Visiting one position extends the row's warnings and survivors by exactly that position's column. |
| RowScan.ScanRow | src/main/org/deidentifier/arx/risk/hipaa/SafeHarborValidator.java:131-141 | The descending remove-by-index loop visits every column that was listed at the start of the row exactly once, skipping none. Its warnings and survivors are the row's reference results. |
| RowScan.DescHitsMembers | src/main/org/deidentifier/arx/risk/hipaa/SafeHarborValidator.java:133-138 | A row's warnings are exactly one per listed column whose cell some pattern accepts, with the first accepting category and the cell. |
| RowScan.KeptMembers | src/main/org/deidentifier/arx/risk/hipaa/SafeHarborValidator.java:137 | After a row, the list holds exactly the listed columns whose cell no pattern accepts. |
| RowScan.RowDescending | src/main/org/deidentifier/arx/risk/hipaa/SafeHarborValidator.java:131-139 | Over an ascending list, one row's warnings come in strictly decreasing column order, because the loop runs from the last position down. |
| RowScan.KeptAscending | src/main/org/deidentifier/arx/risk/hipaa/SafeHarborValidator.java:131-139 | Removing positions from an ascending list during one row leaves it ascending. |
| RowScan.RowCount | src/main/org/deidentifier/arx/risk/hipaa/SafeHarborValidator.java:131-139 | Every column listed at the start of a row either raises a warning in it or survives it. |
| RowScan.RowShape | src/main/org/deidentifier/arx/risk/hipaa/SafeHarborValidator.java:131-139 | Within a row, warnings are in strictly decreasing column order. The survivors stay ascending, and warnings plus survivors number the columns listed. |
| RowScan.CheckRows | src/main/org/deidentifier/arx/risk/hipaa/SafeHarborValidator.java:120-145 | The content scan skips the iterator's first element. It then equals the row-by-row reference scan, and every content warning has a data row number r with 1 <= r < limit. |
| RowScan.CheckRowsAll | src/main/org/deidentifier/arx/risk/hipaa/SafeHarborValidator.java:147-149 | The overload without a limit scans with bound Integer.MAX_VALUE, so every content warning has 1 <= row < 2147483647. |
| RowScan.FirstHitRow | src/main/org/deidentifier/arx/risk/hipaa/SafeHarborValidator.java:123-143 | The first examined data row whose cell in a column some pattern accepts. Nothing is found exactly when no examined row's cell in that column is accepted. |
| RowScan.ScanRowsRemaining | src/main/org/deidentifier/arx/risk/hipaa/SafeHarborValidator.java:129-143 | After the content scan, the list holds exactly the listed columns that no examined row hits. |
| RowScan.ScanRowsWarningAt | src/main/org/deidentifier/arx/risk/hipaa/SafeHarborValidator.java:129-143 | One given warning is raised by the content scan if and only if its column is listed, some examined row hits it, and it is the hit at the first such row. |
| RowScan.ScanRowsWarnings | src/main/org/deidentifier/arx/risk/hipaa/SafeHarborValidator.java:129-143 | A content warning exists exactly for each listed column that some examined row hits. It is reported at the first such row, with that row's cell, and nothing else is reported. |
| RowScan.ScanRowsOrder | src/main/org/deidentifier/arx/risk/hipaa/SafeHarborValidator.java:129-143 | Content warnings come row by row, and within a row from the highest column down, with no column reported twice. |
| RowScan.ScanRowsLeft | src/main/org/deidentifier/arx/risk/hipaa/SafeHarborValidator.java:129-143 | Over the whole content scan, every listed column is either reported once or left, and the columns left stay ascending. |
| RowScan.ScanRowsShape | src/main/org/deidentifier/arx/risk/hipaa/SafeHarborValidator.java:129-143 | Content warnings come row by row, and within a row from the highest column down. No column is reported twice. Warnings plus survivors number the columns listed, and the survivors stay ascending. |
| SafeHarbor.UnflaggedMembers | src/main/org/deidentifier/arx/risk/hipaa/SafeHarborValidator.java:66-68 | The columns handed to the content scan are exactly those whose title no attribute accepts, in ascending order. |
| SafeHarbor.UnflaggedFits | src/main/org/deidentifier/arx/risk/hipaa/SafeHarborValidator.java:133-135 | On a well-formed handle, every column handed to the content scan has a cell in every data row. |
| SafeHarbor.ContentWarningsMembers | src/main/org/deidentifier/arx/risk/hipaa/SafeHarborValidator.java:70-73 | A warning is a content warning exactly when it is `ContentWarned`: a column whose title no attribute accepts, at the first examined data row whose cell some pattern accepts, with the first accepting category and the cell. A header-matched column is never content-warned. |
| SafeHarbor.ContentWarningsRows | src/main/org/deidentifier/arx/risk/hipaa/SafeHarborValidator.java:123-129 | Every content warning comes from an existing data row numbered from 1 and below the row bound. |
| SafeHarbor.ContentWarningsShape | src/main/org/deidentifier/arx/risk/hipaa/SafeHarborValidator.java:70-73 | Content warnings are in scan order, each column appears at most once, and there are no more content warnings than columns left after the header scan. |
| SafeHarbor.ScanMembers | src/main/org/deidentifier/arx/risk/hipaa/SafeHarborValidator.java:66-75 | A warning is reported if and only if it is a header warning or a content warning, in both directions. |
| SafeHarbor.ScanOrdered | src/main/org/deidentifier/arx/risk/hipaa/SafeHarborValidator.java:68-75 | All header warnings, by column, come before all content warnings. Content warnings are by row, and within a row by decreasing column. |
| SafeHarbor.OrderConcat | src/main/org/deidentifier/arx/risk/hipaa/SafeHarborValidator.java:71-73 | Appending content warnings in scan order to row-0 warnings sorted by column gives the report order. |
| SafeHarbor.Validate | src/main/org/deidentifier/arx/risk/hipaa/SafeHarborValidator.java:63-76 | As written, the result is the same for every `limit`. Its members are exactly the header and content warnings of the unbounded scan, in report order. |
| SafeHarbor.ValidateAll | src/main/org/deidentifier/arx/risk/hipaa/SafeHarborValidator.java:78-80 | `validate(handle)` calls the as-written `validate` with the sentinel -1. It equals the as-written report, its members are exactly the header and unbounded content warnings, and it is in report order. |
| SafeHarbor.ValidateLimited | src/main/org/deidentifier/arx/risk/hipaa/SafeHarborValidator.java:70-73 | The corrected validator. A limit other than -1 keeps every content warning below it, a limit of at most 1 gives header warnings only, and -1 gives the unbounded report. |
| SafeHarbor.FirstDataRowReported | src/main/org/deidentifier/arx/risk/hipaa/SafeHarborValidator.java:66-75 | A cell of data row 1 that some pattern accepts, in a column whose title no attribute accepts, is reported whenever the row bound admits data row 1. |
| SafeHarbor.LimitIgnored | src/main/org/deidentifier/arx/risk/hipaa/SafeHarborValidator.java:70-73 | Concrete input on which the as-written validator reports a data-row warning although the limit is 0, so the as-written report differs from the report that honours the limit. |
| SafeHarbor.SsnAttributed | src/main/org/deidentifier/arx/risk/hipaa/SafeHarborValidator.java:134-139 | Under the example matcher, any taxonomy with a social security number entry attributes the example cell to that category, with the cell as evidence. |
| SafeHarbor.SsnCellHits | src/main/org/deidentifier/arx/risk/hipaa/SafeHarborValidator.java:35-54 | In the example, the social security number entry of the taxonomy accepts the cell, and the warning names that category. |
| SafeHarbor.LimitHonoured | src/main/org/deidentifier/arx/risk/hipaa/SafeHarborValidator.java:70-73 | On the same input the corrected validator with limit 0 reports nothing. |

## Left out

- **Label and pattern matching.** Edit-distance label matching and the nine value
  patterns are not part of this model: the classes `Label`, `Attribute` and the
  `*Pattern` classes. They are abstract predicates of a `Matcher`, so no regular
  expression or Levenshtein distance is invented.
- **Default tolerance.** The constructor `Label(String)` is not part of this model.
  Its default tolerance is taken to be 0, an exact match (`Hipaa.DefaultTolerance`).
- **Data handle I/O.** `DataHandle` and its iterator are reduced to a header sequence
  and a sequence of rows. Reading, parsing and I/O errors are left out.
- **Short rows.** The scanning methods require every data row to have a cell for
  every listed column (`RowScan.Fits`; `Hipaa.WellFormed` for the validator). The
  source needs less: it reads `row[index]` only for columns still listed, and only in
  rows below the bound (lines 129-135). So the precondition also excludes short rows
  the source handles normally: rows whose missing cells are in columns already
  removed, and rows that are never examined. An examined row that lacks a listed
  column's cell makes the source throw an `ArrayIndexOutOfBoundsException`, which is
  not modelled. The reference functions (`RowScan.ScanRows`, `RowScan.Hits`) are
  total and treat a missing cell as a non-match.
- **Java `int` width.** The row counter never exceeds `Integer.MAX_VALUE` under either
  bound, so it cannot wrap. Column indices and counts are unbounded integers, because
  a Java list cannot exceed that size anyway.
- **Object wiring.** `validate` creates a new validator and calls `initialize` each
  time. The model passes the fixed `Hipaa.Attributes()` instead, which is the same
  list on every call.
- **Identifier values.** The `Identifier` enumeration is not part of this model.
  Only the twelve categories the taxonomy refers to are declared.
- **GUI code.** The table view of quasi-identifier risks, the differential-privacy
  criterion editor and the table style configuration are left out. They are view
  code, with threads, floating point and widget state, and they hold no validator
  logic.

## Findings

| source | as written | input that shows it | evidently intended | confidence | as-written member | corrected member |
|---|---|---|---|---|---|---|
| src/main/org/deidentifier/arx/risk/hipaa/SafeHarborValidator.java:70-73 | Both branches of `if (limit == -1)` call `checkRows(handle, columns)`, the overload bounded by `Integer.MAX_VALUE`, so `limit` has no effect | A matcher that accepts no title and only the cell "123-45-6789" as a social security number; header ["col1"], data row 1 ["123-45-6789"], limit 0: the result contains the row-1 warning | The `else` branch passes the limit, `checkRows(handle, columns, limit)`, so content warnings come only from data rows below the limit | high (not executed) | SafeHarbor.LimitIgnored | SafeHarbor.ValidateLimited |
