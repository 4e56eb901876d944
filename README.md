# hogandiff core, modelled in Dafny

hogandiff compares two Excel workbooks, or two sheets, and reports the differences. This project
models the core of that comparison and proves properties of it. The model has three parts.

**Aligning lists.** A *correlator* pairs the elements of two lists. Each element lands in exactly
one entry, alone or paired with an element of the other side.
- The sequential correlator is the edit-distance dynamic programme, and it keeps list order.
- The shuffling correlator is the greedy matcher. It sorts the gap candidates and the pair candidates
  together by cost and takes the cheapest remaining one first, a pair winning a tie with a gap.
- The *evaluators* supply the gap cost and the difference cost of cells, rows, columns and names.

**Comparing sheets.** The *strategies* (SStrategies) align the rows and columns of two sheets,
with or without gaps. The *comparator* (SComparatorImpl1) then lists the cells that differ.
- An *SResult* is a sheet's result: redundant rows and columns plus the differing cells.
- A *BResult* is a book's result: one SResult per pair of sheet names.
- The two *menus* decide which sheets to compare.

**Reading the books.** These readers and loaders work step by step, as the Java classes do:
- the caching reader and the filtering reader over StAX events;
- the bookkeeping of the sheet reader that paints differences into .xlsx files: styles, column
  ranges and row targets;
- the entry manager that maps .xlsx sheet names to their parts;
- the event listeners that list and load the sheets of .xls files (BIFF records) and load the
  sheets of .xlsx files (SAX events);
- `CellReplica`, the value of one cell, and `ExcelUtils.normalizeFormula`.

Exceptions are `Result` values with an error kind. A Java `null` that the source checks is an
`Option` argument. The events and records that POI and the SAX parser deliver are sequences
passed as parameters.

## Model

| member | source | states |
|---|---|---|
| Pairs.Side.Opposite | src/main/java/xyz/hotchpotch/hogandiff/common/Pair.java:50-52 | the opposite of a side is the other side |
| Pairs.OppositeInvolution | src/main/java/xyz/hotchpotch/hogandiff/common/Pair.java:50-52 | taking the opposite twice gives the side back |
| Pairs.Of | src/main/java/xyz/hotchpotch/hogandiff/common/Pair.java:64-68 | succeeds exactly when both sides are non-null, giving a paired pair holding them; otherwise NullPointer |
| Pairs.Both | src/main/java/xyz/hotchpotch/hogandiff/common/Pair.java:64-68 | `of` applied to two non-null values succeeds with this pair |
| Pairs.OfNullable | src/main/java/xyz/hotchpotch/hogandiff/common/Pair.java:78-80 | each side is present exactly when its argument is, and holds it |
| Pairs.OnlyA | src/main/java/xyz/hotchpotch/hogandiff/common/Pair.java:90-93 | succeeds exactly for a non-null argument, with only side A present and holding it; otherwise NullPointer |
| Pairs.OnlyB | src/main/java/xyz/hotchpotch/hogandiff/common/Pair.java:103-106 | succeeds exactly for a non-null argument, with only side B present and holding it; otherwise NullPointer |
| Pairs.Empty | src/main/java/xyz/hotchpotch/hogandiff/common/Pair.java:113-115 | both sides absent; both accessors fail |
| Pairs.FlatOf | src/main/java/xyz/hotchpotch/hogandiff/common/Pair.java:126-130 | builds the same pair as `ofNullable` on the unwrapped optionals |
| Pairs.Pair.GetA | src/main/java/xyz/hotchpotch/hogandiff/common/Pair.java:148-150 | returns the value of side A exactly when it is present, and NoSuchElement otherwise |
| Pairs.Pair.AOrElse | src/main/java/xyz/hotchpotch/hogandiff/common/Pair.java:158-160 | the value of side A when present, the fallback otherwise |
| Pairs.Pair.GetB | src/main/java/xyz/hotchpotch/hogandiff/common/Pair.java:168-170 | returns the value of side B exactly when it is present, and NoSuchElement otherwise |
| Pairs.Pair.BOrElse | src/main/java/xyz/hotchpotch/hogandiff/common/Pair.java:178-180 | the value of side B when present, the fallback otherwise |
| Pairs.Pair.Get | src/main/java/xyz/hotchpotch/hogandiff/common/Pair.java:190-193 | a null side is NullPointer; side A behaves as `a()` and side B as `b()` |
| Pairs.ExactlyOneState | src/main/java/xyz/hotchpotch/hogandiff/common/Pair.java:247-288 | every pair is in exactly one of paired, only-A, only-B and empty |
| Pairs.Pair.IsOnly | src/main/java/xyz/hotchpotch/hogandiff/common/Pair.java:276-279 | a null side is NullPointer; `isOnly(A)` is `isOnlyA` and `isOnly(B)` is `isOnlyB` |
| Pairs.Pair.Map | src/main/java/xyz/hotchpotch/hogandiff/common/Pair.java:317-320 | keeps which sides are present and applies the function to each present side |
| Pairs.Pair.FlatMap | src/main/java/xyz/hotchpotch/hogandiff/common/Pair.java:331-334 | an absent side stays absent; a present side becomes what the function returns for it |
| Pairs.Pair.Reverse | src/main/java/xyz/hotchpotch/hogandiff/common/Pair.java:365-367 | each side of the result is the opposite side of the pair; only-A and only-B swap, paired and empty stay |
| Pairs.ReverseInvolution | src/main/java/xyz/hotchpotch/hogandiff/common/Pair.java:365-367 | reversing twice gives the pair back |
| Pairs.Equals | src/main/java/xyz/hotchpotch/hogandiff/common/Pair.java:370-376 | two pairs are equal exactly when both optional sides are equal; two empty pairs are equal |
| BookTypes.Values | src/main/java/xyz/hotchpotch/hogandiff/common/BookType.java:19-28 | the four constants, in declaration order |
| BookTypes.BookType.Extension | src/main/java/xyz/hotchpotch/hogandiff/common/BookType.java:50-63 | every extension is ".xls" with at most one more letter (".xls" itself for XLS) |
| BookTypes.FirstMatch | src/main/java/xyz/hotchpotch/hogandiff/common/BookType.java:42-44 | the filter-and-findFirst: a found index matches and no earlier type does; nothing found means no type matches |
| BookTypes.Of | src/main/java/xyz/hotchpotch/hogandiff/common/BookType.java:38-46 | a null file is NullPointer; a result is a type whose extension ends the name with no earlier matching type; NoSuchElement exactly when no type matches |
| BookTypes.AtMostOneMatches | src/main/java/xyz/hotchpotch/hogandiff/common/BookType.java:19-28 | no file name ends in two of the four extensions |
| BookTypes.OfIsTheMatchingType | src/main/java/xyz/hotchpotch/hogandiff/common/BookType.java:38-46 | whenever a type's extension ends the name, `of` returns that type |
| Cells.Of | src/main/java/xyz/hotchpotch/hogandiff/excel/CellReplica.java:29-35 | a null value is NullPointer; otherwise it succeeds exactly when row and column are non-negative (IllegalArgument if not), and the cell holds the three arguments |
| Cells.OfAddress | src/main/java/xyz/hotchpotch/hogandiff/excel/CellReplica.java:46-69 | a null address or value is NullPointer; every other failure (bad row number, empty column part, row 0) is IllegalArgument |
| Cells.ComputeOfAddress | src/main/java/xyz/hotchpotch/hogandiff/excel/CellReplica.java:46-69 | the scanning loop returns exactly what `OfAddress` specifies |
| Cells.ScanColumnPart | src/main/java/xyz/hotchpotch/hogandiff/excel/CellReplica.java:50-57 | the loop stops at the length of the leading run of 'A'..'Z' |
| Cells.ColumnIdx | src/main/java/xyz/hotchpotch/hogandiff/excel/CellReplica.java:79-96 | an empty name is IllegalArgument; any other name gives a non-negative index |
| Cells.ComputeColumnIdx | src/main/java/xyz/hotchpotch/hogandiff/excel/CellReplica.java:79-96 | the accumulating loop computes `ColumnIdx` |
| Cells.ParseAddress | src/main/java/xyz/hotchpotch/hogandiff/excel/CellReplica.java:50-63 | the shared split of an address into row number and column name fails only with IllegalArgument |
| Cells.GetIndex | src/main/java/xyz/hotchpotch/hogandiff/excel/CellReplica.java:108-130 | a null address is NullPointer; a result is a paired (row, column) with a non-negative column |
| Cells.ComputeIndex | src/main/java/xyz/hotchpotch/hogandiff/excel/CellReplica.java:108-130 | the scanning loop returns exactly what `GetIndex` specifies |
| Cells.RowZeroQuirk | src/main/java/xyz/hotchpotch/hogandiff/excel/CellReplica.java:120-125 | `getIndex("A0")` yields row -1, while `of("A0", v)` is IllegalArgument |
| Cells.ColumnLetters | src/main/java/xyz/hotchpotch/hogandiff/excel/CellReplica.java:139-159 | the bijective base-26 numeral of a positive number is non-empty and all capital letters |
| Cells.ColumnName | src/main/java/xyz/hotchpotch/hogandiff/excel/CellReplica.java:139-159 | a negative index is IllegalArgument; otherwise the name is non-empty and all 'A'..'Z' |
| Cells.ComputeColumnName | src/main/java/xyz/hotchpotch/hogandiff/excel/CellReplica.java:139-159 | the do-while loop with its reversed builder computes `ColumnName` |
| Cells.ReverseAppend | src/main/java/xyz/hotchpotch/hogandiff/excel/CellReplica.java:147-158 | reversing after appending a letter puts the letter first, as the reversed builder needs |
| Cells.ColumnValueOfLetters | src/main/java/xyz/hotchpotch/hogandiff/excel/CellReplica.java:79-96 | reading back the numeral of n gives n |
| Cells.ColumnLettersOfValue | src/main/java/xyz/hotchpotch/hogandiff/excel/CellReplica.java:139-159 | writing the value of a non-empty capital-letter name gives the name back |
| Cells.ColumnIdxOfName | src/main/java/xyz/hotchpotch/hogandiff/excel/CellReplica.java:79-96 | `getColumnIdx(getColumnName(j)) == j` for every j >= 0 |
| Cells.ColumnNameOfIdx | src/main/java/xyz/hotchpotch/hogandiff/excel/CellReplica.java:139-159 | `getColumnName(getColumnIdx(s)) == s` for every non-empty capital-letter name |
| Cells.GetAddress | src/main/java/xyz/hotchpotch/hogandiff/excel/CellReplica.java:169-175 | fails with IllegalArgument exactly for a negative index; an address starts with a capital letter |
| Cells.Cell.Address | src/main/java/xyz/hotchpotch/hogandiff/excel/CellReplica.java:220-222 | a cell's address is what `getAddress` returns for its row and column |
| Cells.ParseOwnAddress | src/main/java/xyz/hotchpotch/hogandiff/excel/CellReplica.java:108-130 | an address splits back into the row and column it was written from |
| Cells.GetIndexOfAddress | src/main/java/xyz/hotchpotch/hogandiff/excel/CellReplica.java:108-130 | `getIndex(getAddress(r, c)) == Pair.of(r, c)` for every r, c >= 0 |
| Cells.OfOwnAddress | src/main/java/xyz/hotchpotch/hogandiff/excel/CellReplica.java:46-69 | `of(address(), value)` rebuilds the same cell |
| Cells.FullwidthRowNumber | src/main/java/xyz/hotchpotch/hogandiff/excel/CellReplica.java:59-62 | the row number is read as `Integer.parseInt` reads it, in any script's decimal digits: of("A１", v) is the cell at row 0, column 0, and getIndex("A１") is (0, 0) |
| Cells.CellEquality | src/main/java/xyz/hotchpotch/hogandiff/excel/CellReplica.java:234-240 | two cells are equal exactly when row, column and value agree |
| ExcelUtils.NormalizeFormula | src/main/java/xyz/hotchpotch/hogandiff/excel/ExcelUtils.java:138-155 | the result is the trimmed formula with every space outside a string literal removed; the assertion's flag is set exactly when the trimmed formula leaves a literal open |
| ExcelUtils.StripOutsideSpaces | src/main/java/xyz/hotchpotch/hogandiff/excel/ExcelUtils.java:139-152 | the in-place scan that deletes a space and steps back computes the one-pass strip of the trimmed text, and ends inside a literal exactly when the quotes are unbalanced |
| ExcelUtils.KeepStep | src/main/java/xyz/hotchpotch/hogandiff/excel/ExcelUtils.java:144-150 | keeping a character (a quote flips the flag) moves the scan one place on, and the flag stays the parity of the quotes scanned |
| ExcelUtils.DropStep | src/main/java/xyz/hotchpotch/hogandiff/excel/ExcelUtils.java:146-149 | deleting a space outside a literal and stepping back leaves the scan's outcome and the quote count unchanged |
| ExcelUtils.StripSpacesExactly | src/main/java/xyz/hotchpotch/hogandiff/excel/ExcelUtils.java:143-151 | only spaces are removed: every other character survives in order, every quote is kept, the contents of each literal are untouched, and no space is left outside a literal |
| ExcelUtils.StripSpacesKeepsText | src/main/java/xyz/hotchpotch/hogandiff/excel/ExcelUtils.java:143-151 | the output is no longer than the input, keeps every non-space character in order, and keeps every quote |
| ExcelUtils.StripSpacesKeepsLiterals | src/main/java/xyz/hotchpotch/hogandiff/excel/ExcelUtils.java:143-151 | the contents of every string literal are unchanged |
| ExcelUtils.StripSpacesLeavesNoOutsideSpace | src/main/java/xyz/hotchpotch/hogandiff/excel/ExcelUtils.java:146-148 | every space left in the output lies inside a literal |
| ExcelUtils.StripSpacesKeepsEnds | src/main/java/xyz/hotchpotch/hogandiff/excel/ExcelUtils.java:143-151 | a first or last character that is not a space survives, in place |
| ExcelUtils.StripSpacesIdempotent | src/main/java/xyz/hotchpotch/hogandiff/excel/ExcelUtils.java:143-151 | a second scan deletes nothing more |
| ExcelUtils.StripSpacesKeepsTrimmed | src/main/java/xyz/hotchpotch/hogandiff/excel/ExcelUtils.java:139-151 | a trimmed text stays trimmed through the scan |
| ExcelUtils.NormalizedIdempotent | src/main/java/xyz/hotchpotch/hogandiff/excel/ExcelUtils.java:130-155 | normalising a normalised formula changes nothing |
| ExcelUtils.SpacedAndUnspacedAgree | src/main/java/xyz/hotchpotch/hogandiff/excel/ExcelUtils.java:130-134 | " 1 + 2" and "1+2" both normalise to "1+2" |
| ExcelUtils.NormalizedKeepsBalance | src/main/java/xyz/hotchpotch/hogandiff/excel/ExcelUtils.java:152 | the normalised formula closes every literal exactly when the trimmed one does |
| JavaText.ParseIntReadsOtherScripts | src/main/java/xyz/hotchpotch/hogandiff/poi/XSSFSheetLoaderWithEventApi.java:165 | `Integer.parseInt` reads the decimal digits of every script at their values: fullwidth "１２" is 12 and Arabic-Indic "-١٠" is -10 |
| JavaText.Trim | src/main/java/xyz/hotchpotch/hogandiff/excel/ExcelUtils.java:139 | the trimmed text is no longer than the input, has no character at or below U+0020 at either end, and an already trimmed text is returned unchanged |
| JavaText.TrimIsSubstring | src/main/java/xyz/hotchpotch/hogandiff/excel/ExcelUtils.java:139 | the trimmed text is a contiguous substring of the input |
| Evaluators.StringDiff | src/main/java/xyz/hotchpotch/hogandiff/diff/list/Evaluators.java:23-37 | a null string is NullPointer; otherwise the number of unpaired entries in the order-preserving alignment of the two code-point lists, with gap cost 1 and diff cost 0 for equal and Integer.MAX_VALUE for unequal code points |
| Evaluators.StringDiffIdentical | src/main/java/xyz/hotchpotch/hogandiff/diff/list/Evaluators.java:22-37 | a string compared with itself costs nothing |
| Evaluators.StringDiffBound | src/main/java/xyz/hotchpotch/hogandiff/diff/list/Evaluators.java:22-37 | the cost is at most the code-point counts of both strings together |
| Evaluators.StringDiffIsMinimal | src/main/java/xyz/hotchpotch/hogandiff/diff/list/Evaluators.java:22-37 | no order-preserving alignment that pairs only equal code points leaves fewer code points unpaired than the evaluator reports |
| Evaluators.UnpairedAndCost | src/main/java/xyz/hotchpotch/hogandiff/diff/list/Evaluators.java:30-36 | in this problem the number of unpaired entries is at most the alignment's cost, and equal to it when only equal code points are paired |
| Evaluators.DiagonalIsFree | src/main/java/xyz/hotchpotch/hogandiff/diff/list/Evaluators.java:30-32 | pairing every code point of a string with itself is an alignment of cost 0 |
| Evaluators.AllGapsCost | src/main/java/xyz/hotchpotch/hogandiff/diff/list/Evaluators.java:30-32 | leaving every code point unpaired costs the two lengths together |
| JavaText.Length | src/main/java/xyz/hotchpotch/hogandiff/diff/list/Evaluators.java:19-20 | the gap cost of a string is its number of UTF-16 code units: at least its number of characters, and exactly that when every character lies in the Basic Multilingual Plane |
| SequentialCorrelation.Choose | src/main/java/xyz/hotchpotch/hogandiff/list/SequentialCorrelator.java:157-170 | the chosen cost is the least of the diagonal, left and upper candidates and one of them; the diagonal wins every tie, the left one wins a tie with the upper one, and the direction named is the one whose cost was taken |
| SequentialCorrelation.NewSequentialCorrelator | src/main/java/xyz/hotchpotch/hogandiff/list/SequentialCorrelator.java:57-66 | a null gap or diff evaluator is NullPointer; otherwise the correlator holds exactly the two evaluators |
| SequentialCorrelation.CalcCosts | src/main/java/xyz/hotchpotch/hogandiff/list/SequentialCorrelator.java:111-126 | cell (i+1, 0) holds the gap cost of A[i], cell (0, j+1) the gap cost of B[j], and cell (i+1, j+1) the diff cost of A[i] against B[j] |
| SequentialCorrelation.CalcBestDirections | src/main/java/xyz/hotchpotch/hogandiff/list/SequentialCorrelator.java:135-174 | every cell other than (0, 0) gets the direction of the dynamic program: Upper down the first column, Left along the first row, the cheapest predecessor inside |
| SequentialCorrelation.FillBorders | src/main/java/xyz/hotchpotch/hogandiff/list/SequentialCorrelator.java:141-148 | the first column comes from above and the first row from the left, each accumulating the gap costs of the prefix |
| SequentialCorrelation.FillFirstColumn | src/main/java/xyz/hotchpotch/hogandiff/list/SequentialCorrelator.java:141-144 | down the first column the accumulated cost is the summed gap cost of A's prefix and the direction is Upper |
| SequentialCorrelation.FillFirstRow | src/main/java/xyz/hotchpotch/hogandiff/list/SequentialCorrelator.java:145-148 | along the first row the accumulated cost is the summed gap cost of B's prefix and the direction is Left |
| SequentialCorrelation.SweepAntiDiagonal | src/main/java/xyz/hotchpotch/hogandiff/list/SequentialCorrelator.java:152-171 | one anti-diagonal i + j == n of the interior gets its accumulated costs and directions, after all cells of smaller anti-diagonals |
| SequentialCorrelation.FillCell | src/main/java/xyz/hotchpotch/hogandiff/list/SequentialCorrelator.java:156-170 | one interior cell gets the least of its three candidate costs and the direction chosen with the source's tie order |
| SequentialCorrelation.AllDone | src/main/java/xyz/hotchpotch/hogandiff/list/SequentialCorrelator.java:152-173 | after the last anti-diagonal every cell of the table holds its direction |
| SequentialCorrelation.HarvestBestRoute | src/main/java/xyz/hotchpotch/hogandiff/list/SequentialCorrelator.java:183-210 | walking back from (n, m) to (0, 0) and prepending one entry per step yields the route of the direction table |
| SequentialCorrelation.Correlate | src/main/java/xyz/hotchpotch/hogandiff/list/SequentialCorrelator.java:77-98 | a null list is NullPointer, the same list object twice is IllegalArgument, and otherwise the result is the backtracked route of the dynamic program |
| SequentialCorrelation.RouteIsAlignment | src/main/java/xyz/hotchpotch/hogandiff/list/SequentialCorrelator.java:183-210 | the backtracked route is an order-preserving alignment of the two whole lists |
| SequentialCorrelation.RouteCost | src/main/java/xyz/hotchpotch/hogandiff/list/SequentialCorrelator.java:135-210 | the summed cost of the backtracked route equals the accumulated cost of its end cell |
| SequentialCorrelation.AccIsMinimal | src/main/java/xyz/hotchpotch/hogandiff/list/SequentialCorrelator.java:135-174 | no order-preserving alignment of the two prefixes costs less than the accumulated cost |
| SequentialCorrelation.CorrelationIsOptimal | src/main/java/xyz/hotchpotch/hogandiff/list/SequentialCorrelator.java:68-77 | the result of correlate is an order-preserving alignment of the lists whose cost is at most that of any other such alignment |
| SequentialCorrelation.AlignmentIndices | src/main/java/xyz/hotchpotch/hogandiff/list/SequentialCorrelator.java:68-77 | in an alignment, the A indices are exactly 0 .. n-1 in increasing order, and the B indices 0 .. m-1 |
| SequentialCorrelation.AlignmentEntriesNonEmpty | src/main/java/xyz/hotchpotch/hogandiff/list/SequentialCorrelator.java:192-203 | every entry of an alignment holds at least one index |
| SequentialCorrelation.CorrelationPartitions | src/main/java/xyz/hotchpotch/hogandiff/list/SequentialCorrelator.java:68-77 | the result of correlate holds every index of each list once, in increasing order |
| SequentialCorrelation.PresentIndices | src/main/java/xyz/hotchpotch/hogandiff/list/SequentialCorrelator.java:195-203 | every index an entry holds appears among the indices of its side |
| SequentialCorrelation.RouteBack | src/main/java/xyz/hotchpotch/hogandiff/list/SequentialCorrelator.java:190-207 | one step back along a cell's direction keeps the route found so far a suffix of the full route |
| ShufflingCorrelation.CompareTo | src/main/java/xyz/hotchpotch/hogandiff/diff/list/ShufflingCorrelator.java:71-116 | the answer is -1 or 1, or the AssertionError; a smaller cost comes first, and at equal cost a pair comes before a gap |
| ShufflingCorrelation.CompareToIsKeyOrder | src/main/java/xyz/hotchpotch/hogandiff/diff/list/ShufflingCorrelator.java:71-116 | compareTo answers -1 exactly when the candidate's key (cost, pair before gap, \|i - j\|, i + j, i; A gap before B gap, index) is lexicographically smaller, 1 exactly when it is larger, and reaches the AssertionError exactly when the two candidates are equal |
| ShufflingCorrelation.KeyOfInjective | src/main/java/xyz/hotchpotch/hogandiff/diff/list/ShufflingCorrelator.java:44-52 | two valid candidates share a key exactly when they are equal |
| ShufflingCorrelation.CompareToAntisymmetric | src/main/java/xyz/hotchpotch/hogandiff/diff/list/ShufflingCorrelator.java:71-116 | swapping the two candidates negates the answer, and one order reaches the AssertionError exactly when the other does |
| ShufflingCorrelation.CompareToTransitive | src/main/java/xyz/hotchpotch/hogandiff/diff/list/ShufflingCorrelator.java:71-116 | if x comes before y and y before z, then x comes before z |
| ShufflingCorrelation.PrecedesIsCompareTo | src/main/java/xyz/hotchpotch/hogandiff/diff/list/ShufflingCorrelator.java:71-116 | x may come before y in a sorted list exactly when compareTo(x, y) does not answer 1 |
| ShufflingCorrelation.PrecedesTotal | src/main/java/xyz/hotchpotch/hogandiff/diff/list/ShufflingCorrelator.java:71-116 | of two valid candidates, one may come before the other |
| ShufflingCorrelation.PrecedesTransitive | src/main/java/xyz/hotchpotch/hogandiff/diff/list/ShufflingCorrelator.java:71-116 | "may come before" is transitive |
| ShufflingCorrelation.GapsA | src/main/java/xyz/hotchpotch/hogandiff/diff/list/ShufflingCorrelator.java:156-157 | one A-gap candidate per element of list A, costed by the gap evaluator |
| ShufflingCorrelation.GapsB | src/main/java/xyz/hotchpotch/hogandiff/diff/list/ShufflingCorrelator.java:159-160 | one B-gap candidate per element of list B, costed by the gap evaluator |
| ShufflingCorrelation.PairRow | src/main/java/xyz/hotchpotch/hogandiff/diff/list/ShufflingCorrelator.java:163-164 | the pair candidates of one element of A against every element of B, costed by the diff evaluator |
| ShufflingCorrelation.PairsFrom | src/main/java/xyz/hotchpotch/hogandiff/diff/list/ShufflingCorrelator.java:162-164 | (n - i) * m pair candidates, each with an A index from i on and a B index within B |
| ShufflingCorrelation.PairsFromContains | src/main/java/xyz/hotchpotch/hogandiff/diff/list/ShufflingCorrelator.java:162-164 | every pair of indices has its pair candidate, costed by the diff evaluator |
| ShufflingCorrelation.Candidates | src/main/java/xyz/hotchpotch/hogandiff/diff/list/ShufflingCorrelator.java:167 | n + m + n * m candidates in all, every one of them valid |
| ShufflingCorrelation.Insert | src/main/java/xyz/hotchpotch/hogandiff/diff/list/ShufflingCorrelator.java:168 | inserting into a sorted list gives a sorted list holding the same candidates plus the new one |
| ShufflingCorrelation.Sort | src/main/java/xyz/hotchpotch/hogandiff/diff/list/ShufflingCorrelator.java:167-169 | the sorted list is a permutation of the candidates, ordered by compareTo |
| ShufflingCorrelation.SortedCons | src/main/java/xyz/hotchpotch/hogandiff/diff/list/ShufflingCorrelator.java:168 | a candidate that may precede every element of a sorted list may be put in front of it |
| ShufflingCorrelation.SortedTail | src/main/java/xyz/hotchpotch/hogandiff/diff/list/ShufflingCorrelator.java:173 | removing the first candidate of a sorted list leaves a sorted list, every element of which the removed one may precede |
| ShufflingCorrelation.DropA | src/main/java/xyz/hotchpotch/hogandiff/diff/list/ShufflingCorrelator.java:180 | removeIf on an A index keeps exactly the candidates without that A index, and keeps a sorted list sorted |
| ShufflingCorrelation.DropB | src/main/java/xyz/hotchpotch/hogandiff/diff/list/ShufflingCorrelator.java:183 | removeIf on a B index keeps exactly the candidates without that B index, and keeps a sorted list sorted |
| ShufflingCorrelation.Discard | src/main/java/xyz/hotchpotch/hogandiff/diff/list/ShufflingCorrelator.java:179-184 | after taking a candidate, exactly the candidates sharing neither of its indices remain, still sorted |
| ShufflingCorrelation.Entries | src/main/java/xyz/hotchpotch/hogandiff/diff/list/ShufflingCorrelator.java:176 | one entry per taken candidate |
| ShufflingCorrelation.EntriesOfPicks | src/main/java/xyz/hotchpotch/hogandiff/diff/list/ShufflingCorrelator.java:172-185 | one turn of the loop emits the head's entry and continues with what survives the head |
| ShufflingCorrelation.NewShufflingCorrelator | src/main/java/xyz/hotchpotch/hogandiff/diff/list/ShufflingCorrelator.java:129-138 | a null gap or diff evaluator is NullPointer; otherwise the correlator holds exactly the two evaluators |
| ShufflingCorrelation.Correlate | src/main/java/xyz/hotchpotch/hogandiff/diff/list/ShufflingCorrelator.java:148-191 | a null list is NullPointer, the same list object twice is IllegalArgument, and otherwise the result is the greedy selection over the sorted candidates |
| ShufflingCorrelation.DiscardKeepsGaps | src/main/java/xyz/hotchpotch/hogandiff/diff/list/ShufflingCorrelator.java:172-185 | taking the head removes exactly the head's indices from the remaining list, and every other index keeps its gap candidate |
| ShufflingCorrelation.PicksPartition | src/main/java/xyz/hotchpotch/hogandiff/diff/list/ShufflingCorrelator.java:172-185 | from a list in which every index has its gap candidate, the loop emits every occurring A index once and every occurring B index once |
| ShufflingCorrelation.IndicesStep | src/main/java/xyz/hotchpotch/hogandiff/diff/list/ShufflingCorrelator.java:172-185 | as multisets, the indices of a list are the head's indices plus those of what survives the head |
| ShufflingCorrelation.PicksSorted | src/main/java/xyz/hotchpotch/hogandiff/diff/list/ShufflingCorrelator.java:172-185 | the loop takes candidates of the list, in the list's order |
| ShufflingCorrelation.CandidatesIndices | src/main/java/xyz/hotchpotch/hogandiff/diff/list/ShufflingCorrelator.java:156-167 | the candidate list holds exactly the A indices 0 .. n-1 and B indices 0 .. m-1, each with its gap candidate |
| ShufflingCorrelation.CandidatesMembers | src/main/java/xyz/hotchpotch/hogandiff/diff/list/ShufflingCorrelator.java:167 | a candidate is an A gap, a B gap or a pairing |
| ShufflingCorrelation.CandidatesA | src/main/java/xyz/hotchpotch/hogandiff/diff/list/ShufflingCorrelator.java:156-167 | the A indices of the candidates are exactly 0 .. n-1, each with its gap candidate |
| ShufflingCorrelation.CandidatesB | src/main/java/xyz/hotchpotch/hogandiff/diff/list/ShufflingCorrelator.java:156-167 | the B indices of the candidates are exactly 0 .. m-1, each with its gap candidate |
| ShufflingCorrelation.SortKeepsIndices | src/main/java/xyz/hotchpotch/hogandiff/diff/list/ShufflingCorrelator.java:167-169 | sorting keeps the indices and the gap candidates |
| ShufflingCorrelation.GreedyPartitions | src/main/java/xyz/hotchpotch/hogandiff/diff/list/ShufflingCorrelator.java:148-191 | in the result every index of A, and every index of B, appears in exactly one entry |
| ShufflingCorrelation.GreedyInComparatorOrder | src/main/java/xyz/hotchpotch/hogandiff/diff/list/ShufflingCorrelator.java:167-185 | the candidates behind the entries come out in comparator order, so their costs never decrease |
| Correlators.WithShuffling | src/main/java/xyz/hotchpotch/hogandiff/list/Correlator.java:33-41 | a null evaluator is NullPointer; otherwise a shuffling correlator holding exactly the two evaluators |
| Correlators.ConsideringGaps | src/main/java/xyz/hotchpotch/hogandiff/list/Correlator.java:52-60 | a null evaluator is NullPointer; otherwise an order-preserving correlator holding exactly the two evaluators |
| Correlators.Correlate | src/main/java/xyz/hotchpotch/hogandiff/list/Correlator.java:64-71 | a null list is NullPointer, the same list object twice is IllegalArgument, and otherwise the implementation's correlation |
| Correlators.CorrelationPartitions | src/main/java/xyz/hotchpotch/hogandiff/list/Correlator.java:64-71 | whichever implementation, every index of each list appears in exactly one entry of the result |
| SStrategies.CompareKeys | src/main/java/xyz/hotchpotch/hogandiff/diff/excel/SStrategies.java:80 | the key comparison answers -1, 0 or 1; on row or column keys it is 0 exactly for equal indices and negative exactly for a smaller one |
| SStrategies.CompareKeysAntisymmetric | src/main/java/xyz/hotchpotch/hogandiff/diff/excel/SStrategies.java:80 | swapping the two cells negates the key comparison |
| SStrategies.CompareKeysTransitive | src/main/java/xyz/hotchpotch/hogandiff/diff/excel/SStrategies.java:80 | the key order is transitive |
| SStrategies.Range | src/main/java/xyz/hotchpotch/hogandiff/diff/excel/SStrategies.java:151-166 | the range of an empty cell set is (0, 0); otherwise 0 <= min <= max |
| SStrategies.RangeBounds | src/main/java/xyz/hotchpotch/hogandiff/diff/excel/SStrategies.java:151-166 | every cell's index lies within the range of its set |
| SStrategies.RangeAttained | src/main/java/xyz/hotchpotch/hogandiff/diff/excel/SStrategies.java:151-166 | the minimum and the maximum of a non-empty set are indices of some of its cells |
| SStrategies.UnionRange | src/main/java/xyz/hotchpotch/hogandiff/diff/excel/SStrategies.java:168-183 | the union range starts at the smaller of the two minimums and ends at the larger of the two maximums |
| SStrategies.UnionRangeBounds | src/main/java/xyz/hotchpotch/hogandiff/diff/excel/SStrategies.java:168-183 | every cell of either set lies within the union range |
| SStrategies.Strategy0Shape | src/main/java/xyz/hotchpotch/hogandiff/diff/excel/SStrategies.java:47-58 | strategy0 pairs every index of the union range with itself, ascending, with no unpaired index, so every cell's index is among them |
| SStrategies.DiagonalIndices | src/main/java/xyz/hotchpotch/hogandiff/diff/excel/SStrategies.java:54-56 | the identity pairs from lo list lo, lo + 1, ... on both sides |
| SStrategies.Filter | src/main/java/xyz/hotchpotch/hogandiff/diff/excel/SStrategies.java:72-74 | exactly the non-blank cells at the given index |
| SStrategies.InsertBy | src/main/java/xyz/hotchpotch/hogandiff/diff/excel/SStrategies.java:80 | inserting into a line sorted by key keeps it sorted and adds exactly the one cell |
| SStrategies.SortedByCons | src/main/java/xyz/hotchpotch/hogandiff/diff/excel/SStrategies.java:80 | a cell whose key is at most every key of a sorted line may be put in front of it |
| SStrategies.SortedByTail | src/main/java/xyz/hotchpotch/hogandiff/diff/excel/SStrategies.java:80 | the tail of a sorted line is sorted and its head's key is at most all of them |
| SStrategies.SortBy | src/main/java/xyz/hotchpotch/hogandiff/diff/excel/SStrategies.java:80 | sorting a line gives a permutation of it, ordered by key |
| SStrategies.Lines | src/main/java/xyz/hotchpotch/hogandiff/diff/excel/SStrategies.java:70-87 | one line per index from the union start to the set's own largest index |
| SStrategies.LinesAt | src/main/java/xyz/hotchpotch/hogandiff/diff/excel/SStrategies.java:76-86 | the line at position k is the line of index start + k |
| SStrategies.LineHoldsItsCells | src/main/java/xyz/hotchpotch/hogandiff/diff/excel/SStrategies.java:72-86 | the line of an index holds exactly the non-blank cells at that index, sorted by key |
| SStrategies.WalkStep | src/main/java/xyz/hotchpotch/hogandiff/diff/excel/SStrategies.java:120-137 | one turn of the first loop scores the current pair and moves on the iterator with the smaller key, or both on equal keys |
| SStrategies.DiffScore | src/main/java/xyz/hotchpotch/hogandiff/diff/excel/SStrategies.java:106-149 | a line compared with an empty line scores the other line's size |
| SStrategies.DiffEvaluator | src/main/java/xyz/hotchpotch/hogandiff/diff/excel/SStrategies.java:109-148 | the loops compute the walk's score: 2 for an equal key with a different value, 1 for a different key, 0 for an equal cell, and 1 for each cell left over on either side |
| SStrategies.WalkAdvance | src/main/java/xyz/hotchpotch/hogandiff/diff/excel/SStrategies.java:120-137 | one turn of the loop, stated on the positions and cells it moves to |
| SStrategies.DiffScoreIdentical | src/main/java/xyz/hotchpotch/hogandiff/diff/excel/SStrategies.java:106-149 | two identical lines score 0 |
| SStrategies.MergeIdentical | src/main/java/xyz/hotchpotch/hogandiff/diff/excel/SStrategies.java:120-137 | walking two identical lines from the same position scores 0 |
| SStrategies.DiffScoreSymmetric | src/main/java/xyz/hotchpotch/hogandiff/diff/excel/SStrategies.java:106-149 | the score does not depend on which line is A |
| SStrategies.MergeSymmetric | src/main/java/xyz/hotchpotch/hogandiff/diff/excel/SStrategies.java:120-137 | the walk scores the same with the two lines swapped |
| SStrategies.DiffScoreAtLeastSizeGap | src/main/java/xyz/hotchpotch/hogandiff/diff/excel/SStrategies.java:106-149 | two lines score at least the difference of their sizes |
| SStrategies.MergeAtLeastSizeGap | src/main/java/xyz/hotchpotch/hogandiff/diff/excel/SStrategies.java:120-145 | the rest of a walk scores at least the difference of the remaining sizes |
| SStrategies.Shift | src/main/java/xyz/hotchpotch/hogandiff/diff/excel/SStrategies.java:96-98 | moving every index by start keeps the length and each entry's kind (paired, A only, B only) |
| SStrategies.ShiftLast | src/main/java/xyz/hotchpotch/hogandiff/diff/excel/SStrategies.java:96-98 | the last shifted entry holds the last entry's indices moved by start |
| SStrategies.ShiftAIndices | src/main/java/xyz/hotchpotch/hogandiff/diff/excel/SStrategies.java:96-98 | shifting an alignment of i lines of A makes its A indices start, ..., start + i - 1 |
| SStrategies.ShiftBIndices | src/main/java/xyz/hotchpotch/hogandiff/diff/excel/SStrategies.java:96-98 | shifting an alignment of j lines of B makes its B indices start, ..., start + j - 1 |
| SStrategies.ShiftedAlignment | src/main/java/xyz/hotchpotch/hogandiff/diff/excel/SStrategies.java:89-98 | the shifted alignment of the two line lists lists each side's indices from start to its largest index, ascending |
| SStrategies.Strategy12Indices | src/main/java/xyz/hotchpotch/hogandiff/diff/excel/SStrategies.java:60-100 | in strategy12's result each index of A from the union start to A's largest index appears once, ascending, and likewise for B |
| SStrategies.Strategy12Bounds | src/main/java/xyz/hotchpotch/hogandiff/diff/excel/SStrategies.java:60-100 | every index in strategy12's result lies between the union start and its side's largest index |
| SStrategies.IntervalBounds | src/main/java/xyz/hotchpotch/hogandiff/diff/excel/SStrategies.java:96-98 | indices running through an interval lie inside it |
| SComparison.NewSComparator | src/main/java/xyz/hotchpotch/hogandiff/diff/excel/SComparatorImpl1.java:34-53 | the comparator keeps the two flags; rows are aligned rather than matched by position exactly when row gaps are considered, and likewise columns; lines are keyed by value when both flags are set and by the other axis's index otherwise |
| SComparison.RedundantAExactly | src/main/java/xyz/hotchpotch/hogandiff/diff/excel/SComparatorImpl1.java:71-74 | an index is a redundant row (column) of A exactly when some entry holds it on side A alone |
| SComparison.RedundantBExactly | src/main/java/xyz/hotchpotch/hogandiff/diff/excel/SComparatorImpl1.java:75-78 | an index is a redundant row (column) of B exactly when some entry holds it on side B alone |
| SComparison.Find | src/main/java/xyz/hotchpotch/hogandiff/diff/excel/SComparatorImpl1.java:124-127 | the map lookup finds a cell of the set with that address, or there is none |
| SComparison.Placeholder | src/main/java/xyz/hotchpotch/hogandiff/diff/excel/SComparatorImpl1.java:146-147 | the stand-in for a missing cell is the empty cell at that row and column |
| SComparison.AddressInjective | src/main/java/xyz/hotchpotch/hogandiff/diff/excel/SComparatorImpl1.java:136-137 | two positions with the same address are the same position |
| SComparison.CellAtPosition | src/main/java/xyz/hotchpotch/hogandiff/diff/excel/SComparatorImpl1.java:136-147 | the cell reported at a position sits there and carries the compared value; it is a cell of the set or a placeholder where the set has none |
| SComparison.CompareAt | src/main/java/xyz/hotchpotch/hogandiff/diff/excel/SComparatorImpl1.java:133-148 | one paired row and one paired column report at most one pair: exactly the pair of the two cells when their values differ, a missing cell counting as "" |
| SComparison.RowDiffsExactly | src/main/java/xyz/hotchpotch/hogandiff/diff/excel/SComparatorImpl1.java:133-148 | one paired row reports a pair exactly for each paired column whose cells differ |
| SComparison.DiffCellsExactly | src/main/java/xyz/hotchpotch/hogandiff/diff/excel/SComparatorImpl1.java:113-150 | a pair is reported exactly for each paired row and paired column whose cells differ in value; unpaired rows and columns are never compared |
| SComparison.EmittedShape | src/main/java/xyz/hotchpotch/hogandiff/diff/excel/SComparatorImpl1.java:143-147 | every reported pair is paired, sits at its row and column on each side, holds two different values, and each side is a cell of its sheet or an empty placeholder |
| SComparison.RowDiffsAppend | src/main/java/xyz/hotchpotch/hogandiff/diff/excel/SComparatorImpl1.java:133-148 | the columns of one row contribute in column-entry order |
| SComparison.DiffCellsAppend | src/main/java/xyz/hotchpotch/hogandiff/diff/excel/SComparatorImpl1.java:129-149 | all pairs of an earlier row entry come before those of a later one |
| SComparison.HighBelowIntMax | src/main/java/xyz/hotchpotch/hogandiff/diff/excel/SComparatorImpl1.java:67-68 | the largest index of cells inside the sheet stays below Integer.MAX_VALUE |
| SComparison.StrategyIndices | src/main/java/xyz/hotchpotch/hogandiff/diff/excel/SComparatorImpl1.java:67-68 | both kinds of strategy pair only indices between 0 and Integer.MAX_VALUE - 1 |
| SComparison.PositionalIndices | src/main/java/xyz/hotchpotch/hogandiff/diff/excel/SComparatorImpl1.java:67-68 | the positional strategy pairs only indices between 0 and Integer.MAX_VALUE - 1 |
| SComparison.AlignedIndices | src/main/java/xyz/hotchpotch/hogandiff/diff/excel/SComparatorImpl1.java:67-68 | the aligning strategy pairs only indices between 0 and Integer.MAX_VALUE - 1 |
| SComparison.Compare | src/main/java/xyz/hotchpotch/hogandiff/diff/excel/SComparatorImpl1.java:62-102 | a null cell set is NullPointer, two different cells with one address in a set are IllegalState, and otherwise the result holds the flags, the one-sided rows and columns of each side in pairing order, and the differing cells |
| SComparison.AllPairedNoRedundancy | src/main/java/xyz/hotchpotch/hogandiff/diff/excel/SComparatorImpl1.java:71-88 | a pairing with no one-sided entry leaves no redundant row or column |
| SComparison.PositionalHasNoRedundancy | src/main/java/xyz/hotchpotch/hogandiff/diff/excel/SComparatorImpl1.java:71-88 | matching by position never leaves a row or column redundant |
| SResults.Project | src/main/java/xyz/hotchpotch/hogandiff/excel/SResult.java:158-162 | the projection of the diff pairs onto one side fails with NoSuchElement exactly when some pair lacks that side, and otherwise lists that side of every pair in order |
| SResults.Build | src/main/java/xyz/hotchpotch/hogandiff/excel/SResult.java:127-163 | the private constructor succeeds exactly when every diff pair is paired, and otherwise fails with NoSuchElement |
| SResults.Of | src/main/java/xyz/hotchpotch/hogandiff/excel/SResult.java:80-99 | no diff list is NullPointer, exactly one null side of the rows or of the columns is IllegalArgument, an unpaired diff entry is NoSuchElement; otherwise gaps count as considered exactly where lists were given, each piece holds its side's lists (empty for null), and the pieces' cell lists are the two sides of the diff entries |
| SResults.RowSummary | src/main/java/xyz/hotchpotch/hogandiff/excel/SResult.java:173-181 | the redundant-row line of the summary opens with its own heading |
| SResults.ColumnSummary | src/main/java/xyz/hotchpotch/hogandiff/excel/SResult.java:183-191 | the redundant-column line of the summary opens with its own heading |
| SResults.CellSummary | src/main/java/xyz/hotchpotch/hogandiff/excel/SResult.java:193-196 | the diff-cell line of the summary opens with its own heading |
| SResults.SummaryLines | src/main/java/xyz/hotchpotch/hogandiff/excel/SResult.java:170-199 | the summary opens with the row line exactly when row gaps are considered, what follows opens with the column line exactly when column gaps are considered, and the diff-cell line always closes it |
| SResults.OptionalLines | src/main/java/xyz/hotchpotch/hogandiff/excel/SResult.java:170-199 | three lines told apart by their first characters can be recognised in the summary whichever of the first two are present |
| SResults.ColumnLine | src/main/java/xyz/hotchpotch/hogandiff/excel/SResult.java:228-229 | a redundant column's line fails with IllegalArgument exactly when its index is negative |
| SResults.ColumnLines | src/main/java/xyz/hotchpotch/hogandiff/excel/SResult.java:228-229 | the column lines fail only with IllegalArgument |
| SResults.ColumnsSection | src/main/java/xyz/hotchpotch/hogandiff/excel/SResult.java:222-230 | a side's column section fails only with IllegalArgument |
| SResults.ColumnsPart | src/main/java/xyz/hotchpotch/hogandiff/excel/SResult.java:221-232 | the column sections of both sides fail only with IllegalArgument |
| SResults.AppendRowLines | src/main/java/xyz/hotchpotch/hogandiff/excel/SResult.java:216 | the loop appends one numbered line per redundant row, in order |
| SResults.RowLinesSnoc | src/main/java/xyz/hotchpotch/hogandiff/excel/SResult.java:216 | one more row adds its line |
| SResults.AppendColumnLines | src/main/java/xyz/hotchpotch/hogandiff/excel/SResult.java:228-229 | the loop appends one named line per redundant column, in order, and fails with IllegalArgument exactly when the column lines do |
| SResults.ColumnLinesStep | src/main/java/xyz/hotchpotch/hogandiff/excel/SResult.java:228-229 | one more column adds its line |
| SResults.ColumnLinesFailure | src/main/java/xyz/hotchpotch/hogandiff/excel/SResult.java:228-229 | once any redundant column index is negative, the column lines fail with IllegalArgument |
| SResults.ColumnLinesSuccess | src/main/java/xyz/hotchpotch/hogandiff/excel/SResult.java:228-229 | with no negative index the column lines succeed |
| SResults.WriteRows | src/main/java/xyz/hotchpotch/hogandiff/excel/SResult.java:209-219 | the loop over both sides writes each side's heading and its row lines, or the "none" line |
| SResults.WriteColumns | src/main/java/xyz/hotchpotch/hogandiff/excel/SResult.java:221-232 | the loop over both sides writes each side's heading and its column lines, or the "none" line, and fails as the column sections do |
| SResults.WriteCells | src/main/java/xyz/hotchpotch/hogandiff/excel/SResult.java:234-248 | the diff cells of A and B are written in lockstep, one block per pair, or the "none" line |
| SResults.CellLinesSnoc | src/main/java/xyz/hotchpotch/hogandiff/excel/SResult.java:240-246 | one more pair of cells adds its block |
| SResults.GetDetail | src/main/java/xyz/hotchpotch/hogandiff/excel/SResult.java:206-251 | the detail is the rows part when row gaps count, the columns part when column gaps count, and the cells part |
| SResults.ColumnsPartFailure | src/main/java/xyz/hotchpotch/hogandiff/excel/SResult.java:221-232 | once the column sections of the first sides fail, the whole columns part fails |
| SResults.DetailFailure | src/main/java/xyz/hotchpotch/hogandiff/excel/SResult.java:206-251 | the detail fails exactly when column gaps count and a redundant column of either sheet is negative, and then with IllegalArgument |
| BResults.Of | src/main/java/xyz/hotchpotch/hogandiff/excel/BResult.java:39-51 | any null argument is NullPointer; otherwise the result holds the two files as a pair, A first, and exactly the given name pairs and sheet results |
| BResults.Blocks | src/main/java/xyz/hotchpotch/hogandiff/excel/BResult.java:120-131 | the blocks exist exactly when every pair's block does, one per name pair, in list order |
| BResults.SummaryBlocks | src/main/java/xyz/hotchpotch/hogandiff/excel/BResult.java:107-131 | the summary exists exactly when every paired name pair has a sheet result; it is one block per pair joined by line separators, each opening with the pair's two sheet names |
| BResults.BlocksIgnoreUnpaired | src/main/java/xyz/hotchpotch/hogandiff/excel/BResult.java:121-129 | only paired name pairs look results up: two maps that agree on the paired names give the same blocks |
| BResults.BlockIgnoresUnpaired | src/main/java/xyz/hotchpotch/hogandiff/excel/BResult.java:121-129 | one block depends on the map only when its name pair is paired |
| BResults.GetResultIgnoresUnpaired | src/main/java/xyz/hotchpotch/hogandiff/excel/BResult.java:120-131 | two book results with the same name pairs whose maps agree on the paired names produce the same text |
| BResults.ToStringOpensWithPaths | src/main/java/xyz/hotchpotch/hogandiff/excel/BResult.java:85-100 | the text exists exactly when the summary and the detail do, and opens with the path of book A, then that of book B |
| Menus.ValidTargetsDiffer | src/main/java/xyz/hotchpotch/hogandiff/Menu.java:28-73 | a valid target pair never compares something with itself; two books are worth comparing exactly when their paths differ, two sheets exactly when their paths or their names differ, and books worth comparing hold sheets worth comparing |
| Menus.NameCorrelator | src/main/java/xyz/hotchpotch/hogandiff/Menu.java:46-48 | the book menu pairs sheet names with the greedy, order-agnostic correlator |
| Menus.IndexPairs | src/main/java/xyz/hotchpotch/hogandiff/Menu.java:50 | the correlator's index pairs lie within the two name lists, and each side's indices are a permutation of 0 .. n-1 |
| Menus.Named | src/main/java/xyz/hotchpotch/hogandiff/Menu.java:52-56 | each index pair becomes the pair of the names at its present indices, absent where the index is absent |
| Menus.SheetsPairOnlyTheChosen | src/main/java/xyz/hotchpotch/hogandiff/Menu.java:76-83 | the sheet menu compares exactly the two chosen sheets, with each other |
| Menus.NamesAreIndexed | src/main/java/xyz/hotchpotch/hogandiff/Menu.java:52-56 | the names on each side of the result are the names at that side's indices, in entry order |
| Menus.PermutedIndices | src/main/java/xyz/hotchpotch/hogandiff/Menu.java:52-56 | permuting the indices permutes the names they select |
| Menus.BooksPairEverySheetOnce | src/main/java/xyz/hotchpotch/hogandiff/Menu.java:38-57 | the book menu keeps every sheet of each book exactly once: the names on side A are a permutation of the first book's names, and likewise for B |
| FilteringReaders.ElementFilterIgnoresTree | src/main/java/xyz/hotchpotch/hogandiff/excel/xssf/readers/FilteringReader.java:93-99 | a filter added as a predicate on the element answers the same whatever elements are open |
| FilteringReaders.TestPath | src/main/java/xyz/hotchpotch/hogandiff/excel/xssf/readers/FilteringReader.java:63-81 | the path filter accepts exactly a start element named by the last name whose innermost open ancestors are the remaining names, in order |
| FilteringReaders.SkipSubtree | src/main/java/xyz/hotchpotch/hogandiff/excel/xssf/readers/FilteringReader.java:161-169 | skipping a subtree consumes at least one event, and fails when the stream ends inside it |
| FilteringReaders.Seek | src/main/java/xyz/hotchpotch/hogandiff/excel/xssf/readers/FilteringReader.java:155-174 | seeking never lengthens the stream, and fails only with XMLStreamException |
| FilteringReaders.Enter | src/main/java/xyz/hotchpotch/hogandiff/excel/xssf/readers/FilteringReader.java:192-200 | a start tag pushes its name on the open elements, an end tag pops one (NoSuchElement on none open), any other event leaves them |
| FilteringReaders.DeliverStep | src/main/java/xyz/hotchpotch/hogandiff/excel/xssf/readers/FilteringReader.java:192-200 | delivering from a sought stream yields its first event, followed by what is delivered from the rest |
| FilteringReaders.SeekIdempotent | src/main/java/xyz/hotchpotch/hogandiff/excel/xssf/readers/FilteringReader.java:155-174 | a second seek finds nothing more to skip |
| FilteringReaders.OutputAfterSeek | src/main/java/xyz/hotchpotch/hogandiff/excel/xssf/readers/FilteringReader.java:176-184 | seeking does not change what the reader delivers |
| FilteringReaders.OutputIsFiltered | src/main/java/xyz/hotchpotch/hogandiff/excel/xssf/readers/FilteringReader.java:155-200 | the first event delivered is never a start tag a filter excludes at that point, and the reader delivers no more events than the source holds |
| FilteringReaders.Builder.constructor | src/main/java/xyz/hotchpotch/hogandiff/excel/xssf/readers/FilteringReader.java:43-46 | a builder holds its source and no filter |
| FilteringReaders.Builder.AddPath | src/main/java/xyz/hotchpotch/hogandiff/excel/xssf/readers/FilteringReader.java:57-84 | a null name list is NullPointer and an empty one IllegalArgument, both leaving the filters; otherwise the path filter is appended and the builder returned |
| FilteringReaders.Builder.AddElementFilter | src/main/java/xyz/hotchpotch/hogandiff/excel/xssf/readers/FilteringReader.java:93-99 | a null predicate is NullPointer; otherwise the element filter is appended and the builder returned |
| FilteringReaders.Builder.AddTreeFilter | src/main/java/xyz/hotchpotch/hogandiff/excel/xssf/readers/FilteringReader.java:108-116 | a null predicate is NullPointer; otherwise the tree filter is appended and the builder returned |
| FilteringReaders.Builder.Build | src/main/java/xyz/hotchpotch/hogandiff/excel/xssf/readers/FilteringReader.java:123-125 | a fresh reader over the builder's source with the filters added so far, nothing delivered and no open element |
| FilteringReaders.NewBuilder | src/main/java/xyz/hotchpotch/hogandiff/excel/xssf/readers/FilteringReader.java:135-138 | a null source is NullPointer; otherwise a fresh builder over the source with no filter |
| FilteringReaders.FilteringReader.constructor | src/main/java/xyz/hotchpotch/hogandiff/excel/xssf/readers/FilteringReader.java:146-153 | a reader with empty caches and no open element, whose input is the whole source |
| FilteringReaders.FilteringReader.Excluded | src/main/java/xyz/hotchpotch/hogandiff/excel/xssf/readers/FilteringReader.java:158 | some filter accepts the start element under the current open elements |
| FilteringReaders.FilteringReader.SeekNext | src/main/java/xyz/hotchpotch/hogandiff/excel/xssf/readers/FilteringReader.java:155-174 | the source is advanced past every leading excluded element and its subtree, failing with XMLStreamException when the stream ends inside one; nothing else changes |
| FilteringReaders.FilteringReader.HasNext2 | src/main/java/xyz/hotchpotch/hogandiff/excel/xssf/readers/FilteringReader.java:176-184 | after seeking, whether the source holds another event; a failed seek is an error of the whole filtered stream |
| FilteringReaders.FilteringReader.HasNext | src/main/java/xyz/hotchpotch/hogandiff/excel/xssf/readers/AbstractCachingReader.java:56-62 | a cached answer is returned without touching the source; otherwise hasNext2 is called once and its answer cached; the answer is whether an event remains to be delivered |
| FilteringReaders.FilteringReader.Peek2 | src/main/java/xyz/hotchpotch/hogandiff/excel/xssf/readers/FilteringReader.java:186-189 | the source's next event, or none at its end |
| FilteringReaders.FilteringReader.Peek | src/main/java/xyz/hotchpotch/hogandiff/excel/xssf/readers/AbstractCachingReader.java:64-73 | none at the end of the stream; otherwise the next event, with peek2 called only when nothing is cached; the source is not advanced |
| FilteringReaders.FilteringReader.NextEvent2 | src/main/java/xyz/hotchpotch/hogandiff/excel/xssf/readers/FilteringReader.java:191-200 | the source's next event is taken and the open elements updated; an end tag with none open fails with NoSuchElement |
| FilteringReaders.FilteringReader.NextEvent | src/main/java/xyz/hotchpotch/hogandiff/excel/xssf/readers/AbstractCachingReader.java:75-84 | none at the end of the stream; otherwise the next event of the filtered stream, read through nextEvent2 once, after which both caches are cleared; the events delivered so far followed by those still to come are always the filtered input |
| FilteringReaders.FilteringReader.Next | src/main/java/xyz/hotchpotch/hogandiff/excel/xssf/readers/AbstractCachingReader.java:86-93 | the same as nextEvent |
| SheetReaders.StylesManager.constructor | src/main/java/xyz/hotchpotch/hogandiff/excel/xssf/readers/SheetReader.java:75-99 | the two counts are those the styles part declares, and no style or fill has been added yet |
| SheetReaders.StylesManager.CreateFill | src/main/java/xyz/hotchpotch/hogandiff/excel/xssf/readers/SheetReader.java:101-118 | the new fill takes the old fill count as its index, the count grows by exactly one, and the colour now maps to that fill |
| SheetReaders.StylesManager.CopyXf | src/main/java/xyz/hotchpotch/hogandiff/excel/xssf/readers/SheetReader.java:120-135 | the new style takes the old style count as its index, the count grows by exactly one, the key now maps to it, and it copies the given style with that colour's fill, created only when the colour has none yet |
| SheetReaders.StylesManager.GetNewStyle | src/main/java/xyz/hotchpotch/hogandiff/excel/xssf/readers/SheetReader.java:145-152 | the key maps to the returned style, a copy of the given style with the colour's fill; a key seen before returns the same index and creates nothing, a new key creates exactly one style |
| SheetReaders.XfsAppend | src/main/java/xyz/hotchpotch/hogandiff/excel/xssf/readers/SheetReader.java:120-134 | appending the style of a new key, once its colour has a fill, keeps every key mapped to the style appended for it |
| SheetReaders.ColourAt | src/main/java/xyz/hotchpotch/hogandiff/excel/xssf/readers/SheetReader.java:102 | a mapped colour's fill is the one appended at its position |
| SheetReaders.KeyAt | src/main/java/xyz/hotchpotch/hogandiff/excel/xssf/readers/SheetReader.java:121 | a mapped key's style is the one appended at its position |
| SheetReaders.CreatedOnce | src/main/java/xyz/hotchpotch/hogandiff/excel/xssf/readers/SheetReader.java:120-152 | at most one fill is ever created per colour, and at most one style per (style, colour) key |
| SheetReaders.Span | src/main/java/xyz/hotchpotch/hogandiff/excel/xssf/readers/SheetReader.java:306 | the consecutive integers from the first to the last of a range |
| SheetReaders.SpanIncreasing | src/main/java/xyz/hotchpotch/hogandiff/excel/xssf/readers/SheetReader.java:306 | a range's integers run upwards from its first to its last |
| SheetReaders.RedundantRanges | src/main/java/xyz/hotchpotch/hogandiff/excel/xssf/readers/SheetReader.java:289-307 | succeeds exactly on strictly increasing columns, failing otherwise with AssertionError; an empty list gives the one range (-1, -1); otherwise the ranges are maximal runs of consecutive columns whose expansion is the input |
| SheetReaders.FirstRun | src/main/java/xyz/hotchpotch/hogandiff/excel/xssf/readers/SheetReader.java:293-295 | the first column opens the first range |
| SheetReaders.NewRun | src/main/java/xyz/hotchpotch/hogandiff/excel/xssf/readers/SheetReader.java:296-299 | a gap before the next column closes the open range and opens a new one at that column |
| SheetReaders.ExtendRun | src/main/java/xyz/hotchpotch/hogandiff/excel/xssf/readers/SheetReader.java:300-301 | the column right after the open range extends it |
| SheetReaders.CloseRange | src/main/java/xyz/hotchpotch/hogandiff/excel/xssf/readers/SheetReader.java:297-306 | closing a range that starts past a gap keeps the runs maximal and appends its span |
| SheetReaders.RunsExpandIncreasing | src/main/java/xyz/hotchpotch/hogandiff/excel/xssf/readers/SheetReader.java:289-307 | the expansion of maximal runs is strictly increasing and ends at the last range's end, so the compaction loses no order |
| SheetReaders.Insert | src/main/java/xyz/hotchpotch/hogandiff/excel/xssf/readers/SheetReader.java:499-500 | one step of sorting with duplicates removed: the result is strictly increasing and holds exactly the new value and the old ones |
| SheetReaders.SortDistinct | src/main/java/xyz/hotchpotch/hogandiff/excel/xssf/readers/SheetReader.java:496-501 | every value of the input exactly once, in increasing order |
| SheetReaders.CellRows | src/main/java/xyz/hotchpotch/hogandiff/excel/xssf/readers/SheetReader.java:498 | exactly the rows of the given cells |
| SheetReaders.ColumnsIn | src/main/java/xyz/hotchpotch/hogandiff/excel/xssf/readers/SheetReader.java:504 | exactly the columns of the given cells that lie in the row |
| SheetReaders.Targets | src/main/java/xyz/hotchpotch/hogandiff/excel/xssf/readers/SheetReader.java:495-521 | the rows to paint, strictly increasing, each a redundant row or the row of a diff cell; for each, the columns to paint, strictly increasing, are exactly the diff cells' columns in that row and the redundant columns |
| SheetReaders.TargetsCoverRows | src/main/java/xyz/hotchpotch/hogandiff/excel/xssf/readers/SheetReader.java:496-517 | every redundant row and every row of a diff cell has its entry, even a redundant row without cells |
| SheetReaders.ProcessingRow.constructor | src/main/java/xyz/hotchpotch/hogandiff/excel/xssf/readers/SheetReader.java:495-525 | the targets are those computed from the piece, and the redundant rows and columns are the piece's, as sets |
| SheetReaders.ProcessingRow.CreateRowStart | src/main/java/xyz/hotchpotch/hogandiff/excel/xssf/readers/SheetReader.java:619-630 | a row start tag whose r attribute is the one-based row number; a redundant row also gets a custom format and style 0 painted the redundant colour; any other row leaves the styles untouched |
| SheetReaders.ProcessingRow.CreateCStart | src/main/java/xyz/hotchpotch/hogandiff/excel/xssf/readers/SheetReader.java:632-644 | a cell start tag with the cell's address, painted on style 0 with the redundant colour exactly when its row or column is redundant and the diff colour otherwise; a negative index is IllegalArgument and creates no style |
| SheetReaders.ProcessingRow.ModifyRowStart | src/main/java/xyz/hotchpotch/hogandiff/excel/xssf/readers/SheetReader.java:646-667 | a missing r attribute is NullPointer and a malformed number NumberFormat; a redundant row keeps its other attributes and gets a custom format and its style, 0 when absent, painted the redundant colour; any other row is returned unchanged |
| SheetReaders.ProcessingRow.ModifyCStart | src/main/java/xyz/hotchpotch/hogandiff/excel/xssf/readers/SheetReader.java:669-691 | a missing r attribute is NullPointer and a malformed address or style fails; a cell that may differ or is redundant keeps its other attributes and gets its style, 0 when absent, painted the redundant colour when its row or column is redundant and the diff colour otherwise; any other cell is returned unchanged |
| SheetReaders.UpToSheetData | src/main/java/xyz/hotchpotch/hogandiff/excel/xssf/readers/SheetReader.java:478-484 | the longest prefix of the events that ends at the first sheetData start tag, or all of them when there is none |
| SheetReaders.UpToSheetDataStep | src/main/java/xyz/hotchpotch/hogandiff/excel/xssf/readers/SheetReader.java:479-483 | moving one event over either stops at sheetData or leaves the rest of the prefix still to move |
| SheetReaders.SheetReader.constructor | src/main/java/xyz/hotchpotch/hogandiff/excel/xssf/readers/SheetReader.java:205-227 | the reader starts by waiting for the columns exactly when some column is redundant, and for the rows otherwise, with nothing queued |
| SheetReaders.SheetReader.Peek2 | src/main/java/xyz/hotchpotch/hogandiff/excel/xssf/readers/SheetReader.java:242-244 | the head of the queue, or none when it is empty |
| SheetReaders.SheetReader.NextEvent2 | src/main/java/xyz/hotchpotch/hogandiff/excel/xssf/readers/SheetReader.java:247-249 | the head of the queue is taken off, or none when it is empty; the source and the stage are unchanged |
| SheetReaders.SheetReader.ProcessWaitingCol | src/main/java/xyz/hotchpotch/hogandiff/excel/xssf/readers/SheetReader.java:256-278 | at the end of the source a NullPointer; at cols the event is passed on and the columns entered; at sheetData an empty cols start tag is queued and the columns entered without consuming it; any other event is passed on |
| SheetReaders.SheetReader.ProcessWaitingRow | src/main/java/xyz/hotchpotch/hogandiff/excel/xssf/readers/SheetReader.java:472-487 | the events up to and including sheetData are moved from the source to the queue, in order, and the rows are entered |
| SheetReaders.SheetReader.ProcessRemaining | src/main/java/xyz/hotchpotch/hogandiff/excel/xssf/readers/SheetReader.java:694-702 | the next event of the source, if any, is passed on |
| SheetEntries.EntryPath | src/main/java/xyz/hotchpotch/hogandiff/excel/xssf/XSSFSheetEntryManager.java:105 | the entry path is "xl/" followed by the target, and "xl/null" for a missing target, as Java string concatenation renders null |
| SheetEntries.Handler1.constructor | src/main/java/xyz/hotchpotch/hogandiff/excel/xssf/XSSFSheetEntryManager.java:48-55 | a handler with nothing collected |
| SheetEntries.Handler1.StartDocument | src/main/java/xyz/hotchpotch/hogandiff/excel/xssf/XSSFSheetEntryManager.java:57-61 | both collections start afresh |
| SheetEntries.Handler1.StartElement | src/main/java/xyz/hotchpotch/hogandiff/excel/xssf/XSSFSheetEntryManager.java:63-71 | a sheet tag appends its name and maps that name to its relationship id; any other tag changes nothing |
| SheetEntries.Handler2.constructor | src/main/java/xyz/hotchpotch/hogandiff/excel/xssf/XSSFSheetEntryManager.java:87-93 | a handler with nothing collected |
| SheetEntries.Handler2.StartDocument | src/main/java/xyz/hotchpotch/hogandiff/excel/xssf/XSSFSheetEntryManager.java:95-98 | the map starts afresh |
| SheetEntries.Handler2.StartElement | src/main/java/xyz/hotchpotch/hogandiff/excel/xssf/XSSFSheetEntryManager.java:100-107 | a Relationship tag maps its Id to the entry path of its Target; any other tag changes nothing |
| SheetEntries.ParseWorkbook | src/main/java/xyz/hotchpotch/hogandiff/excel/xssf/XSSFSheetEntryManager.java:123-131 | after the whole of xl/workbook.xml the handler holds the names of its sheet tags in document order and, per name, the relationship id of the last tag with that name |
| SheetEntries.ParseRels | src/main/java/xyz/hotchpotch/hogandiff/excel/xssf/XSSFSheetEntryManager.java:124-138 | after the whole of xl/_rels/workbook.xml.rels the handler maps each Id to the entry path of the last Relationship with that Id |
| SheetEntries.SheetNamesFromTags | src/main/java/xyz/hotchpotch/hogandiff/excel/xssf/XSSFSheetEntryManager.java:64-66 | a name is collected exactly when some sheet tag carries it |
| SheetEntries.SheetNamesInOrder | src/main/java/xyz/hotchpotch/hogandiff/excel/xssf/XSSFSheetEntryManager.java:64-66 | the names follow document order: a document split in two yields the first part's names, then the rest's |
| SheetEntries.NameToIdKeys | src/main/java/xyz/hotchpotch/hogandiff/excel/xssf/XSSFSheetEntryManager.java:64-69 | the names with an id are exactly the collected names, so the constructor's first assertion always holds for what the handler collects |
| SheetEntries.NameToIdLastWins | src/main/java/xyz/hotchpotch/hogandiff/excel/xssf/XSSFSheetEntryManager.java:67-69 | a name's id is the relationship id of the last sheet tag with that name |
| SheetEntries.SourcesUnderXl | src/main/java/xyz/hotchpotch/hogandiff/excel/xssf/XSSFSheetEntryManager.java:102-105 | every collected source lies under "xl/" |
| SheetEntries.Generate | src/main/java/xyz/hotchpotch/hogandiff/excel/xssf/XSSFSheetEntryManager.java:119-148 | the manager holds the names, the name-to-id map and the id-to-source map the two handlers collected, and every name has an id |
| SheetEntries.SheetEntryManager.GetIdByName | src/main/java/xyz/hotchpotch/hogandiff/excel/xssf/XSSFSheetEntryManager.java:203-207 | a null name is NullPointer; a name without an id is NoSuchElement; otherwise the name's id |
| SheetEntries.SheetEntryManager.GetSourceByName | src/main/java/xyz/hotchpotch/hogandiff/excel/xssf/XSSFSheetEntryManager.java:217-221 | the errors of the id lookup pass through; an id without a source is AssertionError; otherwise the source of the name's id |
| SheetEntries.SheetEntryManager.FilterWorksheets | src/main/java/xyz/hotchpotch/hogandiff/excel/xssf/XSSFSheetEntryManager.java:189-193 | succeeds exactly when every name's source can be looked up, failing with the first lookup's error; the result keeps the order of the names and holds exactly those whose source lies under xl/worksheets/ |
| SheetEntries.ValidSourceFound | src/main/java/xyz/hotchpotch/hogandiff/excel/xssf/XSSFSheetEntryManager.java:161-165 | when the constructor's assertions hold, every sheet name with an id finds its source |
| SheetEntries.ValidWorksheetNames | src/main/java/xyz/hotchpotch/hogandiff/excel/xssf/XSSFSheetEntryManager.java:161-193 | when the constructor's assertions hold, listing the worksheets does not fail and yields, in order, exactly the names whose source lies under xl/worksheets/ |
| Sax.GetValue | src/main/java/xyz/hotchpotch/hogandiff/excel/xssf/XSSFSheetEntryManager.java:66 | an attribute's value exactly when the tag carries it, and null otherwise |
| HssfSheetListing.HSSFSheetListingListener.constructor | src/main/java/xyz/hotchpotch/hogandiff/excel/hssf/HSSFSheetListerWithEventApi.java:42-46 | a listener whose queue and name list are both still null |
| HssfSheetListing.HSSFSheetListingListener.ProcessRecord | src/main/java/xyz/hotchpotch/hogandiff/excel/hssf/HSSFSheetListerWithEventApi.java:48-77 | one step of the listing: a workbook BOF starts queue and names afresh, a BoundSheet enqueues its name, a worksheet BOF moves the queue head to the names, a chart BOF drops it; a null queue is NullPointer and an empty one NoSuchElement; queue and names are always null together |
| HssfSheetListing.IsSupported | src/main/java/xyz/hotchpotch/hogandiff/excel/hssf/HSSFSheetListerWithEventApi.java:90-95 | a null file is NullPointer; otherwise whether its name ends with ".xls" |
| HssfSheetListing.GetSheetNames | src/main/java/xyz/hotchpotch/hogandiff/excel/hssf/HSSFSheetListerWithEventApi.java:117-137 | a null book is NullPointer, a name not ending in ".xls" IllegalArgument, a failing record ApplicationException; otherwise the names the listener collected over the whole record stream |
| HssfSheetListing.Worksheets | src/main/java/xyz/hotchpotch/hogandiff/excel/hssf/HSSFSheetListerWithEventApi.java:60-67 | the names of the sheets that are not charts, never more than the names given and each one of them |
| HssfSheetListing.RunAppend | src/main/java/xyz/hotchpotch/hogandiff/excel/hssf/HSSFSheetListerWithEventApi.java:48-77 | processing two record streams one after the other is processing their concatenation, the first failure stopping both |
| HssfSheetListing.RunBoundSheets | src/main/java/xyz/hotchpotch/hogandiff/excel/hssf/HSSFSheetListerWithEventApi.java:72-75 | the BoundSheet records append their names to the queue, in order |
| HssfSheetListing.RunSheetBofs | src/main/java/xyz/hotchpotch/hogandiff/excel/hssf/HSSFSheetListerWithEventApi.java:60-67 | the sheet BOFs consume the queue head by head, keeping the worksheets' names and dropping the charts' |
| HssfSheetListing.RunSheetBofsTooMany | src/main/java/xyz/hotchpotch/hogandiff/excel/hssf/HSSFSheetListerWithEventApi.java:60-67 | more sheet BOFs than queued names fail with NoSuchElement |
| HssfSheetListing.AnnounceSheets | src/main/java/xyz/hotchpotch/hogandiff/excel/hssf/HSSFSheetListerWithEventApi.java:55-75 | the workbook BOF and the BoundSheet records leave exactly the announced names queued and none listed |
| HssfSheetListing.ListsWorksheetsInOrder | src/main/java/xyz/hotchpotch/hogandiff/excel/hssf/HSSFSheetListerWithEventApi.java:48-77 | for a workbook announcing its sheets followed by one BOF per sheet, the listing is the worksheets' names in workbook order, chart sheets removed, with nothing left queued |
| HssfSheetListing.TooManySheetsFail | src/main/java/xyz/hotchpotch/hogandiff/excel/hssf/HSSFSheetListerWithEventApi.java:60-67 | a sheet BOF more than the workbook announced makes the listing fail with NoSuchElement |
| HssfSheetListing.WorkbookBofResets | src/main/java/xyz/hotchpotch/hogandiff/excel/hssf/HSSFSheetListerWithEventApi.java:55-58 | a later workbook BOF discards everything listed before it |
| HssfSheetLoading.Phase.Rank | src/main/java/xyz/hotchpotch/hogandiff/poi/HSSFSheetLoaderWithEventApi.java:51-59 | the phases in the order the listener goes through them, COMPLETED last |
| HssfSheetLoading.CellOutcome | src/main/java/xyz/hotchpotch/hogandiff/poi/HSSFSheetLoaderWithEventApi.java:137-197 | a shared-string record takes its table entry, IndexOutOfBounds out of range; a formula reads "[formula]" unless cached values are wanted, and in that mode a string result waits for the next string record; every failure is NullPointer, IndexOutOfBounds or AssertionError |
| HssfSheetLoading.HSSFSheetLoadingListener.constructor | src/main/java/xyz/hotchpotch/hogandiff/poi/HSSFSheetLoaderWithEventApi.java:70-84 | a listener searching for the named sheet, with no sheet counted, no string table and no cells |
| HssfSheetLoading.HSSFSheetLoadingListener.ProcessRecord | src/main/java/xyz/hotchpotch/hogandiff/poi/HSSFSheetLoaderWithEventApi.java:87-227 | one step of the phase machine: succeeds exactly when the step does, leaves the fields as the step says, and fails with the step's exception |
| HssfSheetLoading.IsSupported | src/main/java/xyz/hotchpotch/hogandiff/poi/HSSFSheetLoaderWithEventApi.java:249-254 | a null file is NullPointer; otherwise whether its name ends with ".xls" |
| HssfSheetLoading.LoadSheet | src/main/java/xyz/hotchpotch/hogandiff/poi/HSSFSheetLoaderWithEventApi.java:281-304 | a null book or sheet name is NullPointer, a name not ending in ".xls" IllegalArgument; a NoSuchElement and an AssertionError pass through, every other failure becomes ApplicationException; otherwise the cells collected over the whole record stream |
| HssfSheetLoading.StepMovesForward | src/main/java/xyz/hotchpotch/hogandiff/poi/HSSFSheetLoaderWithEventApi.java:87-227 | one record moves the phase forward along the listener's edges or leaves it, adds at most one cell and removes none, and changes nothing once COMPLETED |
| HssfSheetLoading.RunMovesForward | src/main/java/xyz/hotchpotch/hogandiff/poi/HSSFSheetLoaderWithEventApi.java:87-227 | over a whole stream the phase only moves forward and the cells only grow |
| HssfSheetLoading.CompletedIgnoresRest | src/main/java/xyz/hotchpotch/hogandiff/poi/HSSFSheetLoaderWithEventApi.java:220-222 | once COMPLETED, the rest of the stream changes nothing |
| HssfSheetLoading.IndexOf | src/main/java/xyz/hotchpotch/hogandiff/poi/HSSFSheetLoaderWithEventApi.java:91-97 | the position of the first occurrence of a name |
| HssfSheetLoading.SearchCountsEarlierSheets | src/main/java/xyz/hotchpotch/hogandiff/poi/HSSFSheetLoaderWithEventApi.java:90-101 | the BoundSheet records before the first one naming the sheet are counted, and that one starts reading the string table |
| HssfSheetLoading.MissingSheetFails | src/main/java/xyz/hotchpotch/hogandiff/poi/HSSFSheetLoaderWithEventApi.java:98-100 | an end-of-file record before any BoundSheet names the sheet fails with NoSuchElement |
| HssfSheetLoading.WaitCountsBofs | src/main/java/xyz/hotchpotch/hogandiff/poi/HSSFSheetLoaderWithEventApi.java:116-134 | the sheet BOFs before the sheet's position are skipped; at its position a worksheet starts reading cells and a chart sheet completes |
| HssfSheetLoading.BoundSheetsFindSheet | src/main/java/xyz/hotchpotch/hogandiff/poi/HSSFSheetLoaderWithEventApi.java:90-114 | the BoundSheet records find the sheet's position, and those after it change nothing |
| HssfSheetLoading.IgnoredWhileReadingSst | src/main/java/xyz/hotchpotch/hogandiff/poi/HSSFSheetLoaderWithEventApi.java:103-114 | before the string table, BoundSheet records change nothing |
| HssfSheetLoading.Globals | src/main/java/xyz/hotchpotch/hogandiff/poi/HSSFSheetLoaderWithEventApi.java:88-114 | after the workbook globals the listener knows the sheet's position and the string table and waits for the sheet BOFs |
| HssfSheetLoading.ChartSheetHasNoCells | src/main/java/xyz/hotchpotch/hogandiff/poi/HSSFSheetLoaderWithEventApi.java:116-134 | for a whole workbook the listener stops at the named sheet with no cells: completed when it is a chart sheet, ready to read when a worksheet |
| HssfSheetLoading.RunAppend | src/main/java/xyz/hotchpotch/hogandiff/poi/HSSFSheetLoaderWithEventApi.java:87-227 | processing two record streams one after the other is processing their concatenation, the first failure stopping both |
| HssfSheetLoading.CellRecordAddsCell | src/main/java/xyz/hotchpotch/hogandiff/poi/HSSFSheetLoaderWithEventApi.java:199-205 | each cell record of the sheet adds exactly the cell at its row and column with its value |
| HssfSheetLoading.StringFormulaTakesNextString | src/main/java/xyz/hotchpotch/hogandiff/poi/HSSFSheetLoaderWithEventApi.java:177-180 | in cached-value mode a string-result formula adds no cell by itself, and the string record after it adds the formula's cell with that string |
| HssfSheetLoading.FormulaPlaceholder | src/main/java/xyz/hotchpotch/hogandiff/poi/HSSFSheetLoaderWithEventApi.java:190-192 | without cached-value mode every formula cell reads "[formula]" |
| XssfSheetLoading.CellTypeOf | src/main/java/xyz/hotchpotch/hogandiff/poi/XSSFSheetLoaderWithEventApi.java:77-79 | an absent attribute is n; a name of a constant gives that constant, any other name is IllegalArgument |
| XssfSheetLoading.FirstNamed | src/main/java/xyz/hotchpotch/hogandiff/poi/XSSFSheetLoaderWithEventApi.java:78 | the position of the first constant with the name, or past the end when none has it |
| XssfSheetLoading.Listed | src/main/java/xyz/hotchpotch/hogandiff/poi/XSSFSheetLoaderWithEventApi.java:45-68 | the constants' list holds every constant |
| XssfSheetLoading.CellTypeOfName | src/main/java/xyz/hotchpotch/hogandiff/poi/XSSFSheetLoaderWithEventApi.java:77-79 | every constant is found again from its own name |
| XssfSheetLoading.XSSFSheetLoadingHandler.constructor | src/main/java/xyz/hotchpotch/hogandiff/poi/XSSFSheetLoaderWithEventApi.java:106-113 | a handler over the string table with no cells and no cell in progress |
| XssfSheetLoading.XSSFSheetLoadingHandler.StartDocument | src/main/java/xyz/hotchpotch/hogandiff/poi/XSSFSheetLoaderWithEventApi.java:115-123 | a new empty result and no cell in progress |
| XssfSheetLoading.XSSFSheetLoadingHandler.StartElement | src/main/java/xyz/hotchpotch/hogandiff/poi/XSSFSheetLoaderWithEventApi.java:125-152 | c records the address and type and stops capturing, an unknown type being IllegalArgument; f captures exactly when formulas are wanted; v captures exactly when nothing was captured; any other tag stops capturing; the cells are untouched |
| XssfSheetLoading.XSSFSheetLoadingHandler.Characters | src/main/java/xyz/hotchpotch/hogandiff/poi/XSSFSheetLoaderWithEventApi.java:154-185 | while capturing, a shared-string cell takes the entry its text indexes, failing on a malformed or out-of-range index; a boolean cell becomes "true" exactly when the text is "1"; any other cell appends the text; nothing else changes |
| XssfSheetLoading.XSSFSheetLoadingHandler.EndElement | src/main/java/xyz/hotchpotch/hogandiff/poi/XSSFSheetLoaderWithEventApi.java:187-208 | at the end of c a captured value adds the cell at its address, normalised for types e, n and str, and the cell in progress is cleared; every end tag stops capturing |
| XssfSheetLoading.Parse | src/main/java/xyz/hotchpotch/hogandiff/poi/XSSFSheetLoaderWithEventApi.java:268-274 | the handler ends in the state the callbacks reach one by one, or fails with the first exception |
| XssfSheetLoading.IsSupported | src/main/java/xyz/hotchpotch/hogandiff/poi/XSSFSheetLoaderWithEventApi.java:221-226 | a null file is NullPointer; otherwise whether its name ends with ".xlsx" or ".xlsm" |
| XssfSheetLoading.Reported | src/main/java/xyz/hotchpotch/hogandiff/poi/XSSFSheetLoaderWithEventApi.java:276-283 | an IllegalArgumentException, a NumberFormatException included, is reported as NoSuchElement and anything else as ApplicationException |
| XssfSheetLoading.LoadSheetById | src/main/java/xyz/hotchpotch/hogandiff/poi/XSSFSheetLoaderWithEventApi.java:257-284 | a null argument is NullPointer, an unsupported extension IllegalArgument, an unknown id NoSuchElement; otherwise the cells parsed from the sheet part, failures reported as above |
| XssfSheetLoading.LoadSheet | src/main/java/xyz/hotchpotch/hogandiff/poi/XSSFSheetLoaderWithEventApi.java:294-310 | the null and format checks, NoSuchElement for a sheet name without an id, and otherwise the sheet loaded by its id |
| XssfSheetLoading.RunAppend | src/main/java/xyz/hotchpotch/hogandiff/poi/XSSFSheetLoaderWithEventApi.java:115-208 | running two event streams one after the other is running their concatenation, the first failure stopping both |
| XssfSheetLoading.CellStart | src/main/java/xyz/hotchpotch/hogandiff/poi/XSSFSheetLoaderWithEventApi.java:133-138 | the start tag of a cell with a type records its address and that type |
| XssfSheetLoading.CaptureText | src/main/java/xyz/hotchpotch/hogandiff/poi/XSSFSheetLoaderWithEventApi.java:173-179 | text captured for a cell neither shared string nor boolean is appended |
| XssfSheetLoading.Child | src/main/java/xyz/hotchpotch/hogandiff/poi/XSSFSheetLoaderWithEventApi.java:140-146 | an f or v child captures its text when its start tag says so, and its end tag stops capturing |
| XssfSheetLoading.CellEnd | src/main/java/xyz/hotchpotch/hogandiff/poi/XSSFSheetLoaderWithEventApi.java:193-204 | the end tag of a cell with a captured value at its own address adds that cell |
| XssfSheetLoading.FormulaOrCachedValue | src/main/java/xyz/hotchpotch/hogandiff/poi/XSSFSheetLoaderWithEventApi.java:140-204 | a cell with a formula and a cached value, neither shared string nor boolean, holds the formula text in formula mode and the cached value otherwise, normalised for e, n and str |
| XssfSheetLoading.EmptyCellAddsNothing | src/main/java/xyz/hotchpotch/hogandiff/poi/XSSFSheetLoaderWithEventApi.java:193-204 | a cell with neither formula nor value adds no cell |
| XssfSheetLoading.BooleanCell | src/main/java/xyz/hotchpotch/hogandiff/poi/XSSFSheetLoaderWithEventApi.java:169-171 | a boolean cell without a formula holds "true" exactly when its value is "1" |
| XssfSheetLoading.BooleanFormulaInFormulaMode | src/main/java/xyz/hotchpotch/hogandiff/poi/XSSFSheetLoaderWithEventApi.java:140-171 | in formula mode a boolean cell with a formula holds "true" exactly when the formula text is "1", and its cached value is not read |
| XssfSheetLoading.SharedStringText | src/main/java/xyz/hotchpotch/hogandiff/poi/XSSFSheetLoaderWithEventApi.java:164-167 | the text of a shared-string value is the index of the entry it stands for |
| XssfSheetLoading.ValueOnlyCell | src/main/java/xyz/hotchpotch/hogandiff/poi/XSSFSheetLoaderWithEventApi.java:144-204 | a cell with only a value child is added with the stored form of what the handler reads from it |
| XssfSheetLoading.SharedStringCell | src/main/java/xyz/hotchpotch/hogandiff/poi/XSSFSheetLoaderWithEventApi.java:164-167 | a shared-string cell holds the table entry its value indexes |
| XssfSheetLoading.SharedStringOutOfRange | src/main/java/xyz/hotchpotch/hogandiff/poi/XSSFSheetLoaderWithEventApi.java:164-167 | an index past the end of the string table ends the parse with IndexOutOfBounds |
| XssfSheetLoading.UnknownCellTypeFails | src/main/java/xyz/hotchpotch/hogandiff/poi/XSSFSheetLoaderWithEventApi.java:136 | a t attribute naming no cell type ends the parse with IllegalArgument at the cell's start tag |
| XssfSheetLoading.StepKeepsResult | src/main/java/xyz/hotchpotch/hogandiff/poi/XSSFSheetLoaderWithEventApi.java:115-208 | every callback but the start of a document keeps the cells collected so far |
| XssfSheetLoading.RunKeepsResult | src/main/java/xyz/hotchpotch/hogandiff/poi/XSSFSheetLoaderWithEventApi.java:115-208 | within one document the collected cells only grow |

## Left out

- Parallel streams are modelled sequentially, in encounter order. This covers both correlators, the strategies and `compareCells`, as well as the anti-diagonal wavefront of the sequential correlator. The `synchronized` on `getNewStyle` and the `System.gc()` calls are dropped too. Nothing here proves that parallel evaluation gives the same result.
- Java `int` overflow is not modelled. Integers are mathematical, and callers must keep costs and indices in range where a contract needs it. This affects `getColumnIdx` on long column names, the `int` costs of the shuffling correlator and the `Integer.MAX_VALUE` difference costs of the evaluators.
- Java `assert` statements are taken as disabled, which is the JVM default. The model does what the code does after them. Where a lemma states when the asserted fact holds, it says so, as for the quote balance of `normalizeFormula`.
- A `Set` of cells is a sequence without duplicates, in iteration order. No lemma shows that results are independent of that order.
- `SComparatorImpl1.compare` calls a seven-argument `SResult.of` (two gap flags and six lists). The `SResult.java` present here has a five-argument `of`. `SComparison.Compare` therefore returns the seven values as the `Comparison` datatype, and `SResults.Of` models the five-argument form.
- The correlator interface is in `list/Correlator.java`, and the shuffling correlator is in `diff/list/ShufflingCorrelator.java`. Both are modelled as the one `Correlators.Correlator` datatype.
- `POIUtils.normalizeFormula` is not part of this model. Its callers use `ExcelUtils.NormalizeFormula`, the version in `excel/ExcelUtils.java`.
- The rest of `ExcelUtils` is Apache POI workbook access and style mutation: `getValue`, `getSheetNames`, `loadSheet`, `clearColors` and the `paint*` methods. The same holds for `POIUtils`. None of it is modelled.
- Files, zip entries, StAX and SAX parsing and POI record decoding are not modelled. Their output is a sequence of events or records passed as a parameter. A `characters` callback is handled on its own, as the handler does. The model does not relate the chunks a SAX parser delivers to the text of the document.
- `NumberToTextConverter.toText`, `ErrorEval.getText`, `FormulaError` and the shared-strings table are foreign conversions. The model takes their text as given inside the records and events.
- Strings are sequences of Unicode scalar values, so a lone UTF-16 surrogate cannot be represented. Java's UTF-16 length and `compareTo` are modelled by expanding each character into its UTF-16 units.
- `SheetReader` builds XML events, attribute sets and DOM `Element` edits. Only what decides them is modelled: the styles, the column ranges, the row targets and the stage machine. Also not modelled:
  - the event interleaving of `ProcessingCol.process` and `ProcessingRow.process`;
  - `SheetReader.hasNext2`;
  - `SheetReader.close`.
- `FilteringReader.close` is not modelled, because it only closes the wrapped reader.
- `AbstractCachingReader.getElementText`, `nextTag` and `getProperty` always throw `UnsupportedOperationException`, so they are not modelled.
- `Pair.forEach`, `items`, `hashCode` and `toString` are not modelled. `a2`, `b2` and `get2` are the `Pair` datatype's own `Option` fields. `Pair.flatOf` takes two `Option` values, so its null checks on the `Optional` arguments are not modelled.
- The `of()` factories of the sheet lister and the sheet loaders only call a constructor, so they are not modelled.
- BookTypes.BookType.Extension: its contract states only the length and the ".xls" prefix of each extension, not the full text. `BookTypes.Of` and `BookTypes.OfIsTheMatchingType` state the behaviour that depends on it.
- The JavaFX UI, `MenuTask`, `Main`, `Context` (property-file persistence and the clock-based work directory) and the book painters are not modelled. They are I/O around library calls.
- The library-wrapper sheet loader and listers are not modelled: `SheetLoaderWithUserApi`, `poi/HSSFSheetListerWithEventApi` and both `XSSFSheetListerWithEventApi` classes. Neither are the dispatch-only `SheetLoader` and `SheetLister` interfaces.
- Pairs.Pair.Map: the mapper is a total function, so every present side stays present. In the source the mapping goes through `Optional.map` (Pair.java:317-320), and a mapper that returns null leaves that side absent. The model does not capture a null-returning mapper.
- FilteringReaders.Builder.Build: the built reader holds the builder's filters as they are at `build()`. In the source the reader keeps a reference to the builder's own list (FilteringReader.java:152), so a filter added to the builder afterwards also applies to a reader already built. The model does not capture this aliasing.
- SResults.GetSummary: the line separator is fixed to "\n". The source uses `System.lineSeparator()`, which is "\r\n" on Windows. The exact texts stated about the summary hold for a "\n" platform only.
- SResults.GetDetail: the same fixed "\n" line separator as `GetSummary`, so its exact texts hold for a "\n" platform only.
- BResults.GetResult: joins the sheet blocks with the same fixed "\n" line separator.
- BResults.ToString: its heading lines end in the same fixed "\n" line separator.
- JavaText.IsDigit: the decimal-digit runs are those of the Basic Multilingual Plane in current Unicode versions. A Java runtime on an older Unicode version may know fewer of them.
