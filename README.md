# LASTZ output summariser, modelled in Dafny

The program reads a tab-delimited file, typically LASTZ alignment output, and
cross-tabulates two of its columns. The first column (index 0) is column 1
and the third column (index 2) is column 2. For every pair of values seen in
those columns, it counts the lines that carry the pair. It then prints either:

- the full frequency matrix: a header of column-2 values, then one row of
  counts per column-1 value; or
- with `--overview`, the number of distinct values in each column and the
  number of lines processed.

Two sense checks guard the output:

- after the pass, every non-empty line must have been processed;
- after the matrix is printed, its counts must add up to the number of
  non-empty lines.

The model has six modules:

- `JavaSplit`: what `line.split("\t")` returns in Java. The line is cut at
  every tab, and trailing empty fields are then dropped. A line with no tab
  comes back whole, even when it is empty.
- `Tally`: the meaning of the frequency matrix. Its abstract state is the
  multiset of (column-1, column-2) pairs counted so far. `Represents` ties
  that multiset to the concrete nested map and the set of column-2 values.
  The module also defines grid sums and the enumeration of a set in an
  unspecified order.
- `FrequencyMatrix`: the inner class `Matrix`. Its `IncrementCell` updates
  the nested map and the value set. It is proved against the multiset.
- `LineSpec`: what one pass over a sequence of lines should produce. That is
  the number of non-empty lines, the number processed and the multiset of
  pairs recorded. The facts about these are proved here: when the counts
  differ, what empty lines and reordering do, and how concatenation behaves.
- `Summariser`: the class holding the matrix and the two counters.
  - `Summarise` is the loop over the lines, proved against `LineSpec`.
  - `PrintMatrix` is the nested loop. It returns the report as a `Table`
    value, and it is proved to be a report of the recorded pairs whose total
    equals the processed count.
  - `PrintOverview` returns an `Overview` value.
- `EntryPoint`: how `main` reads its arguments, and one whole run (`Run`).

Two details of the code that the model keeps exactly:

- A line's field count is the length of Java's split result, after trailing
  empty fields are dropped. It is not the raw number of tab-separated pieces.
  So `a\tb\tc\t` has three fields and is not processed, while `\t\t\tx` has
  four and records the pair ("", "").
- The check after printing the matrix throws only once the whole table has
  been written. The model returns that check as a `Check` beside the table.
  The check after the pass aborts before any report.

## Model

| member | source | states |
|---|---|---|
| JavaSplit.JoinOfFields | src/LASTZOutputSummariser.java:70 | cutting a line at its tabs loses nothing: rejoining the pieces with tabs gives the line back, and no piece holds a tab |
| JavaSplit.FieldsOfJoin | src/LASTZOutputSummariser.java:70 | cutting is the inverse of joining: tab-free fields joined with tabs are cut back into exactly those fields |
| JavaSplit.FieldsWithoutTab | src/LASTZOutputSummariser.java:70 | a line without a tab is a single piece |
| JavaSplit.FieldsAppendTab | src/LASTZOutputSummariser.java:70 | a tab at the end of a line opens one more, empty, piece |
| JavaSplit.DropTrailingEmptyKeepsPrefix | src/LASTZOutputSummariser.java:70 | removing trailing empty fields keeps a prefix whose last field is non-empty, and everything removed is empty |
| JavaSplit.SplitTab | src/LASTZOutputSummariser.java:70 | a line without a tab comes back whole as one field; a result with no fields comes only from a line with a tab; when the line has a tab, the last field of the result is non-empty, as trailing empty fields are dropped |
| JavaSplit.SplitTabKeepsLeadingFields | src/LASTZOutputSummariser.java:70 | the split result is a prefix of the pieces in order, followed only by empty pieces; when the line has a tab the last kept field is non-empty, and a line without one is returned whole |
| JavaSplit.FieldCountAboveThree | src/LASTZOutputSummariser.java:70-71 | the split has more than three fields exactly when some piece from the fourth on is non-empty |
| JavaSplit.TrailingTabIgnored | src/LASTZOutputSummariser.java:70-71 | appending a tab to a non-empty line does not change its split |
| JavaSplit.SplitDropsTrailingEmptyField | src/LASTZOutputSummariser.java:70 | `a\tb\tc\t` splits into the three fields a, b, c |
| JavaSplit.SplitKeepsLeadingAndInnerEmptyFields | src/LASTZOutputSummariser.java:70 | `\ta\t\tb` splits into "", a, "", b: leading and inner empty fields stay |
| JavaSplit.SplitOfTabsOnlyIsEmpty | src/LASTZOutputSummariser.java:70 | a line of two tabs splits into no fields at all |
| JavaSplit.SplitOfEmptyLine | src/LASTZOutputSummariser.java:70 | the empty line splits into one empty field (the pass never splits one, as it skips empty lines at line 68) |
| Tally.EmptyRepresentsNothing | src/LASTZOutputSummariser.java:133-134 | the freshly created empty map and empty set stand for no occurrences |
| Tally.FirstsSecondsAdd | src/LASTZOutputSummariser.java:149-151 | one more occurrence of a pair adds its column-1 value to the column-1 values and its column-2 value to the column-2 values, and nothing else |
| Tally.IncrementRepresents | src/LASTZOutputSummariser.java:136-152 | replacing the inner map of col1 by one with the same counts except one more for col2, and adding col2 to the value set, represents exactly one more occurrence of (col1, col2) |
| Tally.InnerKeysAreCol2Vals | src/LASTZOutputSummariser.java:138-151 | in a consistent matrix every key of every inner map is among the column-2 values and no inner map is empty |
| Tally.RepresentationUnique | src/LASTZOutputSummariser.java:136-152 | the nested map and the value set are determined by the multiset of occurrences alone, so counting the same pairs in any order gives the same matrix |
| Tally.DistinctAtMostOccurrences | src/LASTZOutputSummariser.java:162-168 | neither column has more distinct values than there are occurrences |
| Tally.Enumerate | src/LASTZOutputSummariser.java:89 | a set is listed in some order, each element exactly once, and nothing else |
| Tally.GridSumCountsAll | src/LASTZOutputSummariser.java:97-103 | adding up every cell of a grid that lists each recorded column-1 and column-2 value once gives the number of occurrences |
| FrequencyMatrix.Matrix.constructor | src/LASTZOutputSummariser.java:133-134 | a new matrix is consistent, holds no occurrence, and has an empty map and value set |
| FrequencyMatrix.Matrix.IncrementCell | src/LASTZOutputSummariser.java:136-152 | keeps the matrix consistent; records one more occurrence of (col1, col2); raises that count by exactly one and leaves every other count unchanged; adds col1 to the column-1 values and col2 to the column-2 values (no change when already present) |
| FrequencyMatrix.Matrix.GetCellCount | src/LASTZOutputSummariser.java:154-160 | the count is the number of times the pair was recorded, so 0 for a pair never recorded |
| FrequencyMatrix.Matrix.GetCol1Vals | src/LASTZOutputSummariser.java:162-164 | the key set is exactly the column-1 values recorded at least once |
| FrequencyMatrix.Matrix.GetCol2Vals | src/LASTZOutputSummariser.java:166-168 | the set is exactly the column-2 values recorded at least once, whatever their column-1 value |
| LineSpec.Processable | src/LASTZOutputSummariser.java:68-71 | a line is processed when it is non-empty and splits into more than three fields; such a line always has a tab |
| LineSpec.KeyOf | src/LASTZOutputSummariser.java:70-72 | the pair a processed line records is its first and third tab-separated piece (the split never drops them), and neither holds a tab |
| LineSpec.PrefixStep | src/LASTZOutputSummariser.java:67-76 | taking one more line adds that line's share to each of the three summaries of the lines read so far |
| LineSpec.ProcessedAtMostNonEmpty | src/LASTZOutputSummariser.java:68-74 | processed lines never exceed non-empty lines, and each processed line records exactly one pair |
| LineSpec.LineShares | src/LASTZOutputSummariser.java:68-73 | only a non-empty line can be processed, and a line is malformed exactly when it is non-empty but not processed |
| LineSpec.NoMalformedLineNoMismatch | src/LASTZOutputSummariser.java:67-82 | when no non-empty line splits into three fields or fewer, every non-empty line is processed |
| LineSpec.MalformedLineMismatch | src/LASTZOutputSummariser.java:67-82 | a single non-empty line with three fields or fewer leaves the processed count below the non-empty count |
| LineSpec.MismatchIffMalformedLine | src/LASTZOutputSummariser.java:80-82 | the counts differ if and only if some non-empty line splits into three fields or fewer |
| LineSpec.WellFormedInputIsFullyCounted | src/LASTZOutputSummariser.java:67-82 | when no line is malformed, non-empty lines, processed lines and recorded pairs are equal in number |
| LineSpec.Concatenation | src/LASTZOutputSummariser.java:67-76 | the summaries of two blocks of lines read one after the other are the sums of the blocks' summaries |
| LineSpec.EmptyLineIgnored | src/LASTZOutputSummariser.java:68 | inserting an empty line anywhere changes neither count and records nothing |
| LineSpec.BlockOrderIrrelevant | src/LASTZOutputSummariser.java:67-76 | swapping two blocks of lines changes none of the summaries |
| LineSpec.NonEmptyIsProcessedPlusMalformed | src/LASTZOutputSummariser.java:67-82 | every non-empty line is processed or malformed, so the non-empty count is the processed count plus the number of malformed lines |
| LineSpec.OneMalformedLine | src/LASTZOutputSummariser.java:67-82 | one malformed line among well-formed ones, wherever it stands, leaves the processed count exactly one below the non-empty count |
| LineSpec.FourFieldLine | src/LASTZOutputSummariser.java:70-72 | a line of four tab-separated fields whose last field is non-empty is processed and records its first and third field |
| LineSpec.FourFieldLineShares | src/LASTZOutputSummariser.java:68-73 | a four-field line with a non-empty last field adds one to each count and records its (first, third) pair |
| LineSpec.ThreeProcessedLines | src/LASTZOutputSummariser.java:67-76 | three lines that are each non-empty and processed give counts of 3 and 3 and record exactly their three pairs |
| LineSpec.ThreeLineExample | src/LASTZOutputSummariser.java:67-76 | lines `a x foo y`, `a x bar z`, `b x foo w` are all counted and processed and record (a, foo), (a, bar), (b, foo) |
| LineSpec.ThreeLineExampleValues | src/LASTZOutputSummariser.java:115-118 | those three pairs, with a ≠ b and foo ≠ bar, give two distinct values in each column, as the overview would report |
| Summariser.SumOfRow | src/LASTZOutputSummariser.java:99-103 | a row holding the count of each header entry adds up to that column-1 value's occurrences over the header |
| Summariser.TableTotalIsGridSum | src/LASTZOutputSummariser.java:97-105 | the counts of matching rows add up to the grid sum over their labels and the header |
| Summariser.ReportTotal | src/LASTZOutputSummariser.java:88-105 | every matrix report of the recorded pairs, whatever order its rows and columns come in, totals the number of occurrences |
| Summariser.AssembledReport | src/LASTZOutputSummariser.java:89-105 | rows built over a duplicate-free listing of each value set form a matrix report whose total is the number of occurrences |
| Summariser.LastzSummariser.constructor | src/LASTZOutputSummariser.java:20-23 | a new summariser has zero counters and an empty, consistent matrix |
| Summariser.LastzSummariser.Summarise | src/LASTZOutputSummariser.java:62-83 | adds the non-empty lines to `lines`, the processed lines to `processed` and their pairs to the matrix, keeping processed ≤ lines; fails with both counts exactly when they differ |
| Summariser.LastzSummariser.SummariseLine | src/LASTZOutputSummariser.java:68-75 | an empty line changes nothing; a non-empty one adds one to `lines`; it adds one to `processed` and records (first field, third field) exactly when its split has more than three fields |
| Summariser.LastzSummariser.PrintMatrix | src/LASTZOutputSummariser.java:88-110 | the header lists every column-2 value once; there is one row per column-1 value; each row has one count per header entry in the header's order; the total equals `processed`; the check fails with both numbers exactly when it differs from `lines` |
| Summariser.LastzSummariser.PrintRow | src/LASTZOutputSummariser.java:99-103 | one row holds the recorded count of its column-1 value with each header entry, and the running total grows by their sum |
| Summariser.LastzSummariser.PrintOverview | src/LASTZOutputSummariser.java:115-119 | reports the number of distinct column-1 and column-2 values with the one-based column numbers 1 and 3, then `processed`; neither distinct count exceeds `processed` |
| EntryPoint.Dispatch | src/LASTZOutputSummariser.java:34-48 | help exactly when there are no arguments or the first is `--help`; otherwise the path is the last argument; overview mode exactly when the first argument is `--overview` |
| EntryPoint.MiddleArgumentsIgnored | src/LASTZOutputSummariser.java:34-45 | arguments between the first and the last change nothing |
| EntryPoint.LoneArgumentIsPath | src/LASTZOutputSummariser.java:34-44 | a lone argument other than `--help` is the file name; a lone `--overview` is both the mode flag and the file name |
| EntryPoint.SummariseFile | src/LASTZOutputSummariser.java:38-44 | a file with a malformed line aborts with both counts before any report; otherwise the overview reports the distinct counts of the recorded pairs, or the matrix is a report of them whose total equals the non-empty lines and whose check passes |
| EntryPoint.Run | src/LASTZOutputSummariser.java:32-49 | help exactly when dispatch says so; an unreadable file aborts naming its path; a malformed line aborts with both counts; otherwise the selected report of the recorded pairs, and the check after the matrix never fails |

## Left out

- Reading the file (lines 63-67, 77-78): `Run` takes what reading yields, as
  an optional sequence of lines. `None` stands for any `FileNotFoundException`
  or `IOException`. Opening and mid-stream read failures are not told apart,
  and closing the streams is not modelled.
- `BufferedReader.readLine`'s line terminators: the input is already a
  sequence of lines without terminators.
- Printing (lines 51-55, 93-104, 116-118): the help text, the tab-separated
  matrix text and the overview sentences are not produced. The reports are
  the values `Table` and `Overview`, and numbers are not rendered as
  decimals.
- The messages of the two `RuntimeException`s: each failure is an `Error`
  carrying both numbers.
- `setFilepath` and `getFilepath` (lines 121-127): plain accessors. The path
  travels in the `Command`.
- `col1Index` and `col2Index` are constants here, as they are in practice in
  the source (lines 25-26).
- Integer widths: `lines`, `processed`, `total` and the `Integer` cell counts
  are 32-bit in Java. The model counts with unbounded naturals, so
  wrap-around past 2^31 - 1 lines is not modelled.
- `HashMap` and `HashSet` iteration order (lines 89, 97): `Enumerate` lists
  a set in any order.
- Summariser.LastzSummariser.PrintMatrix: does not promise that two calls
  produce the same table. Java iterates an unchanged set in the same order
  every time, but the model may choose a different order on each call.
- FrequencyMatrix.Matrix.IncrementCell: Java updates the inner `HashMap` in
  place through the reference it reads from `cells`. The model builds the
  updated inner map and stores it back. No other reference to an inner map
  escapes the class, so there is no aliasing to capture.
- FrequencyMatrix.Matrix.GetCol1Vals, FrequencyMatrix.Matrix.GetCol2Vals:
  Java returns live views, `cells.keySet()` and the `col2Vals` object itself;
  the model returns set values. No caller changes them: `printMatrix` copies
  them with `toArray` or iterates over them, and `printOverview` only asks
  their size, so no behaviour is lost.
- The regular-expression engine behind `String.split`: only its behaviour
  for the literal tab separator is modelled.
