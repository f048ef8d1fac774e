/**
 * The summariser: one pass over the lines of a tab-delimited file feeding a
 * frequency matrix, followed by one of two reports, the full matrix or an
 * overview of distinct-value counts. Each report is returned as a value
 * instead of being written to standard output.
 */
module Summariser {

  import opened JavaSplit
  import opened Tally
  import opened LineSpec
  import opened FrequencyMatrix

  /** The two sense checks the program makes. */
  datatype Error =
    | LineCountMismatch(lines: nat, processed: nat)  // after the pass: some non-empty line was not processed
    | TotalMismatch(lines: nat, total: nat)          // after the matrix is printed: cells do not add up to the lines

  datatype Check = Pass | Fail(error: Error)

  /** One body row of the matrix report: the column-1 value and one count per header entry. */
  datatype Row = Row(col1: string, counts: seq<nat>)

  /** The matrix report: the column-2 values of the header line, then the rows. */
  datatype Table = Table(header: seq<string>, rows: seq<Row>)

  /** The overview report: the distinct-value count of each column with the
      column's one-based number, then the number of processed lines. */
  datatype Overview = Overview(col1Distinct: nat, col1Column: nat,
                               col2Distinct: nat, col2Column: nat,
                               processed: nat)

  /** The first i + 1 elements are the first i and then the next one. */
  lemma TakeOneMore<T>(s: seq<T>, i: nat)
    requires i < |s|
    ensures s[..i + 1] == s[..i] + [s[i]]
  {
  }

  /** The counts of a row added up. */
  function Sum(counts: seq<nat>): nat
  {
    if counts == [] then 0 else Sum(counts[..|counts| - 1]) + counts[|counts| - 1]
  }

  /** All counts of all rows added up. */
  function TableTotal(rows: seq<Row>): nat
  {
    if rows == [] then 0 else TableTotal(rows[..|rows| - 1]) + Sum(rows[|rows| - 1].counts)
  }

  /** The column-1 value of each row, in order. */
  function Labels(rows: seq<Row>): (labels: seq<string>)
    ensures |labels| == |rows|
    ensures forall k | 0 <= k < |rows| :: labels[k] == rows[k].col1
  {
    if rows == [] then [] else Labels(rows[..|rows| - 1]) + [rows[|rows| - 1].col1]
  }

  /** Every row holds one count per header entry, in the header's order: the
      number of occurrences of its column-1 value with that entry. */
  ghost predicate RowsMatch(rows: seq<Row>, header: seq<string>, m: multiset<Pair>)
  {
    && (forall k | 0 <= k < |rows| :: |rows[k].counts| == |header|)
    && (forall k, j | 0 <= k < |rows| && 0 <= j < |rows[k].counts| && j < |header| ::
          rows[k].counts[j] == m[(rows[k].col1, header[j])])
  }

  /** `table` is a matrix report of the occurrences `m`: the header lists each
      column-2 value once, the rows are labelled by each column-1 value once,
      and every row holds the counts for the header's entries. */
  ghost predicate IsReportOf(table: Table, m: multiset<Pair>)
  {
    && Distinct(table.header)
    && (forall v :: v in table.header <==> v in Seconds(m))
    && Distinct(Labels(table.rows))
    && (forall v :: v in Labels(table.rows) <==> v in Firsts(m))
    && RowsMatch(table.rows, table.header, m)
  }

  /** Appending a matching row keeps the rows matching, extends the labels
      and adds its counts to the total. */
  lemma RowsMatchAppend(rows: seq<Row>, header: seq<string>, m: multiset<Pair>, row: Row)
    requires RowsMatch(rows, header, m)
    requires |row.counts| == |header|
    requires forall j | 0 <= j < |header| :: row.counts[j] == m[(row.col1, header[j])]
    ensures RowsMatch(rows + [row], header, m)
    ensures Labels(rows + [row]) == Labels(rows) + [row.col1]
    ensures TableTotal(rows + [row]) == TableTotal(rows) + Sum(row.counts)
  {
    var rows' := rows + [row];
    assert rows'[..|rows|] == rows;
    forall k | 0 <= k < |rows'| ensures rows'[k] == (if k < |rows| then rows[k] else row) {}
  }

  /** A row holding the count of each header entry adds up to the row sum. */
  lemma {:induction false} SumOfRow(counts: seq<nat>, col1: string, header: seq<string>, m: multiset<Pair>)
    requires |counts| == |header|
    requires forall j | 0 <= j < |header| :: counts[j] == m[(col1, header[j])]
    ensures Sum(counts) == RowSum(m, col1, header)
  {
    if header != [] {
      var n := |header| - 1;
      SumOfRow(counts[..n], col1, header[..n], m);
    }
  }

  /** Matching rows add up to the sum over the grid of their labels and the header. */
  lemma {:induction false} TableTotalIsGridSum(rows: seq<Row>, header: seq<string>, m: multiset<Pair>)
    requires RowsMatch(rows, header, m)
    ensures TableTotal(rows) == GridSum(m, Labels(rows), header)
  {
    if rows != [] {
      var n := |rows| - 1;
      assert RowsMatch(rows[..n], header, m);
      TableTotalIsGridSum(rows[..n], header, m);
      assert Labels(rows)[..n] == Labels(rows[..n]);
      SumOfRow(rows[n].counts, rows[n].col1, header, m);
    }
  }

  /** All counts of a matrix report add up to the number of occurrences, in
      whatever order its rows and columns come. */
  lemma ReportTotal(table: Table, m: multiset<Pair>)
    requires IsReportOf(table, m)
    ensures TableTotal(table.rows) == |m|
  {
    var labels := Labels(table.rows);
    TableTotalIsGridSum(table.rows, table.header, m);
    forall p | p in m ensures p.0 in labels && p.1 in table.header {
      assert p.0 in Firsts(m) && p.1 in Seconds(m);
    }
    GridSumCountsAll(m, labels, table.header);
  }

  /** Rows matching a header that lists each column-2 value once, labelled by
      each column-1 value once, form a matrix report whose counts add up to
      the number of occurrences. */
  lemma AssembledReport(header: seq<string>, labels: seq<string>, rows: seq<Row>, m: multiset<Pair>)
    requires Distinct(header) && forall v :: v in header <==> v in Seconds(m)
    requires Distinct(labels) && forall v :: v in labels <==> v in Firsts(m)
    requires Labels(rows) == labels
    requires RowsMatch(rows, header, m)
    ensures IsReportOf(Table(header, rows), m)
    ensures TableTotal(rows) == |m|
  {
    ReportTotal(Table(header, rows), m);
  }

  class LastzSummariser {
    const matrix: Matrix
    var lines: nat
    var processed: nat

    /** The matrix is consistent, processed lines are among the non-empty
        ones, and each processed line is one recorded occurrence. */
    ghost predicate Valid()
      reads this, matrix
    {
      && matrix.Valid()
      && processed <= lines
      && |matrix.recorded| == processed
    }

    constructor ()
      ensures Valid() && fresh(matrix)
      ensures lines == 0 && processed == 0 && matrix.recorded == multiset{}
    {
      matrix := new Matrix();
      lines := 0;
      processed := 0;
    }

    /** Reads the lines of the file once: counts the non-empty ones, and
        records the first and third field of those with more than three
        fields. Fails afterwards unless every non-empty line was processed. */
    method Summarise(input: seq<string>) returns (check: Check)
      requires Valid()
      modifies this, matrix
      ensures Valid()
      ensures lines == old(lines) + NonEmptyLines(input)
      ensures processed == old(processed) + ProcessedLines(input)
      ensures matrix.recorded == old(matrix.recorded) + Recorded(input)
      ensures check == if lines == processed then Pass else Fail(LineCountMismatch(lines, processed))
    {
      var i := 0;
      while i < |input|
        invariant 0 <= i <= |input|
        invariant Valid()
        invariant lines == old(lines) + NonEmptyLines(input[..i])
        invariant processed == old(processed) + ProcessedLines(input[..i])
        invariant matrix.recorded == old(matrix.recorded) + Recorded(input[..i])
      {
        PrefixStep(input, i);
        SummariseLine(input[i]);
        i := i + 1;
      }
      assert input[..i] == input;
      if lines != processed {
        check := Fail(LineCountMismatch(lines, processed));
      } else {
        check := Pass;
      }
    }

    /** The body of the pass for one line: a non-empty line is counted, and
        one that splits into more than three fields also has its first and
        third field recorded. */
    method SummariseLine(line: string)
      requires Valid()
      modifies this, matrix
      ensures Valid()
      ensures lines == old(lines) + Counted(line)
      ensures processed == old(processed) + ProcessedCount(line)
      ensures matrix.recorded == old(matrix.recorded) + Contribution(line)
    {
      if |line| > 0 {
        lines := lines + 1;
        var cols := SplitTab(line);
        if |cols| > MinFields {
          matrix.IncrementCell(cols[Col1Index], cols[Col2Index]);
          processed := processed + 1;
        }
      }
    }

    /** Builds the matrix report: a header listing every column-2 value once,
        and one row per column-1 value holding its count for each header
        entry, in the header's order. The running total of all printed
        counts is checked against the number of non-empty lines. */
    method PrintMatrix() returns (table: Table, check: Check)
      requires Valid()
      ensures IsReportOf(table, matrix.recorded)
      ensures TableTotal(table.rows) == processed
      ensures check == if lines == TableTotal(table.rows) then Pass
                       else Fail(TotalMismatch(lines, TableTotal(table.rows)))
    {
      var col2Vals := Enumerate(matrix.GetCol2Vals());
      var col1Vals := Enumerate(matrix.GetCol1Vals());
      ghost var m := matrix.recorded;
      var total := 0;
      var rows: seq<Row> := [];
      var i := 0;
      while i < |col1Vals|
        invariant 0 <= i <= |col1Vals|
        invariant Labels(rows) == col1Vals[..i]
        invariant RowsMatch(rows, col2Vals, m)
        invariant total == TableTotal(rows)
      {
        var row;
        row, total := PrintRow(col1Vals[i], col2Vals, total);
        RowsMatchAppend(rows, col2Vals, m, row);
        TakeOneMore(col1Vals, i);
        rows := rows + [row];
        i := i + 1;
      }
      assert col1Vals[..i] == col1Vals;
      AssembledReport(col2Vals, col1Vals, rows, m);
      table := Table(col2Vals, rows);
      if lines != total {
        check := Fail(TotalMismatch(lines, total));
      } else {
        check := Pass;
      }
    }

    /** One body row of the matrix report: the count of `col1` with each
        header entry in turn, each added to the running total. */
    method PrintRow(col1: string, header: seq<string>, total: nat) returns (row: Row, total': nat)
      requires Valid()
      ensures row.col1 == col1 && |row.counts| == |header|
      ensures forall j | 0 <= j < |header| :: row.counts[j] == matrix.GetCellCount(col1, header[j])
      ensures total' == total + Sum(row.counts)
    {
      var counts: seq<nat> := [];
      total' := total;
      var j := 0;
      while j < |header|
        invariant 0 <= j <= |header|
        invariant |counts| == j
        invariant forall k | 0 <= k < j :: counts[k] == matrix.recorded[(col1, header[k])]
        invariant total' == total + Sum(counts)
      {
        var count := matrix.GetCellCount(col1, header[j]);
        assert (counts + [count])[..j] == counts;
        counts := counts + [count];
        total' := total' + count;
        j := j + 1;
      }
      row := Row(col1, counts);
    }

    /** The overview report: how many distinct values each column of interest
        has, and how many lines were processed. Neither distinct count can
        exceed the processed lines. */
    function PrintOverview(): (o: Overview)
      reads this, matrix
      requires Valid()
      ensures o.col1Distinct == |Firsts(matrix.recorded)| && o.col1Column == Col1Index + 1
      ensures o.col2Distinct == |Seconds(matrix.recorded)| && o.col2Column == Col2Index + 1
      ensures o.processed == |matrix.recorded|
      ensures o.col1Distinct <= o.processed && o.col2Distinct <= o.processed
    {
      DistinctAtMostOccurrences(matrix.recorded);
      Overview(|matrix.GetCol1Vals()|, Col1Index + 1, |matrix.GetCol2Vals()|, Col2Index + 1, processed)
    }
  }
}
