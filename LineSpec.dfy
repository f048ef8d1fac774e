/**
 * What one pass over the lines of the input should produce: how many lines
 * are non-empty, how many of those are processed, and which column pairs
 * are counted. Each is defined on the input, one line at a time from the
 * front, so that the loop in `Summarise` can be proved against it.
 */
module LineSpec {

  import opened JavaSplit
  import opened Tally

  /** The columns of interest (zero-based). */
  const Col1Index: nat := 0
  const Col2Index: nat := 2
  /** A line is processed only when it splits into more fields than this. */
  const MinFields: nat := 3

  /** A non-empty line with enough fields to be counted. Such a line has a
      tab. */
  predicate Processable(line: string)
    ensures Processable(line) ==> Tab in line
  {
    line != [] && |SplitTab(line)| > MinFields
  }

  /** The pair a processable line contributes: its first and third
      tab-separated pieces, neither of which holds a tab. */
  function KeyOf(line: string): (r: Pair)
    requires Processable(line)
    ensures |Fields(line)| > Col2Index && r == (Fields(line)[Col1Index], Fields(line)[Col2Index])
    ensures Tab !in r.0 && Tab !in r.1
  {
    SplitTabKeepsLeadingFields(line);
    JoinOfFields(line);
    var cols := SplitTab(line);
    (cols[Col1Index], cols[Col2Index])
  }

  /** What one line adds to each summary: one non-empty line, one processed
      line, and its pair. */
  function Counted(line: string): nat
  {
    if line != [] then 1 else 0
  }

  function ProcessedCount(line: string): nat
  {
    if Processable(line) then 1 else 0
  }

  function Contribution(line: string): multiset<Pair>
  {
    if Processable(line) then multiset{KeyOf(line)} else multiset{}
  }

  /** The number of non-empty lines. */
  function NonEmptyLines(input: seq<string>): nat
  {
    if input == [] then 0
    else NonEmptyLines(input[..|input| - 1]) + Counted(input[|input| - 1])
  }

  /** The number of lines that are processed. */
  function ProcessedLines(input: seq<string>): nat
  {
    if input == [] then 0
    else ProcessedLines(input[..|input| - 1]) + ProcessedCount(input[|input| - 1])
  }

  /** The pairs counted, one per processed line. */
  function Recorded(input: seq<string>): multiset<Pair>
  {
    if input == [] then multiset{}
    else Recorded(input[..|input| - 1]) + Contribution(input[|input| - 1])
  }

  /** Extending a prefix of the input by its next line adds that line's share. */
  lemma PrefixStep(input: seq<string>, i: nat)
    requires i < |input|
    ensures NonEmptyLines(input[..i + 1]) == NonEmptyLines(input[..i]) + Counted(input[i])
    ensures ProcessedLines(input[..i + 1]) == ProcessedLines(input[..i]) + ProcessedCount(input[i])
    ensures Recorded(input[..i + 1]) == Recorded(input[..i]) + Contribution(input[i])
  {
    assert input[..i + 1][..i] == input[..i];
  }

  /** Processed lines are among the non-empty ones, and each of them
      contributes exactly one counted pair. */
  lemma {:induction false} ProcessedAtMostNonEmpty(input: seq<string>)
    ensures ProcessedLines(input) <= NonEmptyLines(input)
    ensures |Recorded(input)| == ProcessedLines(input)
  {
    if input != [] {
      ProcessedAtMostNonEmpty(input[..|input| - 1]);
    }
  }

  /** A non-empty line that is not processed: it splits into three fields
      or fewer. */
  predicate Malformed(line: string)
  {
    line != [] && !Processable(line)
  }

  /** A line is processed only if it is non-empty, and is malformed exactly
      when it is non-empty but not processed. */
  lemma LineShares(line: string)
    ensures ProcessedCount(line) <= Counted(line)
    ensures Malformed(line) <==> Counted(line) == 1 && ProcessedCount(line) == 0
  {
  }

  /** The number of malformed lines. */
  function MalformedCount(input: seq<string>): nat
  {
    if input == [] then 0
    else MalformedCount(input[..|input| - 1]) + (if Malformed(input[|input| - 1]) then 1 else 0)
  }

  /** Every non-empty line is either processed or malformed: the gap between
      the two counts is exactly the number of malformed lines. */
  lemma {:induction false} NonEmptyIsProcessedPlusMalformed(input: seq<string>)
    ensures NonEmptyLines(input) == ProcessedLines(input) + MalformedCount(input)
  {
    if input != [] {
      NonEmptyIsProcessedPlusMalformed(input[..|input| - 1]);
      LineShares(input[|input| - 1]);
    }
  }

  /** One malformed line among well-formed ones leaves exactly one
      non-empty line unprocessed. */
  lemma OneMalformedLine(a: seq<string>, bad: string, b: seq<string>)
    requires Malformed(bad)
    requires forall i | 0 <= i < |a| :: !Malformed(a[i])
    requires forall i | 0 <= i < |b| :: !Malformed(b[i])
    ensures NonEmptyLines(a + [bad] + b) == ProcessedLines(a + [bad] + b) + 1
  {
    Concatenation(a, [bad]);
    Concatenation(a + [bad], b);
    NoMalformedLineNoMismatch(a);
    NoMalformedLineNoMismatch(b);
    assert [bad][..0] == [];
  }

  /** Without a malformed line, every non-empty line is processed. */
  lemma {:induction false} NoMalformedLineNoMismatch(input: seq<string>)
    requires forall i | 0 <= i < |input| :: !Malformed(input[i])
    ensures NonEmptyLines(input) == ProcessedLines(input)
  {
    if input != [] {
      var n := |input| - 1;
      assert forall i | 0 <= i < n :: input[..n][i] == input[i];
      NoMalformedLineNoMismatch(input[..n]);
      LineShares(input[n]);
    }
  }

  /** One malformed line leaves the processed lines short of the non-empty ones. */
  lemma {:induction false} MalformedLineMismatch(input: seq<string>, i: nat)
    requires i < |input| && Malformed(input[i])
    ensures ProcessedLines(input) < NonEmptyLines(input)
  {
    var n := |input| - 1;
    LineShares(input[n]);
    if i == n {
      ProcessedAtMostNonEmpty(input[..n]);
    } else {
      assert input[..n][i] == input[i];
      MalformedLineMismatch(input[..n], i);
    }
  }

  /** The counts differ exactly when some non-empty line splits into three or
      fewer fields. */
  lemma MismatchIffMalformedLine(input: seq<string>)
    ensures NonEmptyLines(input) != ProcessedLines(input)
        <==> exists i | 0 <= i < |input| :: Malformed(input[i])
  {
    if exists i | 0 <= i < |input| :: Malformed(input[i]) {
      var i :| 0 <= i < |input| && Malformed(input[i]);
      MalformedLineMismatch(input, i);
    } else {
      NoMalformedLineNoMismatch(input);
    }
  }

  /** When every non-empty line has more than three fields, every one of them
      is processed and counted. */
  lemma WellFormedInputIsFullyCounted(input: seq<string>)
    requires forall i | 0 <= i < |input| :: !Malformed(input[i])
    ensures NonEmptyLines(input) == ProcessedLines(input) == |Recorded(input)|
  {
    MismatchIffMalformedLine(input);
    ProcessedAtMostNonEmpty(input);
  }

  /** The three summaries of a concatenation are those of the parts combined. */
  lemma {:induction false} Concatenation(a: seq<string>, b: seq<string>)
    ensures NonEmptyLines(a + b) == NonEmptyLines(a) + NonEmptyLines(b)
    ensures ProcessedLines(a + b) == ProcessedLines(a) + ProcessedLines(b)
    ensures Recorded(a + b) == Recorded(a) + Recorded(b)
    decreases |b|
  {
    if b == [] {
      assert a + b == a;
    } else {
      var init := b[..|b| - 1];
      assert (a + b)[..|a + b| - 1] == a + init;
      assert (a + b)[|a + b| - 1] == b[|b| - 1];
      Concatenation(a, init);
    }
  }

  /** An empty line anywhere changes none of the summaries. */
  lemma EmptyLineIgnored(a: seq<string>, b: seq<string>)
    ensures NonEmptyLines(a + [[]] + b) == NonEmptyLines(a + b)
    ensures ProcessedLines(a + [[]] + b) == ProcessedLines(a + b)
    ensures Recorded(a + [[]] + b) == Recorded(a + b)
  {
    Concatenation(a, [[]]);
    Concatenation(a + [[]], b);
    Concatenation(a, b);
    var blank: seq<string> := [[]];
    assert blank[..0] == [];
  }

  /** Swapping two blocks of lines changes none of the summaries: the counts
      depend on the lines, not on their order. */
  lemma BlockOrderIrrelevant(a: seq<string>, b: seq<string>)
    ensures NonEmptyLines(a + b) == NonEmptyLines(b + a)
    ensures ProcessedLines(a + b) == ProcessedLines(b + a)
    ensures Recorded(a + b) == Recorded(b + a)
  {
    Concatenation(a, b);
    Concatenation(b, a);
  }

  /** A line of four tab-separated fields whose last field is non-empty is
      processed, and counts its first and third field. */
  lemma FourFieldLine(a: string, b: string, c: string, d: string)
    requires Tab !in a && Tab !in b && Tab !in c && Tab !in d && d != []
    ensures Processable(Join([a, b, c, d]))
    ensures KeyOf(Join([a, b, c, d])) == (a, c)
  {
    var fields := [a, b, c, d];
    JoinFour(a, b, c, d);
    var line := Join(fields);
    assert line[|a|] == Tab;
    FieldsOfJoin(fields);
  }

  /** What a four-field line with a non-empty last field adds to each summary. */
  lemma FourFieldLineShares(a: string, b: string, c: string, d: string)
    requires Tab !in a && Tab !in b && Tab !in c && Tab !in d && d != []
    ensures Counted(Join([a, b, c, d])) == 1 && ProcessedCount(Join([a, b, c, d])) == 1
    ensures Contribution(Join([a, b, c, d])) == multiset{(a, c)}
  {
    FourFieldLine(a, b, c, d);
  }

  /** Three singletons added one by one to nothing make their multiset. */
  lemma AddThree(p: Pair, q: Pair, r: Pair)
    ensures multiset{} + multiset{p} + multiset{q} + multiset{r} == multiset{p, q, r}
  {
  }

  /** Three processed lines are counted three times and record their three pairs. */
  lemma ThreeProcessedLines(l0: string, l1: string, l2: string, p0: Pair, p1: Pair, p2: Pair)
    requires Counted(l0) == Counted(l1) == Counted(l2) == 1
    requires ProcessedCount(l0) == ProcessedCount(l1) == ProcessedCount(l2) == 1
    requires Contribution(l0) == multiset{p0} && Contribution(l1) == multiset{p1}
    requires Contribution(l2) == multiset{p2}
    ensures NonEmptyLines([l0, l1, l2]) == ProcessedLines([l0, l1, l2]) == 3
    ensures Recorded([l0, l1, l2]) == multiset{p0, p1, p2}
  {
    var input := [l0, l1, l2];
    assert input[..0] == [] && input[..3] == input;
    assert NonEmptyLines(input) == 3 by {
      PrefixStep(input, 0);
      PrefixStep(input, 1);
      PrefixStep(input, 2);
    }
    assert ProcessedLines(input) == 3 by {
      PrefixStep(input, 0);
      PrefixStep(input, 1);
      PrefixStep(input, 2);
    }
    assert Recorded(input) == multiset{p0, p1, p2} by {
      PrefixStep(input, 0);
      PrefixStep(input, 1);
      PrefixStep(input, 2);
      AddThree(p0, p1, p2);
    }
  }

  /** Three four-field lines, two sharing the first field and two sharing the
      third: all three are processed and each records its (first, third) pair. */
  lemma ThreeLineExample(a: string, b: string, x: string, foo: string, bar: string,
                         y: string, z: string, w: string)
    requires Tab !in a && Tab !in b && Tab !in x && Tab !in foo && Tab !in bar
    requires Tab !in y && Tab !in z && Tab !in w
    requires y != [] && z != [] && w != []
    ensures var input := [Join([a, x, foo, y]), Join([a, x, bar, z]), Join([b, x, foo, w])];
            && NonEmptyLines(input) == ProcessedLines(input) == 3
            && Recorded(input) == multiset{(a, foo), (a, bar), (b, foo)}
  {
    FourFieldLineShares(a, x, foo, y);
    FourFieldLineShares(a, x, bar, z);
    FourFieldLineShares(b, x, foo, w);
    ThreeProcessedLines(Join([a, x, foo, y]), Join([a, x, bar, z]), Join([b, x, foo, w]),
                        (a, foo), (a, bar), (b, foo));
  }

  /** The pairs of the three-line example hold two distinct values in each
      column when a differs from b and foo from bar. */
  lemma ThreeLineExampleValues(a: string, b: string, foo: string, bar: string)
    requires a != b && foo != bar
    ensures |Firsts(multiset{(a, foo), (a, bar), (b, foo)})| == 2
    ensures |Seconds(multiset{(a, foo), (a, bar), (b, foo)})| == 2
  {
    var m := multiset{(a, foo), (a, bar), (b, foo)};
    assert Firsts(m) == {a, b} by {
      assert (a, foo) in m && (b, foo) in m;
    }
    assert Seconds(m) == {foo, bar} by {
      assert (a, foo) in m && (a, bar) in m;
    }
  }
}
