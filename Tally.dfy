/**
 * The value-level meaning of the frequency matrix. Its abstract state is the
 * multiset of (column-1 value, column-2 value) pairs recorded so far; the
 * concrete state is the nested map `col1 -> col2 -> count` plus the set of
 * column-2 values seen. `Represents` ties the two together.
 */
module Tally {

  type Pair = (string, string)

  type Cells = map<string, map<string, nat>>

  /** The count of a pair in the nested map, absent at either level meaning 0. */
  function Lookup(cells: Cells, col1: string, col2: string): nat
  {
    if col1 in cells && col2 in cells[col1] then cells[col1][col2] else 0
  }

  /** The column-1 values of the recorded pairs. */
  ghost function Firsts(m: multiset<Pair>): set<string>
  {
    set p | p in m :: p.0
  }

  /** The column-2 values of the recorded pairs. */
  ghost function Seconds(m: multiset<Pair>): set<string>
  {
    set p | p in m :: p.1
  }

  /** `cells` and `col2Vals` hold exactly the occurrences in `m`: no stored
      zero, each cell the multiplicity of its pair, the outer keys the
      column-1 values and `col2Vals` the column-2 values that occurred. */
  ghost predicate Represents(cells: Cells, col2Vals: set<string>, m: multiset<Pair>)
  {
    && (forall a, b | a in cells && b in cells[a] :: cells[a][b] >= 1)
    && (forall a, b {:trigger Lookup(cells, a, b)} :: Lookup(cells, a, b) == m[(a, b)])
    && cells.Keys == Firsts(m)
    && col2Vals == Seconds(m)
  }

  /** The empty matrix stands for no occurrences at all. */
  lemma EmptyRepresentsNothing()
    ensures Represents(map[], {}, multiset{})
  {
  }

  /** Recording one more pair adds its two values to the value sets. */
  lemma FirstsSecondsAdd(m: multiset<Pair>, p: Pair)
    ensures Firsts(m + multiset{p}) == Firsts(m) + {p.0}
    ensures Seconds(m + multiset{p}) == Seconds(m) + {p.1}
  {
    var m' := m + multiset{p};
    assert p in m';
    forall q | q in m' ensures q.0 in Firsts(m) + {p.0} && q.1 in Seconds(m) + {p.1} {
      if q != p {
        assert q in m;
      }
    }
    forall q | q in m ensures q.0 in Firsts(m') && q.1 in Seconds(m') {
      assert q in m';
    }
  }

  /** Replacing the inner map of `a` by one that holds the same counts except
      one more for `b` records one more occurrence of (a, b). */
  lemma IncrementRepresents(cells: Cells, col2Vals: set<string>, m: multiset<Pair>,
                            a: string, b: string, value: map<string, nat>)
    requires Represents(cells, col2Vals, m)
    requires b in value && value[b] == Lookup(cells, a, b) + 1
    requires forall y | y != b :: y in value <==> a in cells && y in cells[a]
    requires forall y | y != b && y in value :: value[y] == cells[a][y]
    ensures Represents(cells[a := value], col2Vals + {b}, m + multiset{(a, b)})
  {
    var cells' := cells[a := value];
    var m' := m + multiset{(a, b)};
    forall x, y | x in cells' && y in cells'[x] ensures cells'[x][y] >= 1 {
      if x != a {
        assert cells'[x] == cells[x];
      } else if y != b {
        assert cells'[x][y] == cells[a][y];
      }
    }
    forall x, y ensures Lookup(cells', x, y) == m'[(x, y)] {
      if x != a {
        assert Lookup(cells', x, y) == Lookup(cells, x, y);
      } else if y != b {
        assert Lookup(cells', x, y) == Lookup(cells, x, y);
      }
    }
    FirstsSecondsAdd(m, (a, b));
    assert cells'.Keys == cells.Keys + {a};
  }

  /** Every key of every inner map is among the column-2 values, and no
      inner map is empty. */
  lemma InnerKeysAreCol2Vals(cells: Cells, col2Vals: set<string>, m: multiset<Pair>)
    requires Represents(cells, col2Vals, m)
    ensures forall a, b | a in cells && b in cells[a] :: b in col2Vals
    ensures forall a | a in cells :: cells[a] != map[]
  {
    forall a, b | a in cells && b in cells[a] ensures b in col2Vals {
      assert Lookup(cells, a, b) >= 1;
      assert (a, b) in m;
    }
    forall a | a in cells ensures cells[a] != map[] {
      assert a in Firsts(m);
      var p :| p in m && p.0 == a;
      assert Lookup(cells, a, p.1) == m[p] >= 1;
      assert p.1 in cells[a];
    }
  }

  /** The concrete state is a function of the recorded multiset alone: the
      same occurrences, in any order, give the same maps and sets. */
  lemma RepresentationUnique(cells1: Cells, vals1: set<string>, cells2: Cells, vals2: set<string>, m: multiset<Pair>)
    requires Represents(cells1, vals1, m)
    requires Represents(cells2, vals2, m)
    ensures cells1 == cells2 && vals1 == vals2
  {
    assert cells1.Keys == cells2.Keys;
    forall a | a in cells1 ensures cells1[a] == cells2[a] {
      forall b | b in cells1[a] ensures b in cells2[a] && cells1[a][b] == cells2[a][b] {
        assert Lookup(cells1, a, b) == Lookup(cells2, a, b);
      }
      forall b | b in cells2[a] ensures b in cells1[a] {
        assert Lookup(cells1, a, b) == Lookup(cells2, a, b);
      }
    }
  }

  /** There are no more distinct values in either column than occurrences. */
  lemma {:induction false} DistinctAtMostOccurrences(m: multiset<Pair>)
    ensures |Firsts(m)| <= |m| && |Seconds(m)| <= |m|
    decreases |m|
  {
    if m == multiset{} {
      assert Firsts(m) == {} && Seconds(m) == {};
    } else {
      var p :| p in m;
      var rest := m - multiset{p};
      assert m == rest + multiset{p};
      DistinctAtMostOccurrences(rest);
      FirstsSecondsAdd(rest, p);
    }
  }

  /** No value occurs twice. */
  predicate Distinct(q: seq<string>)
  {
    forall i, j | 0 <= i < j < |q| :: q[i] != q[j]
  }

  /** Lists a set in some order, each element once (the unspecified iteration
      order of a Java HashSet or of a HashMap's key set). */
  method Enumerate(s: set<string>) returns (q: seq<string>)
    ensures Distinct(q)
    ensures forall v :: v in q <==> v in s
    ensures |q| == |s|
  {
    q := [];
    var rest := s;
    while rest != {}
      invariant rest <= s
      invariant Distinct(q)
      invariant forall v :: v in q <==> v in s && v !in rest
      invariant |q| + |rest| == |s|
      decreases |rest|
    {
      var v :| v in rest;
      q := q + [v];
      rest := rest - {v};
    }
  }

  /** The counts of row `col1` over the columns `cols`, added up. */
  function RowSum(m: multiset<Pair>, col1: string, cols: seq<string>): nat
  {
    if cols == [] then 0
    else RowSum(m, col1, cols[..|cols| - 1]) + m[(col1, cols[|cols| - 1])]
  }

  /** The counts of every cell of the grid `rows` x `cols`, added up. */
  function GridSum(m: multiset<Pair>, rows: seq<string>, cols: seq<string>): nat
  {
    if rows == [] then 0
    else GridSum(m, rows[..|rows| - 1], cols) + RowSum(m, rows[|rows| - 1], cols)
  }

  lemma {:induction false} RowSumEmpty(col1: string, cols: seq<string>)
    ensures RowSum(multiset{}, col1, cols) == 0
  {
    if cols != [] {
      RowSumEmpty(col1, cols[..|cols| - 1]);
    }
  }

  lemma {:induction false} GridSumEmpty(rows: seq<string>, cols: seq<string>)
    ensures GridSum(multiset{}, rows, cols) == 0
  {
    if rows != [] {
      GridSumEmpty(rows[..|rows| - 1], cols);
      RowSumEmpty(rows[|rows| - 1], cols);
    }
  }

  /** One more occurrence of `p` adds one to the row of `p.0` when `p.1` is
      among the (distinct) columns, and nothing to any other row. */
  lemma {:induction false} RowSumAdd(m: multiset<Pair>, p: Pair, col1: string, cols: seq<string>)
    requires Distinct(cols)
    ensures RowSum(m + multiset{p}, col1, cols)
         == RowSum(m, col1, cols) + (if col1 == p.0 && p.1 in cols then 1 else 0)
  {
    if cols != [] {
      var init := cols[..|cols| - 1];
      var last := cols[|cols| - 1];
      assert Distinct(init);
      RowSumAdd(m, p, col1, init);
      assert p.1 in cols <==> p.1 in init || p.1 == last;
      assert p.1 == last ==> p.1 !in init;
    }
  }

  /** One more occurrence of `p` adds exactly one to the grid sum when the
      grid holds its cell once. */
  lemma {:induction false} GridSumAdd(m: multiset<Pair>, p: Pair, rows: seq<string>, cols: seq<string>)
    requires Distinct(rows) && Distinct(cols)
    ensures GridSum(m + multiset{p}, rows, cols)
         == GridSum(m, rows, cols) + (if p.0 in rows && p.1 in cols then 1 else 0)
  {
    if rows != [] {
      var init := rows[..|rows| - 1];
      var last := rows[|rows| - 1];
      assert Distinct(init);
      GridSumAdd(m, p, init, cols);
      RowSumAdd(m, p, last, cols);
      assert p.0 in rows <==> p.0 in init || p.0 == last;
      assert p.0 == last ==> p.0 !in init;
    }
  }

  /** Adding up every cell of a grid that lists each recorded row and column
      value exactly once gives the number of occurrences. */
  lemma {:induction false} GridSumCountsAll(m: multiset<Pair>, rows: seq<string>, cols: seq<string>)
    requires Distinct(rows) && Distinct(cols)
    requires forall p | p in m :: p.0 in rows && p.1 in cols
    ensures GridSum(m, rows, cols) == |m|
    decreases |m|
  {
    if m == multiset{} {
      GridSumEmpty(rows, cols);
    } else {
      var p :| p in m;
      var rest := m - multiset{p};
      assert m == rest + multiset{p};
      GridSumCountsAll(rest, rows, cols);
      GridSumAdd(rest, p, rows, cols);
    }
  }
}
