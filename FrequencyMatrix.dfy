/**
 * The inner class `Matrix`: counts how often each (column-1 value,
 * column-2 value) combination occurs, and answers 0 for combinations never
 * counted. Its only mutator is `IncrementCell`.
 */
module FrequencyMatrix {

  import opened Tally

  class Matrix {
    var col2Vals: set<string>
    var cells: Cells
    /** Every pair passed to IncrementCell so far. */
    ghost var recorded: multiset<Pair>

    ghost predicate Valid()
      reads this
    {
      Represents(cells, col2Vals, recorded)
    }

    constructor ()
      ensures Valid() && recorded == multiset{}
      ensures cells == map[] && col2Vals == {}
    {
      col2Vals := {};
      cells := map[];
      recorded := multiset{};
      EmptyRepresentsNothing();
    }

    /** Counts one more occurrence of (col1, col2). */
    method IncrementCell(col1: string, col2: string)
      requires Valid()
      modifies this
      ensures Valid()
      ensures recorded == old(recorded) + multiset{(col1, col2)}
      ensures GetCellCount(col1, col2) == old(GetCellCount(col1, col2)) + 1
      ensures forall a, b | (a, b) != (col1, col2) :: GetCellCount(a, b) == old(GetCellCount(a, b))
      ensures GetCol1Vals() == old(GetCol1Vals()) + {col1}
      ensures GetCol2Vals() == old(GetCol2Vals()) + {col2}
    {
      var value: map<string, nat>;
      if col1 in cells {
        value := cells[col1];
        if col2 in value {
          var count := value[col2];
          value := value[col2 := count + 1];
        } else {
          value := value[col2 := 1];
        }
      } else {
        value := map[col2 := 1];
      }
      IncrementRepresents(cells, col2Vals, recorded, col1, col2, value);
      cells := cells[col1 := value];
      col2Vals := col2Vals + {col2};
      recorded := recorded + multiset{(col1, col2)};
    }

    /** The number of times (col1, col2) was counted; 0 if never. */
    function GetCellCount(col1: string, col2: string): (n: nat)
      reads this
      requires Valid()
      ensures n == recorded[(col1, col2)]
    {
      Lookup(cells, col1, col2)
    }

    /** The column-1 values counted at least once. */
    function GetCol1Vals(): (s: set<string>)
      reads this
      requires Valid()
      ensures s == Firsts(recorded)
    {
      cells.Keys
    }

    /** The column-2 values counted at least once, whatever their column-1 value. */
    function GetCol2Vals(): (s: set<string>)
      reads this
      requires Valid()
      ensures s == Seconds(recorded)
    {
      col2Vals
    }
  }
}
