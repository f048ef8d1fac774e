/**
 * The observable behaviour of Java's `line.split("\t")`: the line is cut at
 * every tab, and then trailing empty fields are discarded. Leading and inner
 * empty fields are kept, and a line with no tab at all comes back as the
 * single field it is (even when it is empty).
 */
module JavaSplit {

  const Tab: char := '\t'

  /** Joins fields back into one line, with a tab between neighbours. */
  function Join(fields: seq<string>): string
    requires |fields| >= 1
  {
    if |fields| == 1 then fields[0] else fields[0] + [Tab] + Join(fields[1..])
  }

  /** No field holds a tab. */
  predicate TabFree(fields: seq<string>)
  {
    forall i | 0 <= i < |fields| :: Tab !in fields[i]
  }

  /** Every tab-separated field of `s`, empty ones included: the fields
      between consecutive tabs, before the first and after the last. */
  function Fields(s: string): (r: seq<string>)
    ensures |r| >= 1
  {
    if s == [] then [[]]
    else
      var rest := Fields(s[1..]);
      if s[0] == Tab then [[]] + rest
      else [[s[0]] + rest[0]] + rest[1..]
  }

  /** Join undoes Fields, and no field holds a tab. */
  lemma {:induction false} JoinOfFields(s: string)
    ensures TabFree(Fields(s))
    ensures Join(Fields(s)) == s
    decreases |s|
  {
    if s != [] {
      var rest := Fields(s[1..]);
      JoinOfFields(s[1..]);
      var r := Fields(s);
      if s[0] == Tab {
        assert r == [[]] + rest && r[1..] == rest;
      } else {
        var c := s[0];
        assert r == [[c] + rest[0]] + rest[1..];
        assert r[1..] == rest[1..];
        assert TabFree(r) by {
          forall i | 0 <= i < |r| ensures Tab !in r[i] {
            if i == 0 {
              assert Tab !in rest[0];
            } else {
              assert r[i] == rest[i];
            }
          }
        }
        if |rest| > 1 {
          assert Join(rest) == rest[0] + [Tab] + Join(rest[1..]);
        }
      }
    }
  }

  /** Fields is the inverse of Join on tab-free fields. */
  lemma {:induction false} FieldsOfJoin(fields: seq<string>)
    requires |fields| >= 1 && TabFree(fields)
    ensures Fields(Join(fields)) == fields
    decreases |fields|, |fields[0]|
  {
    var s := Join(fields);
    if fields[0] == [] {
      if |fields| == 1 {
        assert s == [];
      } else {
        assert s == [Tab] + Join(fields[1..]);
        assert s[1..] == Join(fields[1..]);
        FieldsOfJoin(fields[1..]);
        assert Fields(s) == [[]] + fields[1..];
      }
    } else {
      var c := fields[0][0];
      assert c != Tab by { assert fields[0][0] in fields[0]; }
      var shorter := [fields[0][1..]] + fields[1..];
      assert TabFree(shorter) by {
        forall i | 0 <= i < |shorter| ensures Tab !in shorter[i] {
          if i == 0 {
            assert forall x | x in fields[0][1..] :: x in fields[0];
          } else {
            assert shorter[i] == fields[i];
          }
        }
      }
      assert shorter[1..] == fields[1..];
      if |fields| == 1 {
        assert Join(shorter) == fields[0][1..];
      } else {
        assert Join(shorter) == fields[0][1..] + [Tab] + Join(fields[1..]);
      }
      assert s == [c] + Join(shorter);
      assert s[1..] == Join(shorter);
      FieldsOfJoin(shorter);
      assert [c] + shorter[0] == fields[0];
      assert [[c] + shorter[0]] + shorter[1..] == fields;
    }
  }

  /** A line without tabs is one field. */
  lemma {:induction false} FieldsWithoutTab(s: string)
    requires Tab !in s
    ensures Fields(s) == [s]
  {
    assert Join([s]) == s;
    FieldsOfJoin([s]);
  }

  /** A tab appended to a line opens one more, empty, field at the end. */
  lemma {:induction false} FieldsAppendTab(s: string)
    ensures Fields(s + [Tab]) == Fields(s) + [[]]
  {
    var fs := Fields(s);
    JoinOfFields(s);
    var extended := fs + [[]];
    assert TabFree(extended) by {
      forall i | 0 <= i < |extended| ensures Tab !in extended[i] {
        if i < |fs| { assert extended[i] == fs[i]; }
      }
    }
    JoinAppendEmpty(fs);
    FieldsOfJoin(extended);
  }

  /** Joining with one more empty field appends one tab. */
  lemma {:induction false} JoinAppendEmpty(fields: seq<string>)
    requires |fields| >= 1
    ensures Join(fields + [[]]) == Join(fields) + [Tab]
    decreases |fields|
  {
    var extended := fields + [[]];
    assert extended[1..] == fields[1..] + [[]];
    if |fields| > 1 {
      JoinAppendEmpty(fields[1..]);
    }
  }

  /** The fields that Java keeps once the trailing empty ones are gone. */
  function DropTrailingEmpty(fields: seq<string>): seq<string>
  {
    if fields == [] then []
    else if fields[|fields| - 1] == [] then DropTrailingEmpty(fields[..|fields| - 1])
    else fields
  }

  /** What DropTrailingEmpty keeps: a prefix whose last field is non-empty,
      with only empty fields after it. */
  lemma {:induction false} DropTrailingEmptyKeepsPrefix(fields: seq<string>)
    ensures DropTrailingEmpty(fields) <= fields
    ensures DropTrailingEmpty(fields) == [] || DropTrailingEmpty(fields)[|DropTrailingEmpty(fields)| - 1] != []
    ensures forall i | |DropTrailingEmpty(fields)| <= i < |fields| :: fields[i] == []
  {
    if fields != [] && fields[|fields| - 1] == [] {
      DropTrailingEmptyKeepsPrefix(fields[..|fields| - 1]);
    }
  }

  /** `s.split("\t")` with Java's default limit of zero: a line without a
      tab comes back whole, and when the line has a tab no trailing field
      of the result is empty. */
  function SplitTab(s: string): (r: seq<string>)
    ensures Tab !in s ==> r == [s]
    ensures r == [] ==> Tab in s
    ensures Tab in s ==> r == [] || r[|r| - 1] != []
  {
    if Tab !in s then [s]
    else
      DropTrailingEmptyKeepsPrefix(Fields(s));
      DropTrailingEmpty(Fields(s))
  }

  /** What SplitTab keeps: a prefix of the fields in their order, everything
      after it empty, and (when the line has a tab) a non-empty last field. */
  lemma SplitTabKeepsLeadingFields(s: string)
    ensures SplitTab(s) <= Fields(s)
    ensures forall i | |SplitTab(s)| <= i < |Fields(s)| :: Fields(s)[i] == []
    ensures Tab in s ==> SplitTab(s) == [] || SplitTab(s)[|SplitTab(s)| - 1] != []
    ensures Tab !in s ==> SplitTab(s) == [s]
  {
    if Tab !in s {
      FieldsWithoutTab(s);
    } else {
      DropTrailingEmptyKeepsPrefix(Fields(s));
    }
  }

  /** A line splits into more than three fields exactly when one of its
      fields from the fourth on is non-empty. */
  lemma FieldCountAboveThree(s: string)
    ensures |SplitTab(s)| > 3 <==> exists i | 3 <= i < |Fields(s)| :: Fields(s)[i] != []
  {
    SplitTabKeepsLeadingFields(s);
    var r := SplitTab(s);
    if |r| > 3 {
      if Tab in s {
        assert Fields(s)[|r| - 1] == r[|r| - 1];
      }
    }
  }

  /** Appending a tab to a non-empty line does not change its split: the new
      field is empty and trailing. */
  lemma TrailingTabIgnored(s: string)
    requires s != []
    ensures SplitTab(s + [Tab]) == SplitTab(s)
  {
    FieldsAppendTab(s);
    var fs := Fields(s);
    assert Tab in s + [Tab] by { assert (s + [Tab])[|s|] == Tab; }
    assert (fs + [[]])[..|fs|] == fs;
    assert DropTrailingEmpty(fs + [[]]) == DropTrailingEmpty(fs);
    if Tab !in s {
      FieldsWithoutTab(s);
      assert DropTrailingEmpty([s]) == [s];
    }
  }

  /** Join of four fields, written out. */
  lemma JoinFour(a: string, b: string, c: string, d: string)
    ensures Join([a, b, c, d]) == a + [Tab] + b + [Tab] + c + [Tab] + d
  {
    assert [a, b, c, d][1..] == [b, c, d];
    assert [b, c, d][1..] == [c, d];
    assert [c, d][1..] == [d];
    assert Join([c, d]) == c + [Tab] + d;
    assert Join([b, c, d]) == b + [Tab] + (c + [Tab] + d);
    assert Join([a, b, c, d]) == a + [Tab] + (b + [Tab] + (c + [Tab] + d));
  }

  /** Java example: a trailing empty field vanishes. */
  lemma SplitDropsTrailingEmptyField()
    ensures SplitTab("a\tb\tc\t") == ["a", "b", "c"]
  {
    JoinFour("a", "b", "c", "");
    assert "a" + [Tab] + "b" + [Tab] + "c" + [Tab] + "" == "a\tb\tc\t";
    FieldsOfJoin(["a", "b", "c", ""]);
    assert "a\tb\tc\t"[1] == Tab;
    var fs: seq<string> := ["a", "b", "c", ""];
    assert fs[..3] == ["a", "b", "c"];
  }

  /** Java example: leading and inner empty fields stay. */
  lemma SplitKeepsLeadingAndInnerEmptyFields()
    ensures SplitTab("\ta\t\tb") == ["", "a", "", "b"]
  {
    JoinFour("", "a", "", "b");
    assert "" + [Tab] + "a" + [Tab] + "" + [Tab] + "b" == "\ta\t\tb";
    FieldsOfJoin(["", "a", "", "b"]);
    assert "\ta\t\tb"[0] == Tab;
  }

  /** Java example: a line of tabs alone has no fields at all. */
  lemma SplitOfTabsOnlyIsEmpty()
    ensures SplitTab("\t\t") == []
  {
    var fs: seq<string> := ["", "", ""];
    assert fs[1..] == ["", ""] && fs[1..][1..] == [""];
    assert Join(fs) == "\t\t";
    FieldsOfJoin(fs);
    assert "\t\t"[0] == Tab;
    assert fs[..2] == ["", ""] && fs[..2][..1] == [""] && fs[..2][..1][..0] == [];
  }

  /** Java example: the empty line is one empty field. The pass over a file
      never splits an empty line, since it skips those first. */
  lemma SplitOfEmptyLine()
    ensures SplitTab("") == [""]
  {
  }
}
