/** A worked instance of the renderer: two rows whose key sets overlap,
    `[{a: '1', b: '2'}, {b: '3', c: '4'}]`, rendered with the default tab delimiter. */
module SpreadsheetExample {
  import opened Text
  import opened Dedup
  import opened Records
  import opened Spreadsheet

  const First: Row := [("a", "1"), ("b", "2")]
  const Second: Row := [("b", "3"), ("c", "4")]

  lemma Join3(x: string, y: string, z: string, sep: string)
    ensures Join([x, y, z], sep) == x + sep + y + sep + z
  {
    JoinCons(x, [y, z], sep);
    JoinCons(y, [z], sep);
    assert [x, y, z] == [x] + [y, z] && [y, z] == [y] + [z];
  }

  /** The keys of both rows in sequence, the shared key `b` twice. */
  lemma ExampleKeys()
    ensures AllKeys([First, Second]) == ["a", "b", "b", "c"]
  {
    var rows := [First, Second];
    assert Keys(First) == ["a", "b"] && Keys(Second) == ["b", "c"];
    assert rows[1..] == [Second] && [Second][1..] == [];
    assert AllKeys([Second]) == Keys(Second) + AllKeys([]);
    assert AllKeys(rows) == Keys(First) + AllKeys([Second]);
  }

  /** The second `b` is dropped. */
  lemma ExampleUniq()
    ensures Uniq(["a", "b", "b", "c"]) == ["a", "b", "c"]
  {
    assert ["a", "b", "b", "c"][..3] == ["a", "b", "b"];
    assert ["a", "b", "b"][..2] == ["a", "b"];
    assert ["a", "b"][..1] == ["a"];
    assert Uniq(["a"]) == ["a"];
    assert Uniq(["a", "b"]) == ["a", "b"];
    assert Uniq(["a", "b", "b"]) == ["a", "b"];
  }

  /** The header is `a<TAB>b<TAB>c`. */
  lemma ExampleHeader()
    ensures Columns([First, Second]) == ["a", "b", "c"]
    ensures Header([First, Second], Tab) == "a\tb\tc"
  {
    ExampleKeys();
    ExampleUniq();
    Join3("a", "b", "c", Tab);
  }

  lemma ExampleFirstCells()
    ensures PaddedCells(First, ["a", "b", "c"]) == ["1", "2", ""]
  {
    assert Keys(First) == ["a", "b"];
  }

  lemma ExampleSecondCells()
    ensures PaddedCells(Second, ["a", "b", "c"]) == ["", "3", "4"]
  {
    assert Keys(Second) == ["b", "c"];
  }

  lemma ExampleJoins()
    ensures Join(["1", "2", ""], Tab) == "1\t2\t"
    ensures Join(["", "3", "4"], Tab) == "\t3\t4"
    ensures Join(["1\t2\t", "\t3\t4"], "\n") == "1\t2\t\n\t3\t4"
  {
    Join3("1", "2", "", Tab);
    Join3("", "3", "4", Tab);
    JoinCons("1\t2\t", ["\t3\t4"], "\n");
  }

  /** The first row has no `c`: its line ends with an empty cell. */
  lemma ExampleFirstLine()
    ensures Line(First, ["a", "b", "c"], Tab) == "1\t2\t"
  {
    LineCells(First, ["a", "b", "c"], Tab);
    ExampleFirstCells();
    ExampleJoins();
  }

  /** The second row has no `a`: its line starts with an empty cell. */
  lemma ExampleSecondLine()
    ensures Line(Second, ["a", "b", "c"], Tab) == "\t3\t4"
  {
    LineCells(Second, ["a", "b", "c"], Tab);
    ExampleSecondCells();
    ExampleJoins();
  }

  /** The whole output. */
  lemma MixedKeysExample()
    ensures Render([First, Second]) == "a\tb\tc\n1\t2\t\n\t3\t4"
  {
    var rows := [First, Second];
    var columns := Columns(rows);
    ExampleHeader();
    ExampleFirstLine();
    ExampleSecondLine();
    ExampleJoins();
    var body := Body(rows, columns, Tab);
    assert body == ["1\t2\t", "\t3\t4"];
    var header, text := Header(rows, Tab), Join(body, "\n");
    assert Render(rows) == header + "\n" + text;
  }
}
