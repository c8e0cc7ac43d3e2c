/** `createSpreadsheet(rows, delimiter = '\t')`: renders a list of objects, whose key sets
    may differ, as a delimited text table. The header lists every key that occurs in any
    row, once, in order of first appearance; each body line lists one row's values in
    header order, with `''` for keys the row lacks. Nothing is escaped. */
module Spreadsheet {
  import opened Text
  import opened Dedup
  import opened Records

  /** The default delimiter, a horizontal tab. */
  const Tab: string := "\t"

  /** `_.chain(rows).map(_.keys).flatten()`: every key of every row, row after row. */
  function AllKeys(rows: seq<Row>): (ks: seq<string>)
    ensures forall k :: k in ks <==> exists i :: 0 <= i < |rows| && k in Keys(rows[i])
  {
    if |rows| == 0 then []
    else
      var rest := AllKeys(rows[1..]);
      assert forall i :: 1 <= i < |rows| ==> rows[i] == rows[1..][i - 1];
      Keys(rows[0]) + rest
  }

  /** The header columns: `AllKeys` de-duplicated, first occurrence kept. */
  function Columns(rows: seq<Row>): (cols: seq<string>)
    ensures forall k :: k in cols <==> exists i :: 0 <= i < |rows| && k in Keys(rows[i])
    ensures Distinct(cols)
  {
    Uniq(AllKeys(rows))
  }

  /** The value a row shows under column `col`: its own value, or `''` if it lacks the key. */
  function Cell(row: Row, col: string): (c: string)
    ensures col !in Keys(row) ==> c == ""
    ensures forall i :: 0 <= i < |row| && row[i].0 == col ==> c == row[i].1
  {
    LookupEach(row);
    match Lookup(row, col)
    case Some(v) => v
    case None => ""
  }

  /** The cells of a row laid out under the given columns. */
  function PaddedCells(row: Row, columns: seq<string>): (cells: seq<string>)
    ensures |cells| == |columns|
  {
    seq(|columns|, k requires 0 <= k < |columns| => Cell(row, columns[k]))
  }

  /** `Object.assign({}, defaultValues, _.pick(row, ...columns))`. */
  function Filled(row: Row, columns: seq<string>): Record
  {
    Assign(Assign([], Blank(columns)), Pick(row, columns))
  }

  /** `_.values(filled).join(delimiter)` for one row. */
  function Line(row: Row, columns: seq<string>, delimiter: string): string
  {
    Join(Values(Filled(row, columns)), delimiter)
  }

  /** The body lines, one per row, in row order. */
  function Body(rows: seq<Row>, columns: seq<string>, delimiter: string): (lines: seq<string>)
    ensures |lines| == |rows|
  {
    seq(|rows|, i requires 0 <= i < |rows| => Line(rows[i], columns, delimiter))
  }

  /** The header line. */
  function Header(rows: seq<Row>, delimiter: string): string
  {
    Join(Columns(rows), delimiter)
  }

  /** `createSpreadsheet(rows, delimiter)`. */
  function Render(rows: seq<Row>, delimiter: string := Tab): string
  {
    Header(rows, delimiter) + "\n" + Join(Body(rows, Columns(rows), delimiter), "\n")
  }

  /** No key and no value of any row contains `c`. */
  predicate FreeOf(rows: seq<Row>, c: char)
  {
    forall i, j :: 0 <= i < |rows| && 0 <= j < |rows[i]| ==> c !in rows[i][j].0 && c !in rows[i][j].1
  }

  /** No key of any row contains `c`; the values are unconstrained. */
  predicate KeysFreeOf(rows: seq<Row>, c: char)
  {
    forall i, j :: 0 <= i < |rows| && 0 <= j < |rows[i]| ==> c !in rows[i][j].0
  }

  /** The header lists the keys in order of first appearance: across the rows, and
      within a row in that row's own key order. */
  lemma ColumnsFirstSeen(rows: seq<Row>)
    ensures FirstSeenOrder(Columns(rows), AllKeys(rows))
  {
    UniqFirstSeen(AllKeys(rows));
  }

  /** The header is the one list of all keys, each once, in first-appearance order. */
  lemma ColumnsCharacterised(rows: seq<Row>, u: seq<string>)
    requires Distinct(u)
    requires forall k :: k in u <==> exists i :: 0 <= i < |rows| && k in Keys(rows[i])
    requires FirstSeenOrder(u, AllKeys(rows))
    ensures u == Columns(rows)
  {
    UniqCharacterised(AllKeys(rows), u);
  }

  /** When every row has the same keys in the same order, the header is those keys. */
  lemma UniformColumns(rows: seq<Row>, keys: seq<string>)
    requires |rows| >= 1
    requires forall i :: 0 <= i < |rows| ==> Keys(rows[i]) == keys
    ensures Columns(rows) == keys
  {
    var all := AllKeys(rows);
    assert all == keys + AllKeys(rows[1..]);
    assert Distinct(keys) by {
      assert DistinctKeys(rows[0]);
    }
    forall i | 0 <= i < |keys|
      ensures FirstIndex(all, keys[i]) == i
    {
      FirstIndexPrefix(keys, AllKeys(rows[1..]), keys[i]);
      FirstIndexDistinct(keys, i);
    }
    assert forall k :: k in keys <==> exists i :: 0 <= i < |rows| && k in Keys(rows[i]) by {
      forall k | k in keys
        ensures exists i :: 0 <= i < |rows| && k in Keys(rows[i])
      {
        assert k in Keys(rows[0]);
      }
    }
    ColumnsCharacterised(rows, keys);
  }

  /** A filled-out row has exactly the header's keys, in header order (not the row's own
      order), and under each column the row's own value or `''`. */
  lemma FilledCells(row: Row, columns: seq<string>)
    requires Distinct(columns)
    ensures Keys(Filled(row, columns)) == columns
    ensures Values(Filled(row, columns)) == PaddedCells(row, columns)
  {
    var blank := Blank(columns);
    var picked := Pick(row, columns);
    AssignFresh([], blank);
    assert [] + blank == blank;
    var filled := Assign(blank, picked);
    assert filled == Filled(row, columns);
    PickKeys(row, columns);
    AssignKeepsKeys(blank, picked);
    forall k | 0 <= k < |columns|
      ensures filled[k].1 == Cell(row, columns[k])
    {
      var c := columns[k];
      assert Keys(filled)[k] == c;
      LookupAt(filled, k);
      AssignLookup(blank, picked, c);
      PickLookup(row, columns, c);
    }
  }

  /** A body line is its padded cells joined by the delimiter. */
  lemma LineCells(row: Row, columns: seq<string>, delimiter: string)
    requires Distinct(columns)
    ensures Line(row, columns, delimiter) == Join(PaddedCells(row, columns), delimiter)
  {
    FilledCells(row, columns);
  }

  /** A character missing from every value of the row is missing from every padded cell. */
  lemma PaddedCellsAvoid(row: Row, columns: seq<string>, c: char)
    requires forall j :: 0 <= j < |row| ==> c !in row[j].1
    ensures forall k :: 0 <= k < |columns| ==> c !in PaddedCells(row, columns)[k]
  {
    forall k | 0 <= k < |columns|
      ensures c !in PaddedCells(row, columns)[k]
    {
      if columns[k] in Keys(row) {
        var j :| 0 <= j < |row| && Keys(row)[j] == columns[k];
        assert row[j].0 == columns[k];
      }
    }
  }

  /** When no value contains the delimiter, a body line holds exactly `|columns| - 1`
      delimiters and splits back into its padded cells, one field per column. */
  lemma LineFields(row: Row, columns: seq<string>, d: char)
    requires Distinct(columns) && |columns| >= 1
    requires forall j :: 0 <= j < |row| ==> d !in row[j].1
    ensures Split(Line(row, columns, [d]), d) == PaddedCells(row, columns)
    ensures multiset(Line(row, columns, [d]))[d] == |columns| - 1
  {
    LineCells(row, columns, [d]);
    PaddedCellsAvoid(row, columns, d);
    SplitJoin(PaddedCells(row, columns), d);
    FieldCount(PaddedCells(row, columns), d);
  }

  /** No rows: an empty header, the newline, and an empty body. */
  lemma RenderEmpty(delimiter: string)
    ensures Render([], delimiter) == "\n"
  {
    assert Columns([]) == [];
  }

  /** A character missing from every key is missing from every header column. */
  lemma ColumnsAvoid(rows: seq<Row>, c: char)
    requires KeysFreeOf(rows, c)
    ensures forall k :: 0 <= k < |Columns(rows)| ==> c !in Columns(rows)[k]
  {
    var columns := Columns(rows);
    forall k | 0 <= k < |columns|
      ensures c !in columns[k]
    {
      assert columns[k] in columns;
      var i :| 0 <= i < |rows| && columns[k] in Keys(rows[i]);
      var j :| 0 <= j < |rows[i]| && Keys(rows[i])[j] == columns[k];
    }
  }

  /** A character missing from the delimiter and from all keys and values is missing from
      the header and from every body line. */
  lemma LinesAvoid(rows: seq<Row>, delimiter: string, c: char)
    requires c !in delimiter
    requires FreeOf(rows, c)
    ensures c !in Header(rows, delimiter)
    ensures forall i :: 0 <= i < |rows| ==> c !in Body(rows, Columns(rows), delimiter)[i]
  {
    var columns := Columns(rows);
    assert KeysFreeOf(rows, c);
    ColumnsAvoid(rows, c);
    JoinAvoids(columns, delimiter, c);
    forall i | 0 <= i < |rows|
      ensures c !in Body(rows, columns, delimiter)[i]
    {
      assert forall j :: 0 <= j < |rows[i]| ==> c !in rows[i][j].1;
      LineCells(rows[i], columns, delimiter);
      PaddedCellsAvoid(rows[i], columns, c);
      JoinAvoids(PaddedCells(rows[i], columns), delimiter, c);
    }
  }

  /** With at least one row and no newline in the delimiter, keys or values, the output
      is the header line followed by one line per row, in row order: it holds exactly one
      newline per row and splits at newlines into those lines. */
  lemma RenderLines(rows: seq<Row>, delimiter: string)
    requires |rows| >= 1
    requires '\n' !in delimiter
    requires FreeOf(rows, '\n')
    ensures Split(Render(rows, delimiter), '\n') == [Header(rows, delimiter)] + Body(rows, Columns(rows), delimiter)
    ensures multiset(Render(rows, delimiter))['\n'] == |rows|
  {
    var lines := [Header(rows, delimiter)] + Body(rows, Columns(rows), delimiter);
    JoinCons(Header(rows, delimiter), Body(rows, Columns(rows), delimiter), "\n");
    assert Render(rows, delimiter) == Join(lines, "\n");
    LinesAvoid(rows, delimiter, '\n');
    assert forall i :: 0 <= i < |lines| ==> '\n' !in lines[i] by {
      forall i | 0 <= i < |lines|
        ensures '\n' !in lines[i]
      {
        if i > 0 {
          assert lines[i] == Body(rows, Columns(rows), delimiter)[i - 1];
        }
      }
    }
    SplitJoin(lines, '\n');
    FieldCount(lines, '\n');
  }

  /** Without escaping, the table round-trips exactly when no key or value contains the
      delimiter or a newline: splitting the output at newlines and then at the delimiter
      gives back the header columns and every row padded out to them. */
  lemma RenderRoundTrip(rows: seq<Row>, d: char)
    requires d != '\n'
    requires FreeOf(rows, d) && FreeOf(rows, '\n')
    requires |Columns(rows)| >= 1
    ensures |Split(Render(rows, [d]), '\n')| == |rows| + 1
    ensures Split(Split(Render(rows, [d]), '\n')[0], d) == Columns(rows)
    ensures forall i :: 0 <= i < |rows| ==>
              Split(Split(Render(rows, [d]), '\n')[i + 1], d) == PaddedCells(rows[i], Columns(rows))
  {
    var header, body := Header(rows, [d]), Body(rows, Columns(rows), [d]);
    RenderLines(rows, [d]);
    assert Split(Render(rows, [d]), '\n') == [header] + body;
    assert KeysFreeOf(rows, d);
    HeaderFields(rows, d);
    forall i | 0 <= i < |rows|
      ensures Split(body[i], d) == PaddedCells(rows[i], Columns(rows))
    {
      RowLineFields(rows, i, d);
    }
  }

  /** The header line splits back into the columns whenever no key contains the delimiter,
      whatever the values hold: the header reads only keys. */
  lemma HeaderFields(rows: seq<Row>, d: char)
    requires KeysFreeOf(rows, d) && |Columns(rows)| >= 1
    ensures Split(Header(rows, [d]), d) == Columns(rows)
  {
    ColumnsAvoid(rows, d);
    SplitJoin(Columns(rows), d);
  }

  /** The `i`-th body line splits back into the `i`-th row's padded cells. */
  lemma RowLineFields(rows: seq<Row>, i: nat, d: char)
    requires i < |rows| && FreeOf(rows, d) && |Columns(rows)| >= 1
    ensures Split(Body(rows, Columns(rows), [d])[i], d) == PaddedCells(rows[i], Columns(rows))
  {
    assert forall j :: 0 <= j < |rows[i]| ==> d !in rows[i][j].1;
    LineFields(rows[i], Columns(rows), d);
  }
}
