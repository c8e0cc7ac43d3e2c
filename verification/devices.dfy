/** The device query's callback: one spreadsheet row per device record, keyed
    `Device name`, `UDID`, `Template`, then the rendered tab-separated report. */
module DeviceReport {
  import opened Text
  import opened Dedup
  import opened Records
  import opened Spreadsheet

  /** One record returned by the device query. */
  datatype Device = Device(deviceName: string, udid: string, templateName: string)

  /** The keys of a device row, in the order the object literal lists them. */
  const DeviceColumns: seq<string> := ["Device name", "UDID", "Template"]

  /** The header line of a device report. */
  const DeviceHeaderLine: string := "Device name\tUDID\tTemplate"

  /** `row` is the object literal built for `device`. */
  predicate RowFor(row: Row, device: Device)
  {
    Keys(row) == DeviceColumns && Values(row) == [device.deviceName, device.udid, device.templateName]
  }

  /** The tab-separated body line expected for one device. */
  function DeviceLine(device: Device): string
  {
    device.deviceName + Tab + device.udid + Tab + device.templateName
  }

  /** `results.forEach(result => rows.push({...}))`: exactly one row per record, in
      the query's order. */
  method BuildRows(results: seq<Device>) returns (rows: seq<Row>)
    ensures |rows| == |results|
    ensures forall i :: 0 <= i < |results| ==> RowFor(rows[i], results[i])
  {
    rows := [];
    for i := 0 to |results|
      invariant |rows| == i
      invariant forall j :: 0 <= j < i ==> RowFor(rows[j], results[j])
    {
      var result := results[i];
      var row: Row := [("Device name", result.deviceName), ("UDID", result.udid), ("Template", result.templateName)];
      assert Keys(row) == DeviceColumns;
      rows := rows + [row];
    }
  }

  /** With at least one device the header is exactly `Device name<TAB>UDID<TAB>Template`. */
  lemma DeviceHeader(rows: seq<Row>)
    requires |rows| >= 1
    requires forall i :: 0 <= i < |rows| ==> Keys(rows[i]) == DeviceColumns
    ensures Columns(rows) == DeviceColumns
    ensures Header(rows, Tab) == DeviceHeaderLine
  {
    UniformColumns(rows, DeviceColumns);
  }

  lemma DeviceColumnsDistinct()
    ensures Distinct(DeviceColumns)
  {
    assert DeviceColumns[0][0] == 'D' && DeviceColumns[1][0] == 'U' && DeviceColumns[2][0] == 'T';
  }

  /** The padded cells of a device row are its values, in the same order. */
  lemma DeviceRowCells(row: Row, device: Device)
    requires RowFor(row, device)
    ensures PaddedCells(row, DeviceColumns) == [device.deviceName, device.udid, device.templateName]
  {
    var cells := PaddedCells(row, DeviceColumns);
    forall k | 0 <= k < 3
      ensures cells[k] == Values(row)[k]
    {
      assert row[k].0 == Keys(row)[k];
    }
  }

  /** Each device row renders as its name, identifier and template joined by tabs. */
  lemma DeviceRowLine(row: Row, device: Device)
    requires RowFor(row, device)
    ensures Line(row, DeviceColumns, Tab) == DeviceLine(device)
  {
    DeviceColumnsDistinct();
    LineCells(row, DeviceColumns, Tab);
    DeviceRowCells(row, device);
    var parts := [device.deviceName, device.udid, device.templateName];
    JoinCons(parts[0], parts[1..], Tab);
    JoinCons(parts[1], parts[2..], Tab);
    assert parts[1..] == [parts[1]] + parts[2..];
  }

  /** The whole report for a non-empty device list: the fixed header, then one line per
      device in query order. */
  lemma DeviceReportText(results: seq<Device>, rows: seq<Row>)
    requires |results| >= 1 && |rows| == |results|
    requires forall i :: 0 <= i < |results| ==> RowFor(rows[i], results[i])
    ensures Render(rows) ==
              DeviceHeaderLine + "\n" +
              Join(seq(|results|, i requires 0 <= i < |results| => DeviceLine(results[i])), "\n")
  {
    assert forall i :: 0 <= i < |rows| ==> Keys(rows[i]) == DeviceColumns;
    DeviceHeader(rows);
    var body := Body(rows, DeviceColumns, Tab);
    var expected := seq(|results|, i requires 0 <= i < |results| => DeviceLine(results[i]));
    forall i | 0 <= i < |rows|
      ensures body[i] == expected[i]
    {
      DeviceRowLine(rows[i], results[i]);
    }
    assert body == expected;
    assert Render(rows) == Header(rows, Tab) + "\n" + Join(body, "\n");
  }

  /** The callback body up to the file write: the spreadsheet text for the query's results. */
  method ReportText(results: seq<Device>) returns (text: string)
    ensures |results| == 0 ==> text == "\n"
    ensures |results| >= 1 ==>
              text == DeviceHeaderLine + "\n" +
                      Join(seq(|results|, i requires 0 <= i < |results| => DeviceLine(results[i])), "\n")
  {
    var rows := BuildRows(results);
    text := Render(rows);
    if |results| == 0 {
      RenderEmpty(Tab);
    } else {
      DeviceReportText(results, rows);
    }
  }
}
