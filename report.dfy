/** `printReport`: the "Recently Added Devices" table built from the list of
    display names a batch returned, and the total line printed after it. */
module Report {
  import opened Common
  import Decimal

  /** A row of the table: its cells, and whether a divider line follows it. */
  datatype TableRow = TableRow(cells: seq<string>, divider: bool)

  const Title := "Recently Added Devices"
  const FieldNames := [" # ", "Device Name"]
  const EmptyMessage := "No new devices added today"
  const TotalPrefix := "New Device Total: "

  /** The single row of a report on no devices; it is added without a divider. */
  const Placeholder := TableRow([" ", EmptyMessage], false)

  /** The mutable table object: a title, the column names and the rows added
      so far. Rendering and column widths are not part of this model. */
  class Table {
    var title: string
    var fieldNames: seq<string>
    var rows: seq<TableRow>

    constructor()
      ensures title == "" && fieldNames == [] && rows == []
    {
      title := "";
      fieldNames := [];
      rows := [];
    }

    /** `add_row`: appends one row and leaves the title and the columns alone. */
    method AddRow(cells: seq<string>, divider: bool)
      modifies this
      ensures rows == old(rows) + [TableRow(cells, divider)]
      ensures title == old(title) && fieldNames == old(fieldNames)
    {
      rows := rows + [TableRow(cells, divider)];
    }
  }

  /** The row the loop adds for index `x`: the index in decimal and the name
      stored at that index, followed by a divider. */
  function NumberedRow(deviceList: seq<string>, x: nat): TableRow
    requires x < |deviceList|
  {
    TableRow([Decimal.Show(x), deviceList[x]], true)
  }

  /** The rows the loop has added once it has run for x = 1 .. n - 1. */
  function LoopRows(deviceList: seq<string>, n: nat): seq<TableRow>
    requires n <= |deviceList|
  {
    if n <= 1 then [] else LoopRows(deviceList, n - 1) + [NumberedRow(deviceList, n - 1)]
  }

  /** All rows of the table `printReport` returns. */
  function ReportRows(deviceList: seq<string>): seq<TableRow> {
    if |deviceList| == 0 then [Placeholder] else LoopRows(deviceList, |deviceList|)
  }

  /** The total line printed after the table; nothing is printed for an empty list. */
  function TotalLine(deviceList: seq<string>): Option<string> {
    if |deviceList| == 0 then None else Some(TotalPrefix + Decimal.Show(|deviceList|))
  }

  /** `printReport`: a fresh table with the fixed title and columns whose rows
      are `ReportRows`, and the total line, if any, that is printed. */
  method PrintReport(deviceList: seq<string>) returns (table: Table, printed: Option<string>)
    ensures fresh(table)
    ensures table.title == Title && table.fieldNames == FieldNames
    ensures table.rows == ReportRows(deviceList)
    ensures printed == TotalLine(deviceList)
  {
    var count := |deviceList|;
    table := new Table();
    table.title := Title;
    table.fieldNames := FieldNames;
    if count == 0 {
      table.AddRow([" ", EmptyMessage], false);
      return table, None;
    }
    var x := 1;
    while x < count
      invariant 1 <= x <= count
      invariant table.title == Title && table.fieldNames == FieldNames
      invariant table.rows == LoopRows(deviceList, x)
    {
      table.AddRow([Decimal.Show(x), deviceList[x]], true);
      x := x + 1;
    }
    printed := Some(TotalPrefix + Decimal.Show(count));
  }

  /** The name column of a list of numbered rows. */
  function Names(rows: seq<TableRow>): seq<string> {
    if |rows| == 0 then []
    else Names(rows[..|rows| - 1]) + [if |rows[|rows| - 1].cells| >= 2 then rows[|rows| - 1].cells[1] else ""]
  }

  /** The loop's rows are n - 1 rows; row k holds the number k + 1 and name
      number k + 1, and carries a divider. */
  lemma {:induction false} LoopRowsContents(deviceList: seq<string>, n: nat)
    requires 1 <= n <= |deviceList|
    ensures |LoopRows(deviceList, n)| == n - 1
    ensures forall k :: 0 <= k < n - 1 ==>
      LoopRows(deviceList, n)[k] == TableRow([Decimal.Show(k + 1), deviceList[k + 1]], true)
  {
    if n > 1 {
      LoopRowsContents(deviceList, n - 1);
    }
  }

  /** A non-empty list gives one row fewer than it has names: row k is
      `[str(k + 1), deviceList[k + 1]]` with a divider. */
  lemma ReportRowsContents(deviceList: seq<string>)
    requires |deviceList| > 0
    ensures |ReportRows(deviceList)| == |deviceList| - 1
    ensures forall k :: 0 <= k < |deviceList| - 1 ==>
      ReportRows(deviceList)[k] == TableRow([Decimal.Show(k + 1), deviceList[k + 1]], true)
  {
    LoopRowsContents(deviceList, |deviceList|);
  }

  /** The names shown are exactly the list without its first element, in order. */
  lemma {:induction false} LoopRowsNames(deviceList: seq<string>, n: nat)
    requires 1 <= n <= |deviceList|
    ensures Names(LoopRows(deviceList, n)) == deviceList[1..n]
  {
    if n > 1 {
      LoopRowsNames(deviceList, n - 1);
      var rows := LoopRows(deviceList, n);
      assert rows[..|rows| - 1] == LoopRows(deviceList, n - 1);
      assert deviceList[1..n] == deviceList[1..n - 1] + [deviceList[n - 1]];
    }
  }

  lemma ReportNames(deviceList: seq<string>)
    requires |deviceList| > 0
    ensures Names(ReportRows(deviceList)) == deviceList[1..]
  {
    LoopRowsNames(deviceList, |deviceList|);
  }

  /** The first name never reaches the table: two lists that differ only
      there give the same rows. */
  lemma {:induction false} LoopRowsIgnoreFirst(a: seq<string>, b: seq<string>, n: nat)
    requires 1 <= |a| == |b| && n <= |a|
    requires a[1..] == b[1..]
    ensures LoopRows(a, n) == LoopRows(b, n)
  {
    if n > 1 {
      LoopRowsIgnoreFirst(a, b, n - 1);
      assert a[n - 1] == a[1..][n - 2] == b[1..][n - 2] == b[n - 1];
    }
  }

  lemma FirstDeviceIgnored(first: string, other: string, rest: seq<string>)
    ensures ReportRows([first] + rest) == ReportRows([other] + rest)
  {
    assert ([first] + rest)[1..] == rest == ([other] + rest)[1..];
    LoopRowsIgnoreFirst([first] + rest, [other] + rest, 1 + |rest|);
  }

  /** With one device the table has no rows at all, yet the total says 1. */
  lemma SingleDevice(name: string)
    ensures ReportRows([name]) == []
    ensures TotalLine([name]) == Some(TotalPrefix + "1")
  {
  }

  /** The empty report is the placeholder row alone, without a total line;
      every other report has no placeholder and prints the full length of
      the list, which can be read back from the line. */
  lemma TotalLineFacts(deviceList: seq<string>)
    ensures TotalLine(deviceList).None? <==> |deviceList| == 0
    ensures |deviceList| == 0 ==> ReportRows(deviceList) == [Placeholder]
    ensures TotalLine(deviceList).Some? ==>
      var line := TotalLine(deviceList).value;
      && |line| > |TotalPrefix|
      && line[..|TotalPrefix|] == TotalPrefix
      && Decimal.Parse(line[|TotalPrefix|..]) == Some(|deviceList|)
  {
    if |deviceList| > 0 {
      var digits := Decimal.Show(|deviceList|);
      var line := TotalPrefix + digits;
      assert line[..|TotalPrefix|] == TotalPrefix;
      assert line[|TotalPrefix|..] == digits;
      Decimal.ParseShow(|deviceList|);
    }
  }
}
