/** addDevices (addDevices.py lines 22-100): one signed POST per CSV row, in
    file order, keeping the display names of the rows the server answered
    with status 200. */
module Ingest {
  import opened Common
  import opened Lmv1

  /** One row as csv.DictReader yields it: column name to cell text. */
  type Row = map<string, string>

  /** The columns each row is indexed with, in the order the source reads them. */
  const RequiredColumns: seq<string> := ["AssetName", "IPAddress", "Description", "Department", "Contact"]

  /** The fields read from one row. `location` is the literal list
      `["Location"]`: that column is never looked up. */
  datatype Device = Device(
    displayName: string, ip: string, location: seq<string>,
    description: string, department: string, contact: string)

  /** The exceptions that escape addDevices. */
  datatype Error = KeyError(column: string) | ConnectionError

  /** How a call of addDevices ends: with its returned list, or with the
      exception that escaped it. */
  datatype Outcome = Returned(deviceList: seq<string>) | Raised(error: Error)

  /** What `requests.post` gives back for one row: a status code, or nothing
      because the call raised. */
  datatype Response = Status(code: int) | NoResponse

  /** The input of one call: the parsed rows, the clock reading taken for each
      row and the server's answer to each row's POST. */
  datatype Feed = Feed(rows: seq<Row>, clock: seq<nat>, responses: seq<Response>)

  type AlignedFeed = f: Feed | |f.clock| == |f.rows| && |f.responses| == |f.rows|
    witness Feed([], [], [])

  /** The outcome together with how many rows were posted: the posts are
      always the requests of rows `0 .. posts - 1`, in order. */
  datatype Batch = Batch(outcome: Outcome, posts: nat)

  predicate HasRequiredColumns(row: Row) {
    forall c :: c in RequiredColumns ==> c in row
  }

  /** The position in `columns` of the first one `row` lacks. */
  function FirstMissing(columns: seq<string>, row: Row): (r: Option<nat>)
    ensures r.None? <==> forall c :: c in columns ==> c in row
    ensures r.Some? ==>
      r.value < |columns| && columns[r.value] !in row && forall j :: 0 <= j < r.value ==> columns[j] in row
  {
    if columns == [] then None
    else if columns[0] !in row then Some(0)
    else match FirstMissing(columns[1..], row)
      case None => None
      case Some(k) => Some(k + 1)
  }

  /** Lines 54-59: the five lookups in order, the first absent column
      raising KeyError. */
  function ReadRow(row: Row): Result<Device, Error> {
    if "AssetName" !in row then Err(KeyError("AssetName"))
    else if "IPAddress" !in row then Err(KeyError("IPAddress"))
    else if "Description" !in row then Err(KeyError("Description"))
    else if "Department" !in row then Err(KeyError("Department"))
    else if "Contact" !in row then Err(KeyError("Contact"))
    else Ok(Device(row["AssetName"], row["IPAddress"], ["Location"], row["Description"], row["Department"], row["Contact"]))
  }

  /** A row is read exactly when it has all five columns; the device then
      carries its AssetName and the literal location; otherwise KeyError names
      the first absent column in reading order. */
  lemma ReadRowFacts(row: Row)
    ensures ReadRow(row).Ok? <==> HasRequiredColumns(row)
    ensures ReadRow(row).Ok? ==>
      ReadRow(row).value.displayName == row["AssetName"] && ReadRow(row).value.location == ["Location"]
    ensures ReadRow(row).Err? ==>
      exists k :: FirstMissing(RequiredColumns, row) == Some(k) && ReadRow(row).error == KeyError(RequiredColumns[k])
  {
    var cs := RequiredColumns;
    assert cs[0] == "AssetName" && cs[1] == "IPAddress" && cs[2] == "Description" && cs[3] == "Department" && cs[4] == "Contact";
    assert cs[1..][1..][1..][1..][1..] == [];
    var m := FirstMissing(cs, row);
    if m.None? {
      assert forall c :: c in cs ==> c in row;
      assert cs[0] in row && cs[1] in row && cs[2] in row && cs[3] in row && cs[4] in row;
    } else {
      var k := m.value;
      assert k < 5 && cs[k] !in row;
      assert forall j :: 0 <= j < k ==> cs[j] in row;
      if k == 0 {} else if k == 1 {} else if k == 2 {} else if k == 3 {} else {}
    }
  }

  /** One loop iteration on a batch that has not raised yet. */
  function Attempt(prev: Batch, row: Row, response: Response): Batch
    requires prev.outcome.Returned?
  {
    match ReadRow(row)
    case Err(e) => Batch(Raised(e), prev.posts)
    case Ok(device) =>
      match response
      case NoResponse => Batch(Raised(ConnectionError), prev.posts + 1)
      case Status(code) =>
        var list := prev.outcome.deviceList;
        Batch(Returned(if code == 200 then list + [device.displayName] else list), prev.posts + 1)
  }

  /** The state after the first `n` rows; once an exception escapes, later
      rows are not looked at. */
  function IngestPrefix(f: AlignedFeed, n: nat): Batch
    requires n <= |f.rows|
  {
    if n == 0 then Batch(Returned([]), 0)
    else
      var prev := IngestPrefix(f, n - 1);
      if prev.outcome.Raised? then prev
      else Attempt(prev, f.rows[n - 1], f.responses[n - 1])
  }

  function Ingest(f: AlignedFeed): Batch {
    IngestPrefix(f, |f.rows|)
  }

  /** The requests of the first `n` rows, each built from its own clock reading. */
  function Requests(secrets: Secrets, clock: seq<nat>, hmac: Hmac, n: nat): seq<Request>
    requires n <= |clock|
  {
    seq(n, j requires 0 <= j < n => BuildRequest(secrets, clock[j], hmac))
  }

  /** The log of one more row is the old log followed by that row's request. */
  lemma RequestsSnoc(secrets: Secrets, clock: seq<nat>, hmac: Hmac, n: nat)
    requires n < |clock|
    ensures Requests(secrets, clock, hmac, n + 1) == Requests(secrets, clock, hmac, n) + [BuildRequest(secrets, clock[n], hmac)]
  {
  }

  /** One pass of the loop body for row `i`: the five lookups, the POST of
      the row's request, and the name kept (and `deviceCount` raised) on
      status 200. `posted` is the log of POSTs made so far. */
  method AddDevice(secrets: Secrets, hmac: Hmac, f: AlignedFeed, i: nat,
                   deviceList: seq<string>, deviceCount: nat, posted: seq<Request>)
    returns (after: Batch, count: nat, log: seq<Request>)
    requires i < |f.rows|
    requires posted == Requests(secrets, f.clock, hmac, i)
    ensures after == Attempt(Batch(Returned(deviceList), i), f.rows[i], f.responses[i])
    ensures after.posts == |log| && i <= |log| <= i + 1
    ensures log == Requests(secrets, f.clock, hmac, |log|)
    ensures after.outcome.Returned? ==> count + |deviceList| == deviceCount + |after.outcome.deviceList|
  {
    count := deviceCount;
    log := posted;
    var read := ReadRow(f.rows[i]);
    if read.Err? {
      return Batch(Raised(read.error), i), count, log;
    }
    log := log + [BuildRequest(secrets, f.clock[i], hmac)];
    RequestsSnoc(secrets, f.clock, hmac, i);
    var response := f.responses[i];
    if response.NoResponse? {
      return Batch(Raised(ConnectionError), i + 1), count, log;
    }
    var list := deviceList;
    if response.code == 200 {
      count := count + 1;
      list := list + [read.value.displayName];
    }
    after := Batch(Returned(list), i + 1);
  }

  /** addDevices itself: the `for row in reader` loop. The requests posted
      are, in order, those of rows 0, 1, ..., each with its own reading. */
  method AddDevices(secrets: Secrets, f: AlignedFeed, hmac: Hmac) returns (outcome: Outcome, posted: seq<Request>)
    ensures Batch(outcome, |posted|) == Ingest(f)
    ensures |posted| <= |f.rows|
    ensures posted == Requests(secrets, f.clock, hmac, |posted|)
  {
    var deviceCount := 0;
    var deviceList: seq<string> := [];
    posted := [];
    var i := 0;
    while i < |f.rows|
      invariant i <= |f.rows|
      invariant IngestPrefix(f, i) == Batch(Returned(deviceList), |posted|)
      invariant |posted| == i
      invariant posted == Requests(secrets, f.clock, hmac, i)
      invariant deviceCount == |deviceList|
    {
      var after, count;
      after, count, posted := AddDevice(secrets, hmac, f, i, deviceList, deviceCount, posted);
      if after.outcome.Raised? {
        outcome := after.outcome;
        StaysRaised(f, i + 1, |f.rows|);
        return;
      }
      deviceList := after.outcome.deviceList;
      deviceCount := count;
      i := i + 1;
    }
    outcome := Returned(deviceList);
  }

  /** Once an exception has escaped, nothing after it changes the batch. */
  lemma {:induction false} StaysRaised(f: AlignedFeed, i: nat, n: nat)
    requires i <= n <= |f.rows|
    requires IngestPrefix(f, i).outcome.Raised?
    ensures IngestPrefix(f, n) == IngestPrefix(f, i)
    decreases n
  {
    if n > i {
      StaysRaised(f, i, n - 1);
    }
  }

  /** Row `i` is read in full and its POST returns a status. */
  predicate Good(f: AlignedFeed, i: nat)
    requires i < |f.rows|
  {
    ReadRow(f.rows[i]).Ok? && f.responses[i].Status?
  }

  /** The exception a bad row raises. */
  function ErrorAt(f: AlignedFeed, i: nat): Error
    requires i < |f.rows|
  {
    match ReadRow(f.rows[i])
    case Err(e) => e
    case Ok(_) => ConnectionError
  }

  /** How many POSTs have been made once row `i` has raised. */
  function PostsThrough(f: AlignedFeed, i: nat): nat
    requires i < |f.rows|
  {
    if ReadRow(f.rows[i]).Ok? then i + 1 else i
  }

  /** The names of the rows answered with 200, in file order: an independent
      reference definition, front to back. */
  function Accepted(rows: seq<Row>, responses: seq<Response>): seq<string>
    requires |responses| == |rows|
  {
    if rows == [] then []
    else
      (if responses[0] == Status(200) && "AssetName" in rows[0] then [rows[0]["AssetName"]] else [])
      + Accepted(rows[1..], responses[1..])
  }

  lemma AcceptedOne(row: Row, response: Response)
    ensures Accepted([row], [response])
      == if response == Status(200) && "AssetName" in row then [row["AssetName"]] else []
  {
    assert [row][1..] == [] && [response][1..] == [];
  }

  /** Accepted keeps file order: the names of a concatenation are the names
      of the first part followed by those of the second. */
  lemma {:induction false} AcceptedConcat(r1: seq<Row>, s1: seq<Response>, r2: seq<Row>, s2: seq<Response>)
    requires |s1| == |r1| && |s2| == |r2|
    ensures Accepted(r1 + r2, s1 + s2) == Accepted(r1, s1) + Accepted(r2, s2)
  {
    if r1 != [] {
      assert (r1 + r2)[1..] == r1[1..] + r2;
      assert (s1 + s2)[1..] == s1[1..] + s2;
      AcceptedConcat(r1[1..], s1[1..], r2, s2);
    } else {
      assert r1 + r2 == r2 && s1 + s2 == s2;
    }
  }

  /** A name is listed exactly when some row with that AssetName got 200. */
  lemma {:induction false} AcceptedMembers(rows: seq<Row>, responses: seq<Response>, x: string)
    requires |responses| == |rows|
    ensures x in Accepted(rows, responses) <==>
      exists i :: 0 <= i < |rows| && responses[i] == Status(200) && "AssetName" in rows[i] && rows[i]["AssetName"] == x
  {
    if rows != [] {
      AcceptedMembers(rows[1..], responses[1..], x);
      if x in Accepted(rows[1..], responses[1..]) {
        var i :| 0 <= i < |rows| - 1 && responses[1..][i] == Status(200) && "AssetName" in rows[1..][i] && rows[1..][i]["AssetName"] == x;
        assert responses[i + 1] == Status(200) && rows[i + 1]["AssetName"] == x;
      }
      if exists i :: 0 <= i < |rows| && responses[i] == Status(200) && "AssetName" in rows[i] && rows[i]["AssetName"] == x {
        var i :| 0 <= i < |rows| && responses[i] == Status(200) && "AssetName" in rows[i] && rows[i]["AssetName"] == x;
        if i > 0 {
          assert responses[1..][i - 1] == Status(200) && rows[1..][i - 1]["AssetName"] == x;
        }
      }
    }
  }

  /** One attempt either keeps running, posting the row and adding its name
      if it got 200, or raises. */
  lemma AttemptFacts(prev: Batch, row: Row, response: Response)
    requires prev.outcome.Returned?
    ensures var b := Attempt(prev, row, response);
      if ReadRow(row).Ok? && response.Status? then
        b == Batch(Returned(prev.outcome.deviceList + Accepted([row], [response])), prev.posts + 1)
      else
        b.outcome.Raised? && b.posts == (if ReadRow(row).Ok? then prev.posts + 1 else prev.posts)
        && b.outcome.error == (if ReadRow(row).Ok? then ConnectionError else ReadRow(row).error)
  {
    AcceptedOne(row, response);
  }

  /** The first row among the first `n` that is not good, or `n`. */
  function FirstBad(f: AlignedFeed, n: nat): (k: nat)
    requires n <= |f.rows|
    ensures k <= n
    ensures forall j :: 0 <= j < k ==> Good(f, j)
    ensures k < n ==> !Good(f, k)
  {
    if n == 0 then 0
    else
      var k := FirstBad(f, n - 1);
      if k < n - 1 || !Good(f, n - 1) then k else n
  }

  /** What the first `n` rows leave behind: if all were good, the batch is
      still running, has posted once per row and kept the accepted names;
      otherwise the first bad row decided the exception and how many rows were
      posted. */
  lemma {:induction false} PrefixFacts(f: AlignedFeed, n: nat)
    requires n <= |f.rows|
    ensures var k := FirstBad(f, n);
      IngestPrefix(f, n) ==
        if k == n then Batch(Returned(Accepted(f.rows[..n], f.responses[..n])), n)
        else Batch(Raised(ErrorAt(f, k)), PostsThrough(f, k))
  {
    if n > 0 {
      PrefixFacts(f, n - 1);
      var k := n - 1;
      if FirstBad(f, k) == k {
        assert f.rows[..n] == f.rows[..k] + [f.rows[k]];
        assert f.responses[..n] == f.responses[..k] + [f.responses[k]];
        AcceptedConcat(f.rows[..k], f.responses[..k], [f.rows[k]], [f.responses[k]]);
        AcceptedOne(f.rows[k], f.responses[k]);
        AttemptFacts(IngestPrefix(f, k), f.rows[k], f.responses[k]);
      }
    }
  }

  /** addDevices returns exactly when every row has the five columns and
      every POST gives a status; non-200 statuses do not stop the loop. When
      it returns, every row was posted and the list holds the AssetName of
      exactly the rows answered with 200, in file order. */
  lemma IngestReturned(f: AlignedFeed)
    ensures Ingest(f).outcome.Returned? <==> forall j :: 0 <= j < |f.rows| ==> Good(f, j)
    ensures Ingest(f).outcome.Returned? ==>
      Ingest(f) == Batch(Returned(Accepted(f.rows, f.responses)), |f.rows|)
  {
    PrefixFacts(f, |f.rows|);
    assert f.rows[..|f.rows|] == f.rows && f.responses[..|f.responses|] == f.responses;
  }

  /** When it raises, the first bad row decides the exception; the rows before
      it were posted, and that row too if it had all five columns. */
  lemma IngestRaised(f: AlignedFeed)
    requires Ingest(f).outcome.Raised?
    ensures var k := FirstBad(f, |f.rows|);
      && k < |f.rows|
      && Ingest(f) == Batch(Raised(ErrorAt(f, k)), PostsThrough(f, k))
  {
    PrefixFacts(f, |f.rows|);
  }

  /** Every row has the header's keys (as csv.DictReader gives them). If the
      header lacks a column the loop reads, the first row raises KeyError for
      the first such column and nothing is posted at all. */
  lemma MissingHeaderColumn(f: AlignedFeed, header: set<string>, k: nat)
    requires |f.rows| > 0
    requires forall i :: 0 <= i < |f.rows| ==> f.rows[i].Keys == header
    requires k < |RequiredColumns| && RequiredColumns[k] !in header
    requires forall j :: 0 <= j < k ==> RequiredColumns[j] in header
    ensures Ingest(f) == Batch(Raised(KeyError(RequiredColumns[k])), 0)
  {
    var row := f.rows[0];
    assert row.Keys == header;
    var m := FirstMissing(RequiredColumns, row);
    assert RequiredColumns[k] in RequiredColumns;
    assert m.Some?;
    assert m.value == k;
    ReadRowFacts(row);
    StaysRaised(f, 1, |f.rows|);
  }

  /** Two rows that agree on the five columns the loop reads. */
  predicate SameReadColumns(a: Row, b: Row) {
    forall c :: c in RequiredColumns ==> (c in a <==> c in b) && (c in a ==> a[c] == b[c])
  }

  /** Two rows that agree on the five read columns read the same way. */
  lemma ReadRowSame(a: Row, b: Row)
    requires SameReadColumns(a, b)
    ensures ReadRow(a) == ReadRow(b)
  {
    var cs := RequiredColumns;
    assert cs[0] in cs && cs[1] in cs && cs[2] in cs && cs[3] in cs && cs[4] in cs;
  }

  /** Only the five read columns matter: any other column, `Location` among
      them, can be changed, added or dropped without changing the batch. */
  lemma {:induction false} OnlyReadColumnsMatter(f: AlignedFeed, g: AlignedFeed, n: nat)
    requires |g.rows| == |f.rows| && g.responses == f.responses
    requires forall i :: 0 <= i < |f.rows| ==> SameReadColumns(f.rows[i], g.rows[i])
    requires n <= |f.rows|
    ensures IngestPrefix(f, n) == IngestPrefix(g, n)
  {
    if n > 0 {
      OnlyReadColumnsMatter(f, g, n - 1);
      ReadRowSame(f.rows[n - 1], g.rows[n - 1]);
    }
  }

  /** A rejected POST does not stop the batch: feeds that differ only in
      which status codes come back post the same rows, and both run to the end
      or neither does. */
  lemma {:induction false} StatusCodesDoNotStopLaterRows(f: AlignedFeed, g: AlignedFeed, n: nat)
    requires g.rows == f.rows
    requires forall i :: 0 <= i < |f.rows| ==> (f.responses[i].Status? <==> g.responses[i].Status?)
    requires n <= |f.rows|
    ensures IngestPrefix(f, n).posts == IngestPrefix(g, n).posts
    ensures IngestPrefix(f, n).outcome.Returned? == IngestPrefix(g, n).outcome.Returned?
  {
    if n > 0 {
      StatusCodesDoNotStopLaterRows(f, g, n - 1);
    }
  }
}
