/** The selection logic of `main.py`: the folder search of `get_email_folder`
    and the walk over markets, mails and attachments in `main`, with every
    Graph API response given as data. */
module Mailbox {
  import opened Common
  import opened Lmv1
  import Ingest
  import Report

  /** One entry of the `value` list of a mail-folder listing. */
  datatype Folder = Folder(displayName: string, id: string)

  /** An attachment: its id, its name, and what `addDevices` reads from the
      file it is saved to. */
  datatype Attachment = Attachment(id: string, name: string, content: Ingest.AlignedFeed)

  datatype Mail = Mail(id: string, attachments: seq<Attachment>)

  /** A market of `markets.markets`, with the folder listing and the mails
      that the Graph API returns for it. */
  datatype Market = Market(name: string, folders: seq<Folder>, mails: seq<Mail>)

  /** What stops `main` before the last market: `folder_id` or `report`
      unbound when it is read, or an exception out of `addDevices`. */
  datatype Failure = FolderIdUnbound | ReportUnbound | BatchFailed(error: Ingest.Error)

  /** The variables `main` carries: `report` (unbound is `None`), the paths
      written so far, and the device lists of the reports sent so far. */
  datatype State = State(report: Option<seq<string>>, saved: seq<string>, reports: seq<seq<string>>)

  datatype Run = Run(failure: Option<Failure>, state: State)

  const Start := State(None, [], [])

  /** The folder looked up for a market. */
  function FolderNameFor(market: string): string {
    market + "Assets"
  }

  /** The path an attachment is written to and read back from. */
  function SavePath(market: string, name: string): string {
    "./Downloads/" + market + "-" + name
  }

  // ---------------------------------------------------------------- folders

  /** The id of the first folder, in list order, named `name`; `None` when no
      folder has that name, where the source reads an unbound `folder_id`. */
  function FindFolder(name: string, folders: seq<Folder>): Option<string> {
    if |folders| == 0 then None
    else if folders[0].displayName == name then Some(folders[0].id)
    else FindFolder(name, folders[1..])
  }

  /** The index of the first folder named `name`, or `|folders|` if there is none. */
  function FirstNamed(name: string, folders: seq<Folder>): (k: nat)
    ensures k <= |folders|
    ensures forall j :: 0 <= j < k ==> folders[j].displayName != name
    ensures k < |folders| ==> folders[k].displayName == name
  {
    if |folders| == 0 then 0
    else if folders[0].displayName == name then 0
    else 1 + FirstNamed(name, folders[1..])
  }

  /** The search returns the id of the first folder with the name, and
      nothing exactly when no folder has it; later matches are ignored. */
  lemma {:induction false} FindFolderFirstMatch(name: string, folders: seq<Folder>)
    ensures var k := FirstNamed(name, folders);
      FindFolder(name, folders) == if k < |folders| then Some(folders[k].id) else None
    ensures FindFolder(name, folders).None? <==> forall i :: 0 <= i < |folders| ==> folders[i].displayName != name
  {
    if |folders| > 0 && folders[0].displayName != name {
      FindFolderFirstMatch(name, folders[1..]);
      var k := FirstNamed(name, folders[1..]);
      if k < |folders[1..]| {
        assert folders[1 + k] == folders[1..][k];
      }
      forall i | 1 <= i < |folders| ensures folders[i] == folders[1..][i - 1] {
      }
    }
  }

  /** `get_email_folder`: the loop over the listing that stops at the first
      folder whose display name is `folderName`. */
  method GetEmailFolder(folderName: string, folders: seq<Folder>) returns (folderId: Option<string>)
    ensures folderId == FindFolder(folderName, folders)
  {
    folderId := None;
    var i := 0;
    while i < |folders|
      invariant i <= |folders|
      invariant FindFolder(folderName, folders) == FindFolder(folderName, folders[i..])
    {
      assert folders[i..][1..] == folders[i + 1..];
      if folders[i].displayName == folderName {
        folderId := Some(folders[i].id);
        break;
      }
      i := i + 1;
    }
  }

  // ------------------------------------------------------------ CSV test

  /** Python's `sub in s` for strings: `sub` occurs somewhere in `s`. */
  function Contains(s: string, sub: string): bool
    decreases |s|
  {
    if |s| < |sub| then false
    else s[..|sub|] == sub || Contains(s[1..], sub)
  }

  /** `sub` occurs in `s` starting at index `i`. */
  predicate OccursAt(s: string, sub: string, i: int) {
    0 <= i && i + |sub| <= |s| && s[i..i + |sub|] == sub
  }

  /** The recursive test agrees with "`sub` occurs at some index". */
  lemma {:induction false} ContainsAt(s: string, sub: string)
    ensures Contains(s, sub) <==> exists i :: OccursAt(s, sub, i)
    decreases |s|
  {
    if |s| >= |sub| {
      if OccursAt(s, sub, 0) {
      } else {
        ContainsAt(s[1..], sub);
        if Contains(s[1..], sub) {
          var i :| OccursAt(s[1..], sub, i);
          assert s[i + 1..i + 1 + |sub|] == s[1..][i..i + |sub|];
          assert OccursAt(s, sub, i + 1);
        }
        if i :| OccursAt(s, sub, i) {
          assert i != 0;
          assert s[1..][i - 1..i - 1 + |sub|] == s[i..i + |sub|];
          assert OccursAt(s[1..], sub, i - 1);
        }
      }
    } else {
      if i :| OccursAt(s, sub, i) {
        assert false;
      }
    }
  }

  predicate IsCsv(name: string) {
    Contains(name, ".csv")
  }

  /** The test is a case-sensitive substring test, not a suffix test: a
      name with ".csv" in the middle passes, an upper-case suffix does not. */
  lemma CsvTestExamples()
    ensures IsCsv("a.csv.b")
    ensures !IsCsv("a.CSV")
  {
    var yes := "a.csv.b";
    assert yes[1..][..4] == ".csv";
    var no := "a.CSV";
    assert no[1..][1..] == "CSV";
    assert no[1..][..4][1] != ".csv"[1];
    assert no[..4][0] != ".csv"[0];
  }

  // ------------------------------------------------------ the walk, as values

  /** One attachment: a CSV one is saved, then ingested; an exception out of
      the batch ends the run; a returned list becomes `report`. */
  function AttachmentStep(market: string, st: State, a: Attachment): Run {
    if !IsCsv(a.name) then Run(None, st)
    else
      var saved := st.(saved := st.saved + [SavePath(market, a.name)]);
      match Ingest.Ingest(a.content).outcome
      case Returned(list) => Run(None, saved.(report := Some(list)))
      case Raised(e) => Run(Some(BatchFailed(e)), saved)
  }

  /** The first `n` attachments, in order; a failure is final. */
  function Attachments(market: string, st: State, atts: seq<Attachment>, n: nat): Run
    requires n <= |atts|
  {
    if n == 0 then Run(None, st)
    else
      var r := Attachments(market, st, atts, n - 1);
      if r.failure.Some? then r else AttachmentStep(market, r.state, atts[n - 1])
  }

  /** The first `n` mails, each with all of its attachments. */
  function Mails(market: string, st: State, mails: seq<Mail>, n: nat): Run
    requires n <= |mails|
  {
    if n == 0 then Run(None, st)
    else
      var r := Mails(market, st, mails, n - 1);
      if r.failure.Some? then r
      else Attachments(market, r.state, mails[n - 1].attachments, |mails[n - 1].attachments|)
  }

  /** One market: find its folder, walk its mails, then format and send the
      report held in `report`, which must be bound by then. */
  function MarketStep(st: State, m: Market): Run {
    match FindFolder(FolderNameFor(m.name), m.folders)
    case None => Run(Some(FolderIdUnbound), st)
    case Some(_) =>
      var r := Mails(m.name, st, m.mails, |m.mails|);
      if r.failure.Some? then r
      else if r.state.report.None? then Run(Some(ReportUnbound), r.state)
      else Run(None, r.state.(reports := r.state.reports + [r.state.report.value]))
  }

  /** The first `n` markets, in order. */
  function Markets(st: State, markets: seq<Market>, n: nat): Run
    requires n <= |markets|
  {
    if n == 0 then Run(None, st)
    else
      var r := Markets(st, markets, n - 1);
      if r.failure.Some? then r else MarketStep(r.state, markets[n - 1])
  }

  // ------------------------------------------------------ the walk, as loops

  /** The body of the attachment loop: the `".csv"` test, the saved file and
      the call to `addDevices`, whose list replaces `report`. */
  method ProcessAttachment(secrets: Secrets, hmac: Hmac, market: string, st: State, a: Attachment)
    returns (r: Run)
    ensures r == AttachmentStep(market, st, a)
  {
    if !Contains(a.name, ".csv") {
      return Run(None, st);
    }
    var saved := st.saved + [SavePath(market, a.name)];
    var outcome, posted := Ingest.AddDevices(secrets, a.content, hmac);
    if outcome.Raised? {
      return Run(Some(BatchFailed(outcome.error)), st.(saved := saved));
    }
    return Run(None, State(Some(outcome.deviceList), saved, st.reports));
  }

  method ProcessAttachments(secrets: Secrets, hmac: Hmac, market: string, st: State, atts: seq<Attachment>)
    returns (r: Run)
    ensures r == Attachments(market, st, atts, |atts|)
  {
    var cur := st;
    var i := 0;
    while i < |atts|
      invariant i <= |atts|
      invariant Attachments(market, st, atts, i) == Run(None, cur)
    {
      var next := ProcessAttachment(secrets, hmac, market, cur, atts[i]);
      if next.failure.Some? {
        AttachmentsStayFailed(market, st, atts, i + 1, |atts|);
        return next;
      }
      cur := next.state;
      i := i + 1;
    }
    return Run(None, cur);
  }

  method ProcessMails(secrets: Secrets, hmac: Hmac, market: string, st: State, mails: seq<Mail>)
    returns (r: Run)
    ensures r == Mails(market, st, mails, |mails|)
  {
    var cur := st;
    var i := 0;
    while i < |mails|
      invariant i <= |mails|
      invariant Mails(market, st, mails, i) == Run(None, cur)
    {
      var next := ProcessAttachments(secrets, hmac, market, cur, mails[i].attachments);
      if next.failure.Some? {
        MailsStayFailed(market, st, mails, i + 1, |mails|);
        return next;
      }
      cur := next.state;
      i := i + 1;
    }
    return Run(None, cur);
  }

  /** Table `k` sent is the one `printReport` builds from report `k`. */
  predicate SentMatches(sent: seq<seq<Report.TableRow>>, reports: seq<seq<string>>) {
    |sent| == |reports| && forall k :: 0 <= k < |sent| ==> sent[k] == Report.ReportRows(reports[k])
  }

  /** The body of the market loop: the folder id, the mails and their
      attachments, then the table `printReport` formats from `report`,
      which joins the tables already sent. */
  method ProcessMarket(secrets: Secrets, hmac: Hmac, st: State, m: Market, sent: seq<seq<Report.TableRow>>)
    returns (r: Run, tables: seq<seq<Report.TableRow>>)
    requires SentMatches(sent, st.reports)
    ensures r == MarketStep(st, m)
    ensures SentMatches(tables, r.state.reports)
  {
    tables := sent;
    var folderId := GetEmailFolder(FolderNameFor(m.name), m.folders);
    if folderId.None? {
      return Run(Some(FolderIdUnbound), st), tables;
    }
    var next := ProcessMails(secrets, hmac, m.name, st, m.mails);
    MailsKeepReports(m.name, st, m.mails, |m.mails|);
    if next.failure.Some? {
      return next, tables;
    }
    if next.state.report.None? {
      return Run(Some(ReportUnbound), next.state), tables;
    }
    var content, total := Report.PrintReport(next.state.report.value);
    tables := tables + [content.rows];
    r := Run(None, next.state.(reports := next.state.reports + [next.state.report.value]));
  }

  /** `main`: every market in order, stopping at the first failure. `sent`
      holds the rows of every table sent, one per report. */
  method ProcessMarkets(secrets: Secrets, hmac: Hmac, markets: seq<Market>)
    returns (r: Run, sent: seq<seq<Report.TableRow>>)
    ensures r == Markets(Start, markets, |markets|)
    ensures SentMatches(sent, r.state.reports)
  {
    var cur := Start;
    sent := [];
    var i := 0;
    while i < |markets|
      invariant i <= |markets|
      invariant Markets(Start, markets, i) == Run(None, cur)
      invariant SentMatches(sent, cur.reports)
    {
      var next;
      next, sent := ProcessMarket(secrets, hmac, cur, markets[i], sent);
      if next.failure.Some? {
        MarketsStayFailed(Start, markets, i + 1, |markets|);
        return next, sent;
      }
      cur := next.state;
      i := i + 1;
    }
    return Run(None, cur), sent;
  }

  // ------------------------------------------------------------- lemmas

  lemma {:induction false} AttachmentsStayFailed(market: string, st: State, atts: seq<Attachment>, i: nat, n: nat)
    requires i <= n <= |atts|
    requires Attachments(market, st, atts, i).failure.Some?
    ensures Attachments(market, st, atts, n) == Attachments(market, st, atts, i)
    decreases n
  {
    if n > i {
      AttachmentsStayFailed(market, st, atts, i, n - 1);
    }
  }

  lemma {:induction false} MailsStayFailed(market: string, st: State, mails: seq<Mail>, i: nat, n: nat)
    requires i <= n <= |mails|
    requires Mails(market, st, mails, i).failure.Some?
    ensures Mails(market, st, mails, n) == Mails(market, st, mails, i)
    decreases n
  {
    if n > i {
      MailsStayFailed(market, st, mails, i, n - 1);
    }
  }

  lemma {:induction false} MarketsStayFailed(st: State, markets: seq<Market>, i: nat, n: nat)
    requires i <= n <= |markets|
    requires Markets(st, markets, i).failure.Some?
    ensures Markets(st, markets, n) == Markets(st, markets, i)
    decreases n
  {
    if n > i {
      MarketsStayFailed(st, markets, i, n - 1);
    }
  }

  /** Nothing a market's attachments do touches the reports already sent. */
  lemma {:induction false} AttachmentsKeepReports(market: string, st: State, atts: seq<Attachment>, n: nat)
    requires n <= |atts|
    ensures Attachments(market, st, atts, n).state.reports == st.reports
  {
    if n > 0 {
      AttachmentsKeepReports(market, st, atts, n - 1);
    }
  }

  lemma {:induction false} MailsKeepReports(market: string, st: State, mails: seq<Mail>, n: nat)
    requires n <= |mails|
    ensures Mails(market, st, mails, n).state.reports == st.reports
  {
    if n > 0 {
      MailsKeepReports(market, st, mails, n - 1);
      var r := Mails(market, st, mails, n - 1);
      AttachmentsKeepReports(market, r.state, mails[n - 1].attachments, |mails[n - 1].attachments|);
    }
  }

  /** The report a market's attachments leave behind: the list returned for
      the last CSV attachment, or the report from before if there is none. */
  function LastCsvReport(prev: Option<seq<string>>, atts: seq<Attachment>): Option<seq<string>> {
    if |atts| == 0 then prev
    else
      var a := atts[|atts| - 1];
      if IsCsv(a.name) && Ingest.Ingest(a.content).outcome.Returned?
      then Some(Ingest.Ingest(a.content).outcome.deviceList)
      else LastCsvReport(prev, atts[..|atts| - 1])
  }

  /** The paths written for a list of attachments: one per CSV attachment, in order. */
  function CsvPaths(market: string, atts: seq<Attachment>): seq<string> {
    if |atts| == 0 then []
    else
      var a := atts[|atts| - 1];
      CsvPaths(market, atts[..|atts| - 1]) + (if IsCsv(a.name) then [SavePath(market, a.name)] else [])
  }

  /** When no batch fails, each `report` is overwritten by each CSV in turn,
      and exactly the CSV attachments are saved, each under its market. */
  lemma {:induction false} AttachmentsEffect(market: string, st: State, atts: seq<Attachment>, n: nat)
    requires n <= |atts|
    requires Attachments(market, st, atts, n).failure.None?
    ensures Attachments(market, st, atts, n).state.report == LastCsvReport(st.report, atts[..n])
    ensures Attachments(market, st, atts, n).state.saved == st.saved + CsvPaths(market, atts[..n])
  {
    if n > 0 {
      var r := Attachments(market, st, atts, n - 1);
      assert r.failure.None?;
      AttachmentsEffect(market, st, atts, n - 1);
      assert atts[..n][..n - 1] == atts[..n - 1];
    }
  }

  /** The attachments of a list of mails, mail by mail. */
  function Flatten(mails: seq<Mail>): seq<Attachment> {
    if |mails| == 0 then [] else Flatten(mails[..|mails| - 1]) + mails[|mails| - 1].attachments
  }

  lemma {:induction false} AttachmentsSamePrefix(market: string, st: State, s: seq<Attachment>, t: seq<Attachment>, n: nat)
    requires n <= |s| && n <= |t|
    requires s[..n] == t[..n]
    ensures Attachments(market, st, s, n) == Attachments(market, st, t, n)
  {
    if n > 0 {
      assert s[..n - 1] == s[..n][..n - 1] == t[..n][..n - 1] == t[..n - 1];
      assert s[n - 1] == s[..n][n - 1] == t[n - 1];
      AttachmentsSamePrefix(market, st, s, t, n - 1);
    }
  }

  lemma {:induction false} AttachmentsConcat(market: string, st: State, a: seq<Attachment>, b: seq<Attachment>, k: nat)
    requires k <= |b|
    ensures var r := Attachments(market, st, a, |a|);
      Attachments(market, st, a + b, |a| + k)
        == if r.failure.Some? then r else Attachments(market, r.state, b, k)
  {
    if k == 0 {
      assert (a + b)[..|a|] == a[..|a|];
      AttachmentsSamePrefix(market, st, a + b, a, |a|);
    } else {
      AttachmentsConcat(market, st, a, b, k - 1);
      assert (a + b)[|a| + k - 1] == b[k - 1];
      var r := Attachments(market, st, a, |a|);
      if r.failure.Some? {
        assert Attachments(market, st, a + b, |a| + k - 1).failure.Some?;
      }
    }
  }

  /** Walking the mails one by one is walking all their attachments in a row. */
  lemma {:induction false} MailsAsAttachments(market: string, st: State, mails: seq<Mail>, n: nat)
    requires n <= |mails|
    ensures var all := Flatten(mails[..n]);
      Mails(market, st, mails, n) == Attachments(market, st, all, |all|)
  {
    if n > 0 {
      MailsAsAttachments(market, st, mails, n - 1);
      assert mails[..n][..n - 1] == mails[..n - 1];
      var a, b := Flatten(mails[..n - 1]), mails[n - 1].attachments;
      assert Flatten(mails[..n]) == a + b;
      AttachmentsConcat(market, st, a, b, |b|);
    }
  }

  /** A market whose folder is found and whose batches all return sends
      exactly one report, the list of its last CSV attachment or, with no CSV
      at all, the report carried over from the market before; its files are
      saved under its own name. */
  lemma MarketEffect(st: State, m: Market)
    requires FindFolder(FolderNameFor(m.name), m.folders).Some?
    requires MarketStep(st, m).failure.None?
    ensures var all := Flatten(m.mails);
      && LastCsvReport(st.report, all).Some?
      && MarketStep(st, m).state.reports == st.reports + [LastCsvReport(st.report, all).value]
      && MarketStep(st, m).state.saved == st.saved + CsvPaths(m.name, all)
  {
    var all := Flatten(m.mails);
    assert m.mails[..|m.mails|] == m.mails;
    MailsAsAttachments(m.name, st, m.mails, |m.mails|);
    assert all[..|all|] == all;
    AttachmentsEffect(m.name, st, all, |all|);
    AttachmentsKeepReports(m.name, st, all, |all|);
  }

  /** A list with no CSV name leaves the report as it was. */
  lemma {:induction false} NoCsvKeepsReport(prev: Option<seq<string>>, atts: seq<Attachment>)
    requires forall j :: 0 <= j < |atts| ==> !IsCsv(atts[j].name)
    ensures LastCsvReport(prev, atts) == prev
  {
    if |atts| > 0 {
      NoCsvKeepsReport(prev, atts[..|atts| - 1]);
    }
  }

  /** A market with no CSV attachment changes nothing but the reports sent:
      it sends the previous market's report again, or, when `report` was
      never bound, the run stops there. */
  lemma CarryOver(st: State, m: Market)
    requires FindFolder(FolderNameFor(m.name), m.folders).Some?
    requires forall j :: 0 <= j < |Flatten(m.mails)| ==> !IsCsv(Flatten(m.mails)[j].name)
    ensures st.report.Some? ==> MarketStep(st, m) == Run(None, st.(reports := st.reports + [st.report.value]))
    ensures st.report.None? ==> MarketStep(st, m) == Run(Some(ReportUnbound), st)
  {
    var all := Flatten(m.mails);
    assert m.mails[..|m.mails|] == m.mails;
    MailsAsAttachments(m.name, st, m.mails, |m.mails|);
    NoCsvAttachments(m.name, st, all, |all|);
  }

  lemma {:induction false} NoCsvAttachments(market: string, st: State, atts: seq<Attachment>, n: nat)
    requires n <= |atts|
    requires forall j :: 0 <= j < |atts| ==> !IsCsv(atts[j].name)
    ensures Attachments(market, st, atts, n) == Run(None, st)
  {
    if n > 0 {
      NoCsvAttachments(market, st, atts, n - 1);
    }
  }

  /** If the first market has its folder but no CSV attachment, `report` is
      read unbound and no report is ever sent. */
  lemma FirstMarketWithoutCsv(markets: seq<Market>)
    requires |markets| > 0
    requires FindFolder(FolderNameFor(markets[0].name), markets[0].folders).Some?
    requires forall j :: 0 <= j < |Flatten(markets[0].mails)| ==> !IsCsv(Flatten(markets[0].mails)[j].name)
    ensures Markets(Start, markets, |markets|) == Run(Some(ReportUnbound), Start)
  {
    CarryOver(Start, markets[0]);
    MarketsStayFailed(Start, markets, 1, |markets|);
  }

  /** A run that gets through every market sends exactly one report per market. */
  lemma {:induction false} OneReportPerMarket(st: State, markets: seq<Market>, n: nat)
    requires n <= |markets|
    requires Markets(st, markets, n).failure.None?
    ensures |Markets(st, markets, n).state.reports| == |st.reports| + n
  {
    if n > 0 {
      var r := Markets(st, markets, n - 1);
      assert r.failure.None?;
      OneReportPerMarket(st, markets, n - 1);
      var m := markets[n - 1];
      MarketEffect(r.state, m);
    }
  }

  /** The reports of the first markets are never changed by later ones. */
  lemma {:induction false} ReportsOnlyGrow(st: State, markets: seq<Market>, i: nat, n: nat)
    requires i <= n <= |markets|
    requires Markets(st, markets, n).failure.None?
    ensures Markets(st, markets, i).failure.None?
    ensures Markets(st, markets, i).state.reports <= Markets(st, markets, n).state.reports
    decreases n
  {
    if n > i {
      var r := Markets(st, markets, n - 1);
      assert r.failure.None?;
      ReportsOnlyGrow(st, markets, i, n - 1);
      MarketEffect(r.state, markets[n - 1]);
    }
  }
}
