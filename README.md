# LogicMonitor / Lansweeper device ingestion, modelled in Dafny

This project models the ingestion scripts of an integration between an asset
manager (Lansweeper) and a monitoring platform (LogicMonitor). The mail side
(`main.py`) walks a list of markets. For each market it:

- finds the mail folder named `<market>Assets`;
- picks out the e-mail attachments whose name contains `.csv`;
- saves each one under `./Downloads/` and hands it to `addDevices`.

`addDevices` (`addDevices.py`) reads the CSV row by row. For each row it
builds a request signed with the LMv1 scheme and posts it. It keeps the
display names of the rows the platform answered with status 200.
`printReport` turns the last list returned into a "Recently Added Devices"
table, and that table is sent once per market.

The model is nine modules, one per file:

- `common.dfy`: bytes, `Option`, `Result`.
- `utf8.dfy`: UTF-8 encoding of strings, as `str.encode('utf-8')` does it, with a decoder that inverts it.
- `hex.dfy`: lower-case hex text, as `hexdigest()` writes it.
- `base64.dfy`: base64 as in section 4 of RFC 4648, as `base64.b64encode` writes it.
- `decimal.dfy`: `str()` of a non-negative integer.
- `lmv1.dfy`: the signed message, the signature, the `Authorization` value, the URL, the headers and the whole request for one row.
- `ingest.dfy`: the `addDevices` loop (class-free; it updates local variables only).
- `report.dfy`: `printReport`, with the table object as a class whose `add_row` appends a row.
- `mailbox.dfy`: `get_email_folder` and the market / mail / attachment loops of `main`.

Every function that specifies a loop is paired with an independent
characterisation, and all-inputs lemmas connect the two:

- `Ingest.Accepted` is a front-to-back filter beside the loop's back-recursive state.
- `Mailbox.FirstNamed` is a first-index function beside the folder search.
- `Mailbox.OccursAt` is an index-based occurrence test beside the substring test.
- `Mailbox.LastCsvReport` and `Mailbox.CsvPaths` describe what the attachment walk leaves behind.

Each encoder has a decoder, and a round-trip lemma connects the two.

Where a reader might expect otherwise, the code does the following, and so does the model:

- A row missing one of the five columns the loop reads raises `KeyError`, and the whole batch ends. The row is not skipped. All five columns are required, not only `AssetName` and `IPAddress`.
- A failing `requests.post` (no response) raises as well and ends the batch. It is not recorded per row.
- The body posted is the fixed text `{"key": "value", "key1": "value2" }` for every row. It is not the row serialised.
- `location` is the literal list `["Location"]`. The `Location` column is never read.
- The report loop runs `x = 1 .. count - 1`, so the first device is never shown. A list of `n > 0` names gives `n - 1` rows, while the total line still says `n`.
- No check rejects an empty access key. The HMAC is simply applied to whatever key bytes there are.

## Model

| member | source | states |
|---|---|---|
| Utf8.EncodeChar | addDevices.py:78-79 | the UTF-8 form of one character is 1 to 4 bytes; it is one byte exactly for code points below 0x80, and that byte is the code point; every later byte is a continuation byte |
| Utf8.DecodeEncode | addDevices.py:78-81 | decoding the UTF-8 bytes of any string gives the string back, so `.encode('utf-8')` loses nothing |
| Utf8.EncodeAscii | addDevices.py:81 | an ASCII string encodes byte for byte: same length, byte i is the code of character i |
| Hex.Encode | addDevices.py:77-80 | `hexdigest()` writes two characters per byte |
| Hex.EncodeDigits | addDevices.py:77-80 | every character of the hex text is a lower-case hex digit, hence ASCII |
| Hex.DecodeEncode | addDevices.py:77-80 | the hex text decodes back to the digest bytes |
| Base64.EncodeLength | addDevices.py:81 | every started group of three bytes takes four characters |
| Base64.EncodeShape | addDevices.py:81 | an encoding is alphabet characters followed by exactly the padding RFC 4648 prescribes: "==" after one final byte, "=" after two, none otherwise |
| Base64.DecodeEncode | addDevices.py:81 | decoding the encoding of any byte string gives the bytes back |
| Decimal.ShowDigits | addDevices.py:71 | `str(n)` is digits only, with no leading zero unless n is 0 |
| Decimal.ParseShow | addDevices.py:71 | `str(n)` reads back as n |
| Lmv1.EpochFacts | addDevices.py:71 | the epoch text reads back as the millisecond clock reading and holds no colon |
| Lmv1.EpochOfRequestVars | addDevices.py:74 | the signed message is verb, epoch, body and path with no delimiters, and its epoch can be recovered from it |
| Lmv1.HexDigestBytes | addDevices.py:77-81 | the hex digest of a 32-byte HMAC is 64 characters and 64 UTF-8 bytes |
| Lmv1.Base64Of64 | addDevices.py:81 | 64 bytes encode to 88 characters: 86 alphabet characters, then "==" |
| Lmv1.SignatureShape | addDevices.py:77-81 | every signature is 88 characters ending in "==", alphabet characters before that |
| Lmv1.SignatureDecodes | addDevices.py:77-81 | base64-decoding the signature and then hex-decoding it gives exactly the HMAC of the UTF-8 key and message |
| Lmv1.SignatureIsNotRawBase64 | addDevices.py:77-81 | the signature is never the base64 of the raw digest (that has 44 characters, not 88) |
| Lmv1.AuthorizationRoundTrip | addDevices.py:84 | `"LMv1 " + id + ":" + signature + ":" + epoch` splits back into its three parts whenever signature and epoch hold no colon, whatever the id |
| Lmv1.CompanyOfUrl | addDevices.py:63-68 | the URL is the fixed prefix, the company, the fixed host, `/device/devices` and the empty query, and the company can be read back from it |
| Lmv1.BuildRequestFacts | addDevices.py:61-88 | the request for a row carries the company's URL, the fixed body, and exactly three headers: Content-Type `application/json`, Authorization and X-Version `3`. The Authorization value parses into the access id, an 88-character signature and an epoch. That epoch reads back as this row's clock reading, and the signature decodes to the HMAC of `"POST" + epoch + body + "/device/devices"`, the same epoch |
| Ingest.FirstMissing | addDevices.py:54-59 | the index of the first required column a row lacks, or none exactly when it has them all |
| Ingest.ReadRowFacts | addDevices.py:54-59 | a row is read exactly when it has all five columns; the device then has the row's AssetName and the location `["Location"]`; otherwise the KeyError names the first absent column in reading order |
| Ingest.AddDevice | addDevices.py:54-98 | one pass of the loop body is one `Attempt`: the row is posted at most once, and when it is, its request (the one built from this row's clock reading) is appended to the log of POSTs; `deviceCount` grows exactly as `deviceList` does |
| Ingest.AddDevices | addDevices.py:40-100 | the loop's result and number of POSTs are those of `Ingest`; the requests posted are, in order, those of rows 0, 1, … each built from its own clock reading (`Requests`); `deviceCount == len(deviceList)` is a loop invariant |
| Ingest.StaysRaised | addDevices.py:53-88 | once an exception escapes, no later row changes the outcome or the number of posts |
| Ingest.AcceptedConcat | addDevices.py:94-96 | the names kept for a concatenation of rows are those of the first part followed by those of the second: file order |
| Ingest.AcceptedMembers | addDevices.py:94-96 | a name is kept exactly when some row with that AssetName was answered with 200 |
| Ingest.AttemptFacts | addDevices.py:54-96 | one row either keeps the batch running, posting the row and adding its name if it got 200, or raises the row's KeyError, or raises after the POST when no response came |
| Ingest.FirstBad | addDevices.py:53-88 | the first row that raises, or the number of rows |
| Ingest.PrefixFacts | addDevices.py:53-100 | after n rows: if none raised, every row was posted and the kept names are `Accepted` of those rows; otherwise the first bad row decides both the exception and the number of POSTs |
| Ingest.IngestReturned | addDevices.py:53-100 | addDevices returns if and only if every row has the five columns and every POST gets a status; then every row was posted and the list is exactly the AssetNames of the 200-rows, in order |
| Ingest.IngestRaised | addDevices.py:53-100 | on an exception, the first bad row decides it, and the rows before it (and that row itself when it had all five columns) were posted |
| Ingest.MissingHeaderColumn | addDevices.py:49-59 | when the header lacks a read column, the first row raises KeyError for the first such column and nothing is posted |
| Ingest.OnlyReadColumnsMatter | addDevices.py:54-59 | any other column, `Location` among them, can be changed, added or removed without changing the batch |
| Ingest.StatusCodesDoNotStopLaterRows | addDevices.py:94-98 | feeds differing only in which status codes come back post the same rows, and both run to the end or neither does: a non-200 row does not stop later rows |
| Report.Table.constructor | addDevices.py:120 | a new table has no title, no columns and no rows |
| Report.Table.AddRow | addDevices.py:127 | `add_row` appends exactly one row and changes nothing else |
| Report.PrintReport | addDevices.py:103-137 | a fresh table titled "Recently Added Devices" with columns `" # "` and `"Device Name"`, whose rows are `ReportRows`, and the total line that is printed, if any, is `TotalLine` |
| Report.LoopRowsContents | addDevices.py:131-132 | after the loop has run up to n, there are n - 1 rows, and row k is `[str(k + 1), name k + 1]` with a divider |
| Report.ReportRowsContents | addDevices.py:117-132 | a list of n > 0 names gives n - 1 rows, row k being `[str(k + 1), deviceList[k + 1]]` with a divider |
| Report.ReportNames | addDevices.py:131-132 | the names shown are exactly the list without its first element, in order |
| Report.FirstDeviceIgnored | addDevices.py:131-132 | two lists that differ only in their first name give the same table |
| Report.SingleDevice | addDevices.py:126-136 | one device gives a table with no rows and the total line "New Device Total: 1" |
| Report.TotalLineFacts | addDevices.py:126-136 | no total is printed exactly for the empty list, whose table is the placeholder row `[" ", "No new devices added today"]` alone; otherwise the line is "New Device Total: " followed by a number that reads back as the length of the list |
| Mailbox.FirstNamed | main.py:64-69 | the index of the first folder with the name, or the number of folders |
| Mailbox.FindFolderFirstMatch | main.py:64-71 | the search gives the id of the first folder, in list order, whose display name equals the name; later matches are ignored; it gives nothing (an unbound `folder_id`) exactly when no folder has the name |
| Mailbox.GetEmailFolder | main.py:64-71 | the loop with `break` computes `FindFolder` |
| Mailbox.ContainsAt | main.py:181 | `".csv" in name` holds exactly when ".csv" occurs at some index of the name |
| Mailbox.CsvTestExamples | main.py:181 | the test is a case-sensitive substring test, not a suffix test: "a.csv.b" passes, "a.CSV" does not |
| Mailbox.ProcessAttachment | main.py:173-184 | one attachment: skipped unless its name contains ".csv"; otherwise saved to `./Downloads/<market>-<name>` and ingested, its list replacing `report`, or its exception ending the run |
| Mailbox.ProcessAttachments | main.py:173-184 | the attachment loop computes `Attachments` |
| Mailbox.ProcessMails | main.py:170-184 | the mail loop computes `Mails` |
| Mailbox.ProcessMarket | main.py:154-190 | one market is one `MarketStep`; when it completes, one table joins those sent, with exactly the rows `printReport` makes of the report just sent, and the earlier tables stay as they were |
| Mailbox.ProcessMarkets | main.py:151-190 | the market loop computes `Markets` from an unbound `report`; the table sent for market k has exactly the rows `printReport` makes of the k-th report |
| Mailbox.AttachmentsStayFailed | main.py:173-184 | an exception in one attachment ends the walk of the attachments |
| Mailbox.MailsStayFailed | main.py:170-184 | an exception in one mail ends the walk of the mails |
| Mailbox.MarketsStayFailed | main.py:151-190 | an exception in one market ends the run |
| Mailbox.AttachmentsKeepReports | main.py:173-184 | attachments never change the reports already sent |
| Mailbox.MailsKeepReports | main.py:170-184 | mails never change the reports already sent |
| Mailbox.AttachmentsEffect | main.py:181-184 | when no batch raises, `report` ends as the list of the last CSV attachment (or as it was, with none), and the files saved are exactly the CSV attachments, in order, each at `./Downloads/<market>-<name>` |
| Mailbox.AttachmentsConcat | main.py:170-184 | walking two lists of attachments in a row is walking the first, then the second from where it left off |
| Mailbox.MailsAsAttachments | main.py:170-184 | walking the mails one by one is walking all their attachments in a row |
| Mailbox.MarketEffect | main.py:154-190 | a market that completes sends exactly one report: the list of its last CSV attachment, or the previous market's list when it has none; its files are saved under its own name |
| Mailbox.NoCsvKeepsReport | main.py:181-184 | attachments without ".csv" in their name leave `report` as it was |
| Mailbox.NoCsvAttachments | main.py:181-184 | attachments without ".csv" in their name change nothing at all |
| Mailbox.CarryOver | main.py:184-187 | a market without CSV attachments sends the previous market's report again, or, when `report` was never bound, stops the run with nothing sent |
| Mailbox.FirstMarketWithoutCsv | main.py:151-187 | if the first market has its folder but no CSV attachment, the run stops on an unbound `report` and no report is sent |
| Mailbox.OneReportPerMarket | main.py:151-190 | a run that gets through every market sends exactly one report per market |
| Mailbox.ReportsOnlyGrow | main.py:151-190 | later markets never change the reports of earlier ones: the reports sent after i markets are a prefix of those sent after n |

## Left out

- HTTP traffic: `requests.post`, `requests.get`, proxies, `verify=False` and the Graph API calls. Each POST's result is an input, either a status code or "no response", which stands for any exception out of `requests`. Each listing (folders, mails, attachments) is input data too.
- MSAL token acquisition (`get_access_token`), the token, the token expiry and the final print. These are network and library calls.
- HMAC-SHA256 internals. The HMAC is a function parameter from key bytes and message bytes to a 32-byte digest.
- The clock. Each row gets a millisecond reading as input. The float arithmetic and truncation of `int(time.time() * 1000)` are not modelled. The date cutoff and the `$filter` query of `main` are not modelled either, since the mails given are taken to be the ones the query returns.
- File I/O and CSV tokenising. A saved attachment is given directly as the rows `csv.DictReader` yields, each a map from column name to text. A row shorter than the header (a `None` cell) and the `utf-8-sig` BOM handling are not modelled. The model records the path written, but not the bytes.
- PrettyTable rendering, `_max_width` and `_min_width`, and `print(myTable)`. The table is a title, the column names and the list of rows.
- `send_email_report`: the JSON payload, the recipient and the status-202 check. Sending is modelled as appending the table's rows to the list of tables sent.
- The console output of `addDevices` (URL, status, body).
- `KeyError`s from a Graph response that lacks `value`, `displayName`, `id` or `name`. The model's folder, mail and attachment records always have these fields.
- The headers dictionary is modelled as its list of (name, value) pairs in insertion order.
- The three nested loops of `main` are three methods, one per level (`ProcessMarkets`, `ProcessMails`, `ProcessAttachments`), plus `ProcessMarket` and `ProcessAttachment` for the bodies of the outermost and innermost loops. Likewise the body of the `addDevices` loop is the method `AddDevice`. Each is proved against its own fold or step.
