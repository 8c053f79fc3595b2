# News service handlers, modelled in Dafny

The service answers two HTTP routes over a MySQL database that it reaches only
through stored procedures:

- `POST /edit/:Id` (`editNews`) updates one article. It calls
  `content.UpdateNews(id, title, content)`. Then it calls
  `content.UpdateCategory(id, ids)`, where `ids` is the article's category ids
  rendered in decimal and joined with `,`.
- `GET /list` (`getNewsList`) calls `content.GetNews()`. For every row it then
  calls `content.GetCategories(id)` and attaches the ids to the article.

The model takes the handlers as they are written and replaces the framework and
the database by inputs:

- the result of parsing the path id (`Option<int>`);
- the result of decoding the JSON body (`Option<News>`);
- whether each `Exec` call succeeded;
- for the list, whether the primary query succeeded, and per row what `StructScan`
  left in the struct and what its category query answered (failure, or one `Scan`
  result per value).

Each handler returns its response as a status and a body kind, together with the
stored-procedure calls it issued, in order.

Files, one module each:

- `wrappers.dfy` (`Wrappers`): the `Option` type.
- `decimal.dfy` (`Decimal`): the decimal rendering of an `int` as `fmt.Sprint` prints it, the parse that inverts it, and the proofs that the two are inverse.
- `category_ids.dfy` (`CategoryIds`): `strings.Join`, `strings.Split` and the serialiser loop of the edit handler, with its round trip.
- `api.dfy` (`Api`): `News`, the stored-procedure calls, responses and status codes.
- `edit_handler.dfy` (`EditHandler`): `editNews`.
- `list_handler.dfy` (`ListHandler`): `getNewsList`, with its assembly loops and the specification of the list it builds.

A row whose category query fails is dropped from the list: the `continue` at
main.go:133 comes before the `append` at main.go:147
(`ListHandler.FailedCategoryQueryDropsRow`). The error of `UpdateCategory` is
discarded, so the answer is 200 whatever that call returns (main.go:108-110,
`EditHandler.EditNews`).

## Model

| member | source | states |
|---|---|---|
| Decimal.NatToDecimal | main.go:104 | the rendering of a non-negative value is a non-empty digit string with no leading zero; it starts with '0' exactly when the value is 0 |
| Decimal.IntToDecimal | main.go:104 | the rendering is canonical: a '-' exactly for negative values and only in front, then digits with no leading zero (and never "-0"); so it never contains ',' |
| Decimal.IntToDecimalRoundTrip | main.go:104 | parsing the decimal rendering of any integer gives that integer back |
| Decimal.CanonicalIsRendering | main.go:104 | every canonical decimal string (no leading zero, no "-0") is the rendering of the integer it parses to, which, with the canonical output stated by IntToDecimal and IntToDecimalRoundTrip, makes rendering a bijection between integers and canonical strings |
| CategoryIds.SerializeCategories | main.go:102-106 | the loop fills `stringNumbers[i]` with the rendering of `Categories[i]` and joins them with ","; the result is "" exactly for an empty list, and it parses back to the list |
| CategoryIds.SplitJoin | main.go:106 | splitting a join on its separator gives back the parts, when there is at least one part and none contains the separator |
| CategoryIds.SerializedIsEmptyIff | main.go:102-106 | an empty or nil category list, and only such a list, is serialised as the empty string |
| CategoryIds.SerializedPieces | main.go:102-106 | for n >= 1 ids the string holds exactly n - 1 commas, and its k-th comma-separated piece is the decimal rendering of the k-th id, so order and duplicates are kept |
| CategoryIds.SerializedRoundTrip | main.go:102-106 | splitting the serialised string on ',' and parsing every piece in decimal gives back the original list; "" is read as the empty list |
| CategoryIds.SerializedInjective | main.go:102-106 | two category lists with the same serialisation are equal |
| EditHandler.EditNews | main.go:80-111 | an unparsable id gives 400 "Invalid Id" and an undecodable body gives 400 "Invalid request payload", both with no database call; otherwise UpdateNews is called first with the path id; if it fails the answer is 500 and UpdateCategory is never called; if it succeeds, UpdateCategory is called with the same id and the serialised list, and the answer is 200 success whatever UpdateCategory returns |
| ListHandler.GetNewsList | main.go:113-151 | if GetNews fails the answer is 500 and only that call was made; otherwise GetCategories is called once per row, in row order, with the Id in the struct, and the answer is 200 with the list the rows assemble to |
| ListHandler.CategoryCallsPerRow | main.go:124-130 | GetCategories is issued once per row, in row order, with the Id held in that row's struct |
| ListHandler.ScannedIdsMembers | main.go:138-146 | an id is in an article's Categories exactly when some category value scanned to it; values whose Scan fails are skipped |
| ListHandler.ScannedIdsAllOk | main.go:138-146 | when every Scan succeeds, Categories holds all values in query order |
| ListHandler.ScannedIdsAppend | main.go:139-146 | appending value rows appends their scanned ids in the same order |
| ListHandler.AssembleAppend | main.go:124-148 | the list built from two runs of rows is the concatenation of the lists built from each run |
| ListHandler.AssembleSelectsQueriedRows | main.go:123-148 | the list is an order-preserving subsequence of the rows: it holds exactly the rows whose category query succeeded, in row order, each with its scanned ids, and a failed StructScan does not drop a row |
| ListHandler.AssembleAllQueried | main.go:123-148 | when every category query succeeds, the k-th article is built from the k-th row and nothing is dropped |
| ListHandler.AssembleSkipsFailedRow | main.go:130-134 | a row whose category query fails contributes nothing to the list |
| ListHandler.FailedCategoryQueryDropsRow | main.go:130-147 | when exactly one of n rows has a failing category query, the list has n - 1 articles, because that row is dropped and not listed with empty categories |

## Left out

- gin routing, `ShouldBindJSON` and `c.JSON`: the body decode is an `Option<News>` input, and the response is a status with a body kind (error message, success, or success with the list).
- `strconv.Atoi` (sign handling and range): the id parse is an `Option<int>` input.
- Go's 64-bit `int`: ids are unbounded integers. The rendering has no overflow, and the decoders reject out-of-range values before the handlers see them.
- The parse used in the round trip (`Decimal.ParseInt`, `CategoryIds.ParseCategoryIds`) stands for the stored procedure's reading of the string. What `UpdateCategory` does with it is external and not modelled.
- The difference between a nil slice and an empty one: an empty list and empty categories are the empty sequence, so the JSON `null` versus `[]` distinction is not captured.
- What `StructScan` leaves in the struct after a failure is an input (`RowFields`), and the failure itself is a flag that the code only logs.
- `news_resp.Next()` and `categories.Next()` stopping early on a driver error: the rows are the sequence the cursor yields.
- Database connection setup, pool limits and `Ping` (main.go:49-78), `.env` loading and `os.Getenv` (main.go:25-30, 44-58), and server startup (main.go:32-47): I/O and configuration.
- Logging, `defer news_resp.Close()` and the `defer categories.Close()` inside the loop: resource management with no result to state.
- Concurrency between requests: each handler is modelled as one sequential run.
- What the stored procedures do to the database, and so any property linking an edit to a later list: the database is external.
