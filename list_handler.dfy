/**
 * The GET /list handler (getNewsList). The database is replaced by its
 * answers: the GetNews query either fails or yields rows, and each row
 * carries what StructScan left in the struct and what its GetCategories
 * query answered.
 */
module ListHandler {
  import opened Wrappers
  import opened Api

  /** The Id, Title and Content columns as StructScan left them in the struct (zero or partial on failure). */
  datatype RowFields = RowFields(id: int, title: string, content: string)

  /** The outcome of GetCategories for one row: failure, or one Scan result per value row. */
  datatype CategoryQuery = QueryFailed | QueryRows(values: seq<Option<int>>)

  /** One row of GetNews: scanOk is whether StructScan succeeded, which is only logged. */
  datatype Row = Row(fields: RowFields, scanOk: bool, categories: CategoryQuery)

  /** The ids whose Scan succeeded, in query order. */
  function ScannedIds(values: seq<Option<int>>): seq<int>
    decreases |values|
  {
    if |values| == 0 then []
    else
      var last := values[|values| - 1];
      ScannedIds(values[..|values| - 1]) + (if last.Some? then [last.value] else [])
  }

  /** The article built from a row whose category query succeeded. */
  function ArticleOf(row: Row): News
    requires row.categories.QueryRows?
  {
    News(row.fields.id, row.fields.title, row.fields.content, ScannedIds(row.categories.values))
  }

  /** What one row contributes to the list: nothing when its category query failed. */
  function Emitted(row: Row): seq<News> {
    if row.categories.QueryFailed? then [] else [ArticleOf(row)]
  }

  /** The newsList built from rows, in row order. */
  function Assemble(rows: seq<Row>): seq<News>
    decreases |rows|
  {
    if |rows| == 0 then [] else Assemble(rows[..|rows| - 1]) + Emitted(rows[|rows| - 1])
  }

  /** One GetCategories call per row, with the Id the struct holds. */
  function CategoryCalls(rows: seq<Row>): seq<DbCall>
    decreases |rows|
  {
    if |rows| == 0 then [] else CategoryCalls(rows[..|rows| - 1]) + [GetCategories(rows[|rows| - 1].fields.id)]
  }

  /** One GetCategories call per row, in row order, with that row's Id. */
  lemma {:induction false} CategoryCallsPerRow(rows: seq<Row>)
    ensures |CategoryCalls(rows)| == |rows|
    ensures forall k :: 0 <= k < |rows| ==> CategoryCalls(rows)[k] == GetCategories(rows[k].fields.id)
    decreases |rows|
  {
    if |rows| > 0 {
      CategoryCallsPerRow(rows[..|rows| - 1]);
    }
  }

  /**
   * newsQuery: the rows GetNews yields, or None when the query fails.
   */
  method GetNewsList(newsQuery: Option<seq<Row>>) returns (response: Response, calls: seq<DbCall>)
    ensures newsQuery.None? ==>
      response == Response(StatusInternalServerError, ErrorBody("Failed to get news list")) && calls == [GetNews]
    ensures newsQuery.Some? ==>
      && response == Response(StatusOK, NewsListBody(Assemble(newsQuery.value)))
      && calls == [GetNews] + CategoryCalls(newsQuery.value)
  {
    calls := [GetNews];
    if newsQuery.None? {
      return Response(StatusInternalServerError, ErrorBody("Failed to get news list")), calls;
    }
    var rows := newsQuery.value;

    var newsList: seq<News> := [];
    var i := 0;
    while i < |rows|
      invariant 0 <= i <= |rows|
      invariant newsList == Assemble(rows[..i])
      invariant calls == [GetNews] + CategoryCalls(rows[..i])
    {
      var row := rows[i];
      assert rows[..i + 1][..i] == rows[..i];
      // A failed StructScan is only logged: the row goes on.
      var news := News(row.fields.id, row.fields.title, row.fields.content, []);
      calls := calls + [GetCategories(news.id)];
      if row.categories.QueryFailed? {
        i := i + 1;
        continue;
      }

      var values := row.categories.values;
      var j := 0;
      while j < |values|
        invariant 0 <= j <= |values|
        invariant news == News(row.fields.id, row.fields.title, row.fields.content, ScannedIds(values[..j]))
      {
        assert values[..j + 1][..j] == values[..j];
        if values[j].None? {
          j := j + 1;
          continue;
        }
        news := news.(categories := news.categories + [values[j].value]);
        j := j + 1;
      }
      assert values[..j] == values;
      newsList := newsList + [news];
      i := i + 1;
    }
    assert rows[..i] == rows;
    response := Response(StatusOK, NewsListBody(newsList));
  }

  lemma {:induction false} ScannedIdsAppend(a: seq<Option<int>>, b: seq<Option<int>>)
    ensures ScannedIds(a + b) == ScannedIds(a) + ScannedIds(b)
    decreases |b|
  {
    if |b| > 0 {
      var b' := b[..|b| - 1];
      assert (a + b)[..|a + b| - 1] == a + b';
      ScannedIdsAppend(a, b');
    } else {
      assert a + b == a;
    }
  }

  /** An id is in the article's Categories exactly when some value row scanned to it. */
  lemma {:induction false} ScannedIdsMembers(values: seq<Option<int>>, x: int)
    ensures x in ScannedIds(values) <==> Some(x) in values
    decreases |values|
  {
    if |values| > 0 {
      var init := values[..|values| - 1];
      ScannedIdsMembers(init, x);
      assert values == init + [values[|values| - 1]];
    }
  }

  /** When every Scan succeeds, Categories holds every value, in query order. */
  lemma {:induction false} ScannedIdsAllOk(values: seq<Option<int>>)
    requires forall k :: 0 <= k < |values| ==> values[k].Some?
    ensures |ScannedIds(values)| == |values|
    ensures forall k :: 0 <= k < |values| ==> ScannedIds(values)[k] == values[k].value
    decreases |values|
  {
    if |values| > 0 {
      ScannedIdsAllOk(values[..|values| - 1]);
    }
  }

  lemma {:induction false} AssembleAppend(a: seq<Row>, b: seq<Row>)
    ensures Assemble(a + b) == Assemble(a) + Assemble(b)
    decreases |b|
  {
    if |b| > 0 {
      var b' := b[..|b| - 1];
      assert (a + b)[..|a + b| - 1] == a + b';
      AssembleAppend(a, b');
    } else {
      assert a + b == a;
    }
  }

  /**
   * The list is an order-preserving subsequence of the rows: idx lists, in
   * increasing order, exactly the rows whose category query succeeded, and the
   * k-th article is built from row idx[k], whether or not its StructScan failed.
   */
  lemma {:induction false} AssembleSelectsQueriedRows(rows: seq<Row>) returns (idx: seq<nat>)
    ensures |idx| == |Assemble(rows)|
    ensures forall k :: 0 <= k < |idx| ==> idx[k] < |rows| && rows[idx[k]].categories.QueryRows?
    ensures forall k, l :: 0 <= k < l < |idx| ==> idx[k] < idx[l]
    ensures forall k :: 0 <= k < |idx| ==> Assemble(rows)[k] == ArticleOf(rows[idx[k]])
    ensures forall j :: 0 <= j < |rows| && rows[j].categories.QueryRows? ==> j in idx
    decreases |rows|
  {
    if |rows| == 0 {
      idx := [];
    } else {
      var n := |rows| - 1;
      var init := rows[..n];
      var prev := AssembleSelectsQueriedRows(init);
      var list := Assemble(rows);
      assert list == Assemble(init) + Emitted(rows[n]);
      forall k | 0 <= k < |prev|
        ensures prev[k] < n && rows[prev[k]] == init[prev[k]]
        ensures list[k] == Assemble(init)[k]
      {
      }
      if rows[n].categories.QueryRows? {
        idx := prev + [n];
        assert list[|prev|] == ArticleOf(rows[n]);
      } else {
        idx := prev;
      }
      forall j | 0 <= j < n && rows[j].categories.QueryRows?
        ensures j in prev
      {
        assert init[j] == rows[j];
      }
    }
  }

  /** When every category query succeeds, every row is emitted, in order. */
  lemma {:induction false} AssembleAllQueried(rows: seq<Row>)
    requires forall k :: 0 <= k < |rows| ==> rows[k].categories.QueryRows?
    ensures |Assemble(rows)| == |rows|
    ensures forall k :: 0 <= k < |rows| ==> Assemble(rows)[k] == ArticleOf(rows[k])
    decreases |rows|
  {
    if |rows| > 0 {
      AssembleAllQueried(rows[..|rows| - 1]);
    }
  }

  lemma AssembleSkipsFailedRow(a: seq<Row>, r: Row, b: seq<Row>)
    requires r.categories.QueryFailed?
    ensures Assemble(a + [r] + b) == Assemble(a) + Assemble(b)
  {
    assert (a + [r])[..|a|] == a;
    assert Assemble(a + [r]) == Assemble(a);
    AssembleAppend(a + [r], b);
  }

  /**
   * A row whose category query fails is dropped, not emitted with empty
   * categories: with one failing row among n, the list has n - 1 articles.
   */
  lemma FailedCategoryQueryDropsRow(rows: seq<Row>, j: nat)
    requires j < |rows| && rows[j].categories.QueryFailed?
    requires forall k :: 0 <= k < |rows| && k != j ==> rows[k].categories.QueryRows?
    ensures Assemble(rows) == Assemble(rows[..j]) + Assemble(rows[j + 1..])
    ensures |Assemble(rows)| == |rows| - 1
  {
    var before, after := rows[..j], rows[j + 1..];
    assert rows == before + [rows[j]] + after;
    AssembleSkipsFailedRow(before, rows[j], after);
    assert forall k :: 0 <= k < |before| ==> before[k] == rows[k];
    AssembleAllQueried(before);
    assert forall k :: 0 <= k < |after| ==> after[k] == rows[j + 1 + k];
    AssembleAllQueried(after);
  }
}
