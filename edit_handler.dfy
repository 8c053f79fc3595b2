/**
 * The POST /edit/:Id handler (editNews). The path parse, the body decode and
 * the outcomes of the two Exec calls are inputs; the handler's answer and the
 * stored-procedure calls it issues, in order, are outputs.
 */
module EditHandler {
  import opened Wrappers
  import opened Api
  import opened CategoryIds

  /**
   * idParam: strconv.Atoi of the path parameter (None when it fails).
   * payload: ShouldBindJSON of the body (None when it fails).
   * updateNewsOk, updateCategoryOk: whether each Exec returned a nil error.
   */
  method EditNews(idParam: Option<int>, payload: Option<News>, updateNewsOk: bool, updateCategoryOk: bool)
    returns (response: Response, calls: seq<DbCall>)
    // An id that does not parse: 400 and no database call.
    ensures idParam.None? ==>
      response == Response(StatusBadRequest, ErrorBody("Invalid Id")) && calls == []
    // A body that does not decode: 400 and no database call.
    ensures idParam.Some? && payload.None? ==>
      response == Response(StatusBadRequest, ErrorBody("Invalid request payload")) && calls == []
    // Otherwise UpdateNews is issued first, with the path id (not the body's Id).
    ensures idParam.Some? && payload.Some? ==>
      |calls| >= 1 && calls[0] == UpdateNews(idParam.value, payload.value.title, payload.value.content)
    // UpdateNews failed: 500, and UpdateCategory is never issued.
    ensures idParam.Some? && payload.Some? && !updateNewsOk ==>
      response == Response(StatusInternalServerError, ErrorBody("Failed to update news")) && |calls| == 1
    // UpdateNews succeeded: UpdateCategory with the same id and the serialised list,
    // and 200 {"success": true} whatever UpdateCategory answered.
    ensures idParam.Some? && payload.Some? && updateNewsOk ==>
      && response == Response(StatusOK, SuccessBody)
      && |calls| == 2
      && calls[1] == UpdateCategory(idParam.value, Serialized(payload.value.categories))
      && ParseCategoryIds(calls[1].categoryIds) == Some(payload.value.categories)
    ensures response.status == StatusOK <==> idParam.Some? && payload.Some? && updateNewsOk
    ensures |calls| <= 2
  {
    if idParam.None? {
      return Response(StatusBadRequest, ErrorBody("Invalid Id")), [];
    }
    var id := idParam.value;

    if payload.None? {
      return Response(StatusBadRequest, ErrorBody("Invalid request payload")), [];
    }
    var news := payload.value;

    calls := [UpdateNews(id, news.title, news.content)];
    if !updateNewsOk {
      return Response(StatusInternalServerError, ErrorBody("Failed to update news")), calls;
    }

    var result := SerializeCategories(news.categories);

    // The error of this call is assigned and never read.
    calls := calls + [UpdateCategory(id, result)];

    response := Response(StatusOK, SuccessBody);
  }
}
