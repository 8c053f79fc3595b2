/**
 * The values the two handlers exchange with their callers and with the
 * database: the News record, the stored-procedure calls issued, and the
 * JSON response as a status and a body kind.
 */
module Api {

  /** A news article (the News struct): the JSON body of an edit, and each element of a list. */
  datatype News = News(id: int, title: string, content: string, categories: seq<int>)

  /** One stored-procedure call, with its arguments. */
  datatype DbCall =
    | UpdateNews(id: int, title: string, content: string)  // CALL content.UpdateNews(?, ?, ?)
    | UpdateCategory(id: int, categoryIds: string)          // CALL content.UpdateCategory(?, ?)
    | GetNews                                               // CALL content.GetNews()
    | GetCategories(newsId: int)                            // CALL content.GetCategories(?)

  /** The JSON object of a response: {"error": ...}, {"success": true} or {"success": true, "News": [...]}. */
  datatype Body =
    | ErrorBody(message: string)
    | SuccessBody
    | NewsListBody(news: seq<News>)

  datatype Response = Response(status: int, body: Body)

  const StatusOK := 200
  const StatusBadRequest := 400
  const StatusInternalServerError := 500
}
