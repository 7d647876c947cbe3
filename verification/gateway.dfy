/**
 * Values that cross the boundaries of the Lambda services: the article
 * record the crawler, the transformer and the orchestrator exchange as
 * JSON, and the HTTP response every handler returns.
 */
module Gateway {

  /** `NewsArticle`, declared identically in crawling, convert-to-markdown and auto-push. */
  datatype NewsArticle = NewsArticle(title: string, content: string, date: string)

  /** `events.APIGatewayProxyResponse`: status code, body and headers. */
  datatype Response = Response(statusCode: int, body: string, headers: map<string, string>)

  const StatusOK := 200
  const StatusBadRequest := 400
  const StatusInternalServerError := 500

  /** A response without headers, the form most handlers build. */
  function Reply(statusCode: int, body: string): Response
  {
    Response(statusCode, body, map[])
  }
}
