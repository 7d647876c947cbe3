/**
 * The upload-to-s3 service: it receives one rendered article, takes its
 * category (already suffixed with the article's index) from the
 * `x-category-sniij` header, decodes the body when the gateway marks it as
 * base64, refuses an empty body, and puts the bytes into the object store
 * under `news/{date}/{date}_{category}.md`.
 *
 * The object store's put is an oracle: `uploadError` is the error it
 * returns for this request, or `None` when the put succeeds.
 */
module StoreUpload {
  import opened Wrappers
  import opened Text
  import opened Gateway
  import Base64

  const CategoryHeader := "x-category-sniij"

  /** The part of `events.APIGatewayProxyRequest` the handler reads; a Go string body is its bytes. */
  datatype Request = Request(headers: map<string, string>, isBase64Encoded: bool, body: Bytes)

  /** One put into the object store. */
  datatype Put = Put(key: string, content: Bytes)

  /** `Fatal` is `log.Fatalf`, which ends the process; otherwise a response and the put it attempted. */
  datatype Outcome = Fatal(message: string) | Replied(response: Response, attempted: Option<Put>)

  /** The object key `news/{date}/{date}_{category}.md`. */
  function ObjectKey(date: string, category: string): (key: string)
    ensures HasPrefix(key, "news/" + date + "/")
    ensures HasSuffix(key, ".md")
  {
    var key := "news/" + date + "/" + date + "_" + category + ".md";
    assert key[..|"news/" + date + "/"|] == "news/" + date + "/";
    key
  }

  /** For one date, the key determines the category: no two categories share an object. */
  lemma ObjectKeyInjective(date: string, c1: string, c2: string)
    requires ObjectKey(date, c1) == ObjectKey(date, c2)
    ensures c1 == c2
  {
    var head := "news/" + date + "/" + date + "_";
    var k1, k2 := ObjectKey(date, c1), ObjectKey(date, c2);
    assert k1 == head + c1 + ".md" && k2 == head + c2 + ".md";
    assert |c1| == |c2|;
    assert c1 == k1[|head|..|head| + |c1|];
    assert c2 == k2[|head|..|head| + |c2|];
  }

  /** The bytes to store: the body itself, or its base64 decoding when the gateway says so. */
  function DecodedBody(req: Request): Option<Bytes>
  {
    if req.isBase64Encoded then Base64.Decode(req.body) else Some(req.body)
  }

  /** Successful upload reply, naming the object key. */
  function UploadedBody(key: string): string
  {
    "{\"message\": \"File uploaded successfully\", \"filename\": \"" + key + "\"}"
  }

  /** Reply to a failed put, carrying the store's error text. */
  function UploadFailedBody(e: string): string
  {
    "{\"error\": \"Failed to upload file: " + e + "\"}"
  }

  /** `LambdaHandler` of upload-to-s3, for one request on the day `today`. */
  function LambdaHandler(req: Request, today: string, uploadError: Option<string>): (out: Outcome)
    ensures out.Fatal? <==> CategoryHeader !in req.headers
    ensures out.Replied? ==>
      (out.attempted.Some? <==> DecodedBody(req).Some? && DecodedBody(req).value != [])
    ensures out.Replied? && out.attempted.None? ==> out.response.statusCode == StatusBadRequest
    ensures out.Replied? && out.attempted.Some? ==>
      && out.attempted.value == Put(ObjectKey(today, req.headers[CategoryHeader]), DecodedBody(req).value)
      && (out.response.statusCode == StatusOK <==> uploadError.None?)
      && (out.response.statusCode != StatusOK ==> out.response.statusCode == StatusInternalServerError)
    ensures out.Replied? && out.attempted.Some? && uploadError.None? ==>
      out.response == Reply(StatusOK, UploadedBody(out.attempted.value.key))
    ensures out.Replied? && out.attempted.Some? && uploadError.Some? ==>
      out.response == Reply(StatusInternalServerError, UploadFailedBody(uploadError.value))
  {
    if CategoryHeader !in req.headers then Fatal("failed to get x-category-sniij")
    else
      var category := req.headers[CategoryHeader];
      match DecodedBody(req)
      case None =>
        Replied(Reply(StatusBadRequest, "{\"error\": \"Invalid Base64 encoded request body\"}"), None)
      case Some(content) =>
        if |content| == 0 then
          Replied(Reply(StatusBadRequest, "{\"error\": \"Request body is empty\"}"), None)
        else
          var key := ObjectKey(today, category);
          match uploadError
          case Some(e) =>
            Replied(Reply(StatusInternalServerError, UploadFailedBody(e)), Some(Put(key, content)))
          case None =>
            Replied(Reply(StatusOK, UploadedBody(key)), Some(Put(key, content)))
  }

  /** A body that is not marked as base64 is stored byte for byte. */
  lemma PlainBodyStoredVerbatim(req: Request, today: string)
    requires CategoryHeader in req.headers && !req.isBase64Encoded && req.body != []
    ensures LambdaHandler(req, today, None)
            == Replied(Reply(StatusOK, UploadedBody(ObjectKey(today, req.headers[CategoryHeader]))),
                       Some(Put(ObjectKey(today, req.headers[CategoryHeader]), req.body)))
  {
  }

  /** Whatever non-empty bytes a client base64-encodes are the bytes that get stored. */
  lemma Base64BodyRoundTrip(category: string, content: Bytes, today: string)
    requires content != []
    ensures var req := Request(map[CategoryHeader := category], true, Base64.Encode(content));
            LambdaHandler(req, today, None).attempted == Some(Put(ObjectKey(today, category), content))
  {
    Base64.DecodeEncode(content);
  }

  /** A body marked as base64 that does not decode is refused with 400 and nothing is stored. */
  lemma CorruptBase64Refused(req: Request, today: string, uploadError: Option<string>)
    requires CategoryHeader in req.headers && req.isBase64Encoded && Base64.Decode(req.body).None?
    ensures LambdaHandler(req, today, uploadError)
            == Replied(Reply(StatusBadRequest, "{\"error\": \"Invalid Base64 encoded request body\"}"), None)
  {
  }

  /** An empty body, before or after decoding, is refused with 400 and nothing is stored. */
  lemma EmptyBodyRefused(req: Request, today: string, uploadError: Option<string>)
    requires CategoryHeader in req.headers && DecodedBody(req) == Some([])
    ensures LambdaHandler(req, today, uploadError)
            == Replied(Reply(StatusBadRequest, "{\"error\": \"Request body is empty\"}"), None)
  {
  }
}
