/**
 * The slice of an HTTP response the modelled handlers produce: a status, the
 * headers set so far and at most one JSON body.
 */
module Http {
  import opened Wrappers
  import opened Entities

  /** A header value; `Timestamp` stands for `new Date(ms).toISOString()`. */
  datatype HeaderValue = Text(text: string) | Timestamp(ms: int)

  /** The JSON bodies the handlers send. */
  datatype Body =
    | ErrorMessage(error: string)
    | TypedError(error: string, errorType: string)
    | PostJson(post: Post)
    | PageJson(page: PostPage)
    | PostsJson(posts: seq<Post>)

  /** One status and one body: the single `res.status(..).json(..)` a handler ends with. */
  datatype Reply = Reply(status: int, body: Body)

  class Response {
    var status: int
    var headers: map<string, HeaderValue>
    var body: Option<Body>

    /** A response nobody has written to: status 200, no headers, no body. */
    constructor ()
      ensures status == 200 && headers == map[] && body == None
    {
      status, headers, body := 200, map[], None;
    }

    /** `res.set(h)`: adds or replaces the given headers. */
    method Set(h: map<string, HeaderValue>)
      modifies this
      ensures headers == old(headers) + h
      ensures status == old(status) && body == old(body)
    {
      headers := headers + h;
    }

    /** `res.json(b)`: the body, under whatever status is already set. */
    method Json(b: Body)
      modifies this
      ensures body == Some(b)
      ensures status == old(status) && headers == old(headers)
    {
      body := Some(b);
    }

    /** `res.status(reply.status).json(reply.body)`. */
    method Send(reply: Reply)
      modifies this
      ensures status == reply.status && body == Some(reply.body)
      ensures headers == old(headers)
    {
      status, body := reply.status, Some(reply.body);
    }
  }
}
