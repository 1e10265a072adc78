/**
 * The post endpoints (`PostController`): the feed's page-size clamp, the
 * guards in front of the use cases, and the controller's own error handler,
 * which, unlike the shared one, has no case for conflicts.
 */
module PostController {
  import opened Wrappers
  import opened Text
  import opened Entities
  import opened Http
  import opened Errors
  import opened Pagination
  import opened GetPosts

  const DefaultLimit := 20
  const MaxLimit := 100
  const AuthenticationRequired := "Authentication required"
  const UserIdRequired := "User ID is required"

  /** `Number(req.query.limit)`: NaN for a missing or unparsable value. */
  datatype NumberValue = NaN | Num(n: int)

  /** `Math.min(Number(req.query.limit) || 20, 100)`. */
  function EffectiveLimit(v: NumberValue): int {
    var requested := if v == NaN || v == Num(0) then DefaultLimit else v.n;
    if requested <= MaxLimit then requested else MaxLimit
  }

  /**
   * The page size never exceeds 100; a missing, unparsable or zero limit
   * becomes 20, a positive one is capped at 100, and a negative one is
   * passed on unchanged, since only 0 and NaN are falsy.
   */
  lemma LimitClamp(v: NumberValue)
    ensures EffectiveLimit(v) <= MaxLimit
    ensures v == NaN || v == Num(0) ==> EffectiveLimit(v) == DefaultLimit
    ensures v.Num? && v.n > 0 ==> EffectiveLimit(v) == (if v.n < MaxLimit then v.n else MaxLimit) && EffectiveLimit(v) > 0
    ensures v.Num? && v.n < 0 ==> EffectiveLimit(v) == v.n
  {
  }

  /** The controller's private `handleError`. */
  function HandleError(e: Thrown): Reply {
    match e
    case App(ValidationError(m)) => Reply(400, ErrorMessage(m))
    case App(UnauthorizedError(m)) => Reply(401, ErrorMessage(m))
    case _ => Reply(500, ErrorMessage(InternalServerError))
  }

  /**
   * The controller's handler agrees with the shared one except on conflicts,
   * which it answers with 500 and a generic message instead of 409.
   */
  lemma HandleErrorAgainstBase(e: Thrown)
    ensures !(e.App? && e.error.ConflictError?) ==> HandleError(e) == BaseHandleError(e)
    ensures e.App? && e.error.ConflictError? ==>
              HandleError(e) == Reply(500, ErrorMessage(InternalServerError)) && BaseHandleError(e).status == 409
  {
  }

  /** A handler's reply, and the argument it called its use case with, if it did. */
  datatype Handled<T> = Handled(reply: Reply, call: Option<T>)

  /** `createPost`: `execute` is the use case, returning the created post or throwing. */
  function CreatePost(userId: Option<string>, content: string, execute: CreatePostData -> Result<Post, Thrown>)
    : Handled<CreatePostData>
  {
    if !Truthy(userId) then Handled(HandleError(App(UnauthorizedError(AuthenticationRequired))), None)
    else
      var data := CreatePostData(content, userId.value);
      match execute(data)
      case Ok(post) => Handled(Reply(201, PostJson(post)), Some(data))
      case Err(e) => Handled(HandleError(e), Some(data))
  }

  /**
   * Without an authenticated user, creating a post answers 401 and never
   * reaches the use case; with one, the use case gets the content and the
   * user as author, and its post is answered with 201.
   */
  lemma CreatePostGuard(userId: Option<string>, content: string, execute: CreatePostData -> Result<Post, Thrown>)
    ensures var h := CreatePost(userId, content, execute);
            (!Truthy(userId) <==> h.call.None?) &&
            (!Truthy(userId) ==> h.reply == Reply(401, ErrorMessage(AuthenticationRequired))) &&
            (Truthy(userId) ==>
               h.call == Some(CreatePostData(content, userId.value)) &&
               (execute(h.call.value).Ok? ==> h.reply == Reply(201, PostJson(execute(h.call.value).value))))
  {
  }

  /** `getUserPosts`: `execute` is the use case, returning the author's posts or throwing. */
  function GetUserPosts(id: Option<string>, execute: string -> Result<seq<Post>, Thrown>): Handled<string> {
    if !Truthy(id) then Handled(HandleError(App(ValidationError(UserIdRequired))), None)
    else
      match execute(id.value)
      case Ok(posts) => Handled(Reply(200, PostsJson(posts)), Some(id.value))
      case Err(e) => Handled(HandleError(e), Some(id.value))
  }

  /** Without a user id the answer is 400 and the use case is not called; with one, it is called with that id. */
  lemma GetUserPostsGuard(id: Option<string>, execute: string -> Result<seq<Post>, Thrown>)
    ensures var h := GetUserPosts(id, execute);
            (!Truthy(id) ==> h == Handled(Reply(400, ErrorMessage(UserIdRequired)), None)) &&
            (Truthy(id) ==>
               h.call == Some(id.value) &&
               (execute(id.value).Ok? ==> h.reply == Reply(200, PostsJson(execute(id.value).value))))
  {
  }

  /**
   * `getPosts`: clamps the page size, reads the page through the cache and
   * answers it as JSON under the current status.
   */
  method HandleGetPosts(useCase: GetPostsUseCase, limitQuery: NumberValue, cursor: Option<string>, now: int, res: Response)
    requires EffectiveLimit(limitQuery) >= 0
    modifies useCase.cache, useCase.repository, res
    ensures var o := Read(old(useCase.cache.entries), old(useCase.repository.rows), EffectiveLimit(limitQuery), cursor, now);
            useCase.cache.entries == o.entries && res.body == Some(PageJson(o.page)) &&
            res.status == old(res.status) && res.headers == old(res.headers) &&
            useCase.repository.rows == old(useCase.repository.rows) &&
            useCase.repository.queries == old(useCase.repository.queries) + (if o.queried then 1 else 0)
  {
    var limit := EffectiveLimit(limitQuery);
    var result := useCase.Execute(limit, cursor, now);
    res.Json(PageJson(result));
  }
}
