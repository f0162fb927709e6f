/** The post handlers: the viewer's role, and each service result or error
    turned into a status and body. */
module PostController {
  import opened Common
  import opened Text
  import opened Models
  import opened Http
  import opened PostService

  /** `req.user?.role || null`: anonymous requests list as no role. */
  function ViewerRole(user: Option<Identity>): (r: Option<Role>)
    ensures r.Some? <==> user.Some?
    ensures r.Some? ==> r.value == user.value.role
  {
    if user.Some? then Some(user.value.role) else None
  }

  /** `listPosts` and `searchPosts`: 200 with the listing, any error 500. */
  function ListingResponse(r: Result<Listing>): (resp: Response<Listing>)
    ensures r.Ok? ==> resp == Json(200, r.value)
    ensures r.Err? ==> resp == Problem(500, Message(r.error.message))
  {
    match r
    case Ok(listing) => Json(200, listing)
    case Err(e) => Problem(500, Message(e.message))
  }

  /** `getPostById`: 200 with the post, 404 for "Post não encontrado", other errors 500. */
  function GetResponse(r: Result<PostView>): (resp: Response<PostView>)
    ensures r.Ok? ==> resp == Json(200, r.value)
    ensures r.Err? && r.error.message == PostNotFound ==> resp == Problem(404, Message(PostNotFound))
    ensures r.Err? && r.error.message != PostNotFound ==> resp == Problem(500, Message(r.error.message))
  {
    match r
    case Ok(post) => Json(200, post)
    case Err(e) => Problem(if e.message == PostNotFound then 404 else 500, Message(e.message))
  }

  /** `createPost`: 201 with the post; every error, the service's own title and
      content checks included, 500. */
  function CreateResponse(r: Result<PostView>): (resp: Response<PostView>)
    ensures r.Ok? ==> resp == Json(201, r.value)
    ensures r.Err? ==> resp == Problem(500, Message(r.error.message))
  {
    match r
    case Ok(post) => Json(201, post)
    case Err(e) => Problem(500, Message(e.message))
  }

  /** `updatePost`: 200 with the post, 404 for "Post não encontrado", other errors 400. */
  function UpdateResponse(r: Result<PostView>): (resp: Response<PostView>)
    ensures r.Ok? ==> resp == Json(200, r.value)
    ensures r.Err? && r.error.message == PostNotFound ==> resp == Problem(404, Message(PostNotFound))
    ensures r.Err? && r.error.message != PostNotFound ==> resp == Problem(400, Message(r.error.message))
  {
    match r
    case Ok(post) => Json(200, post)
    case Err(e) => Problem(if e.message == PostNotFound then 404 else 400, Message(e.message))
  }

  /** `deletePost`: 204 with an empty body, 404 for "Post não encontrado", other errors 500. */
  function DeleteResponse(o: Outcome): (resp: Response<()>)
    ensures o.Pass? ==> resp == Empty(204)
    ensures o.Fail? && o.error.message == PostNotFound ==> resp == Problem(404, Message(PostNotFound))
    ensures o.Fail? && o.error.message != PostNotFound ==> resp == Problem(500, Message(o.error.message))
  {
    match o
    case Pass => Empty(204)
    case Fail(e) => Problem(if e.message == PostNotFound then 404 else 500, Message(e.message))
  }

  /** A create whose title is missing or shorter than 5 characters is answered
      500, not 400, and the post table is left as it was. */
  lemma ShortTitleIs500(
    users: map<Id, User>, disciplines: map<Id, Discipline>, data: PostBody, authorId: Id, id: Id, now: Time)
    requires data.title.None? || |data.title.value| < TitleMin
    ensures var row := NewPostRow(users, disciplines, data, authorId, id, now);
      row.Err? && CreateResponse(Err(row.error)) == Problem(500, Message(TitleTooShort))
  {
  }

  /** An update is answered 404 only for a missing post: a patch the store
      rejects on an existing post is 400, whatever the reason. */
  lemma UpdateStatuses(
    users: map<Id, User>, disciplines: map<Id, Discipline>, posts: map<Id, Post>,
    id: Id, patch: PostPatch, now: Time)
    requires PostsWf(posts, users, disciplines)
    ensures id !in posts ==> UpdateResponse(Err(Error(PostNotFound))).status == 404
    ensures id in posts ==>
      var row := PatchedRow(users, disciplines, posts[id], patch, now);
      UpdateResponse(if row.Ok? then Ok(Enrich(row.value, users, disciplines)) else Err(row.error)).status
        == if row.Ok? then 200 else 400
  {
  }

  /** A title made of whitespace alone, long enough for the service's own
      length checks, is still refused by the model's `notEmpty`: a create is
      answered 500 and an update of an existing post 400. */
  lemma BlankTitleRefused(
    users: map<Id, User>, disciplines: map<Id, Discipline>, posts: map<Id, Post>,
    data: PostBody, authorId: Id, id: Id, postId: Id, patch: PostPatch, now: Time)
    requires PostsWf(posts, users, disciplines) && postId in posts
    requires data.title.Some? && AllSpace(data.title.value)
    requires patch.title.Given? && AllSpace(patch.title.value)
    ensures var row := NewPostRow(users, disciplines, data, authorId, id, now);
      row.Err? && CreateResponse(Err(row.error)).status == 500
    ensures var row := PatchedRow(users, disciplines, posts[postId], patch, now);
      row.Err? && UpdateResponse(Err(row.error)).status == 400
  {
  }

  /** The page string "-1" parses to -1, so it is not replaced by the default. */
  lemma ParseMinusOne()
    ensures ParseInt("-1") == Some(-1)
  {
    assert IsIntString("-1") by { assert AllDigits("-1"[1..]); }
    ParseIntOfIntString("-1");
    assert "-1"[1..] == "1";
    assert DigitsValue("1", 10) == 1 by { assert "1"[..0] == []; }
  }

  /** The string "0" parses to 0, which `||` replaces by the default. */
  lemma ParseZero()
    ensures ParseInt("0") == Some(0)
  {
    assert IsIntString("0") by { assert AllDigits("0"); }
    ParseIntOfIntString("0");
    assert DigitsValue("0", 10) == 0 by { assert "0"[..0] == []; }
  }

  /** A negative page reaches the database as a negative OFFSET, which it
      refuses, so the listing is answered 500; a zero page or limit falls back
      to the default instead. */
  lemma PageEdgeCases(
    posts: map<Id, Post>, users: map<Id, User>, disciplines: map<Id, Discipline>,
    limit: Option<string>, viewer: Option<Role>)
    ensures ListingResponse(ListPosts(posts, users, disciplines, ListQuery(Some("-1"), limit), viewer))
      == Problem(500, Message(NegativeWindow))
    ensures IntOr(Some("0"), DefaultPage) == DefaultPage && IntOr(Some("0"), DefaultLimit) == DefaultLimit
  {
    ParseMinusOne();
    ParseZero();
    var page := IntOr(Some("-1"), DefaultPage);
    var size := IntOr(limit, DefaultLimit);
    assert page == -1 && size != 0;
    var r := Select(posts, users, disciplines, ListWhere(viewer), page, size);
    assert ListPosts(posts, users, disciplines, ListQuery(Some("-1"), limit), viewer) == r;
    assert r == Err(Error(NegativeWindow));
  }
}
