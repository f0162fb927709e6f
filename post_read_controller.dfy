/** The read-receipt handlers: results and errors turned into statuses. */
module PostReadController {
  import opened Common
  import opened Models
  import opened Http
  import opened PostReadService

  /** `markAsRead`: 201 with the receipt, also when it already existed; 404
      for "Post não encontrado"; other errors 500. */
  function MarkAsReadResponse(r: Result<PostRead>): (resp: Response<PostRead>)
    ensures r.Ok? ==> resp == Json(201, r.value)
    ensures r.Err? && r.error.message == PostNotFound ==> resp == Problem(404, Message(PostNotFound))
    ensures r.Err? && r.error.message != PostNotFound ==> resp == Problem(500, Message(r.error.message))
  {
    match r
    case Ok(record) => Json(201, record)
    case Err(e) => Problem(if e.message == PostNotFound then 404 else 500, Message(e.message))
  }

  /** `checkIfRead`: 200 with `{read, read_at}`, any error 500. */
  function CheckIfReadResponse(r: Result<ReadStatus>): (resp: Response<ReadStatus>)
    ensures r.Ok? ==> resp == Json(200, r.value)
    ensures r.Err? ==> resp == Problem(500, Message(r.error.message))
  {
    match r
    case Ok(status) => Json(200, status)
    case Err(e) => Problem(500, Message(e.message))
  }

  /** Marking the same post twice is answered 201 both times, with the same receipt. */
  lemma RepeatMarkIs201(
    posts: map<Id, Post>, users: map<Id, User>, postReads: map<Id, PostRead>,
    postId: Id, userId: Id, id1: Id, t1: Time, id2: Id, t2: Time)
    requires ReadsWf(postReads, posts, users)
    requires id1 !in postReads
    requires id2 !in MarkAsReadStep(posts, users, postReads, postId, userId, id1, t1).postReads
    ensures var first := MarkAsReadStep(posts, users, postReads, postId, userId, id1, t1);
      var second := MarkAsReadStep(posts, users, first.postReads, postId, userId, id2, t2);
      first.result.Ok? ==>
        && MarkAsReadResponse(first.result) == Json(201, first.result.value)
        && MarkAsReadResponse(second.result) == MarkAsReadResponse(first.result)
  {
    MarkAsReadIdempotent(posts, users, postReads, postId, userId, id1, t1, id2, t2);
  }

  /** Marking a post that does not exist is answered 404 and records nothing. */
  lemma MissingPostIs404(
    posts: map<Id, Post>, users: map<Id, User>, postReads: map<Id, PostRead>,
    postId: Id, userId: Id, newId: Id, now: Time)
    requires ReadsWf(postReads, posts, users)
    requires newId !in postReads
    requires postId !in posts
    ensures var s := MarkAsReadStep(posts, users, postReads, postId, userId, newId, now);
      MarkAsReadResponse(s.result) == Problem(404, Message(PostNotFound)) && s.postReads == postReads
  {
  }
}
