/** Read receipts: a user marks a post as read (idempotently) and asks
    whether they have read it. */
module PostReadService {
  import opened Common
  import opened Models

  predicate Receipt(postReads: map<Id, PostRead>, k: Id, postId: Id, userId: Id)
  {
    k in postReads && postReads[k].postId == postId && postReads[k].userId == userId
  }

  /** `PostRead.findOne({ where: { post_id, user_id } })`: the unique index
      makes the receipt, when there is one, the only one. */
  function FindRead(postReads: map<Id, PostRead>, postId: Id, userId: Id): (r: Option<PostRead>)
    requires PairsUnique(postReads)
    ensures r.Some? <==> exists k :: Receipt(postReads, k, postId, userId)
    ensures r.Some? ==> exists k :: Receipt(postReads, k, postId, userId) && r.value == postReads[k]
    ensures r.Some? ==> forall k :: Receipt(postReads, k, postId, userId) ==> r.value == postReads[k]
  {
    if exists k | k in postReads :: Receipt(postReads, k, postId, userId) then
      var k :| k in postReads && Receipt(postReads, k, postId, userId);
      Some(postReads[k])
    else None
  }

  /** The reply and the read table after `markAsRead`. */
  datatype ReadStep = ReadStep(result: Result<PostRead>, postReads: map<Id, PostRead>)

  /** `markAsRead(postId, userId)`: an unknown post throws; an existing receipt
      is returned as it is; otherwise a receipt stamped `now` is inserted under
      the fresh id, unless the user does not exist. */
  function MarkAsReadStep(
    posts: map<Id, Post>, users: map<Id, User>, postReads: map<Id, PostRead>,
    postId: Id, userId: Id, newId: Id, now: Time): (s: ReadStep)
    requires ReadsWf(postReads, posts, users)
    requires newId !in postReads
    ensures postId !in posts ==> s == ReadStep(Err(Error(PostNotFound)), postReads)
    ensures s.result.Ok? <==> postId in posts && (userId in users || FindRead(postReads, postId, userId).Some?)
    ensures s.result.Ok? ==>
      && s.result.value.postId == postId && s.result.value.userId == userId
      && s.result.value.id in s.postReads && s.postReads[s.result.value.id] == s.result.value
    ensures FindRead(postReads, postId, userId).Some? ==> s.postReads == postReads
    ensures s.postReads == postReads || s.postReads == postReads[newId := PostRead(newId, postId, userId, now)]
    ensures ReadsWf(s.postReads, posts, users)
  {
    if postId !in posts then ReadStep(Err(Error(PostNotFound)), postReads)
    else match FindRead(postReads, postId, userId)
      case Some(existing) => ReadStep(Ok(existing), postReads)
      case None =>
        if userId !in users then ReadStep(Err(Error(ForeignKeyViolated)), postReads)
        else
          var row := PostRead(newId, postId, userId, now);
          var next := postReads[newId := row];
          ReadStep(Ok(row), next)
  }

  /** `markAsRead` on the database. */
  method MarkAsRead(db: Db, postId: Id, userId: Id, newId: Id, now: Time) returns (r: Result<PostRead>)
    requires db.Valid()
    requires newId !in db.postReads
    modifies db`postReads
    ensures db.Valid()
    ensures var s := MarkAsReadStep(db.posts, db.users, old(db.postReads), postId, userId, newId, now);
      r == s.result && db.postReads == s.postReads
  {
    if postId !in db.posts {
      return Err(Error(PostNotFound));
    }
    var existing := FindRead(db.postReads, postId, userId);
    if existing.Some? {
      return Ok(existing.value);
    }
    if userId !in db.users {
      return Err(Error(ForeignKeyViolated));
    }
    var row := PostRead(newId, postId, userId, now);
    db.postReads := db.postReads[newId := row];
    r := Ok(row);
  }

  /** Marking twice yields the very same receipt and leaves the table as the
      first call left it. */
  lemma MarkAsReadIdempotent(
    posts: map<Id, Post>, users: map<Id, User>, postReads: map<Id, PostRead>,
    postId: Id, userId: Id, id1: Id, t1: Time, id2: Id, t2: Time)
    requires ReadsWf(postReads, posts, users)
    requires id1 !in postReads
    requires id2 !in MarkAsReadStep(posts, users, postReads, postId, userId, id1, t1).postReads
    ensures var first := MarkAsReadStep(posts, users, postReads, postId, userId, id1, t1);
      var second := MarkAsReadStep(posts, users, first.postReads, postId, userId, id2, t2);
      first.result.Ok? ==> second == ReadStep(first.result, first.postReads)
  {
    var first := MarkAsReadStep(posts, users, postReads, postId, userId, id1, t1);
    if first.result.Ok? {
      assert Receipt(first.postReads, first.result.value.id, postId, userId);
    }
  }

  /** `checkIfRead` reply: `read_at` is null exactly when not read. */
  datatype ReadStatus = ReadStatus(read: bool, readAt: Option<Time>)

  /** `checkIfRead(postId, userId)`: whether a receipt exists, and its time.
      The post itself is not looked up. */
  function CheckIfRead(postReads: map<Id, PostRead>, postId: Id, userId: Id): (r: ReadStatus)
    requires PairsUnique(postReads)
    ensures r.read <==> exists k :: Receipt(postReads, k, postId, userId)
    ensures r.readAt.Some? <==> r.read
    ensures r.read ==> forall k :: Receipt(postReads, k, postId, userId) ==> r.readAt == Some(postReads[k].readAt)
  {
    match FindRead(postReads, postId, userId)
    case Some(record) => ReadStatus(true, Some(record.readAt))
    case None => ReadStatus(false, None)
  }

  /** After a successful mark, the check reports the receipt's time. */
  lemma CheckAfterMark(
    posts: map<Id, Post>, users: map<Id, User>, postReads: map<Id, PostRead>,
    postId: Id, userId: Id, newId: Id, now: Time)
    requires ReadsWf(postReads, posts, users)
    requires newId !in postReads
    ensures var s := MarkAsReadStep(posts, users, postReads, postId, userId, newId, now);
      s.result.Ok? ==> CheckIfRead(s.postReads, postId, userId) == ReadStatus(true, Some(s.result.value.readAt))
  {
    var s := MarkAsReadStep(posts, users, postReads, postId, userId, newId, now);
    if s.result.Ok? {
      assert Receipt(s.postReads, s.result.value.id, postId, userId);
    }
  }

  /** Deleting the post removes the receipt with it: afterwards the check says unread. */
  lemma DeleteForgetsReads(postReads: map<Id, PostRead>, postId: Id, userId: Id)
    requires PairsUnique(postReads)
    ensures PairsUnique(ReadsWithoutPost(postReads, postId))
    ensures CheckIfRead(ReadsWithoutPost(postReads, postId), postId, userId) == ReadStatus(false, None)
  {
  }
}
