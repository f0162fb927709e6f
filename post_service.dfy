/** Posts: role-dependent listing and search with pagination, lookup by id,
    and create / update / hard delete on the post table. */
module PostService {
  import opened Common
  import opened Text
  import opened Models

  datatype AuthorView = AuthorView(id: Id, name: string, role: Role)

  datatype DisciplineView = DisciplineView(id: Id, labelText: string)

  /** A post with its author {id, name, role} and discipline {id, label} joined in. */
  datatype PostView = PostView(post: Post, author: Option<AuthorView>, discipline: Option<DisciplineView>)

  datatype Pagination = Pagination(page: int, limit: int, total: nat, totalPages: nat)

  datatype Listing = Listing(data: seq<PostView>, pagination: Pagination)

  /** Query-string fields of a listing, as raw strings (None when absent). */
  datatype ListQuery = ListQuery(page: Option<string>, limit: Option<string>)

  datatype SearchQuery = SearchQuery(
    query: Option<string>, title: Option<string>, author: Option<string>,
    page: Option<string>, limit: Option<string>)

  /** Body of a create request (None when a key is absent or null). */
  datatype PostBody = PostBody(
    title: Option<string>, content: Option<string>, disciplineId: Option<Id>, status: Option<string>)

  /** Body of an update request: every attribute key is left out or given. */
  datatype PostPatch = PostPatch(
    title: Field<string>, content: Field<string>, disciplineId: Field<Option<Id>>,
    status: Field<string>, publishedAt: Field<Option<Time>>)

  const DefaultPage := 1
  const DefaultLimit := 20

  /** `parseInt(raw) || d`: NaN (absent or unparsable) and 0 fall back to `d`. */
  function IntOr(raw: Option<string>, d: int): (n: int)
    ensures d != 0 ==> n != 0
    ensures n == d || (raw.Some? && ParseInt(raw.value) == Some(n))
    ensures raw.None? || ParseInt(raw.value).None? || ParseInt(raw.value) == Some(0) ==> n == d
    ensures raw.Some? && ParseInt(raw.value).Some? && ParseInt(raw.value).value != 0 ==>
      n == ParseInt(raw.value).value
  {
    if raw.None? then d
    else match ParseInt(raw.value)
      case None => d
      case Some(v) => if v == 0 then d else v
  }

  /** The join of a post with its author and discipline (a left join: a
      missing author or discipline is null). */
  function Enrich(p: Post, users: map<Id, User>, disciplines: map<Id, Discipline>): (v: PostView)
    ensures v.post == p
    ensures v.author.Some? <==> p.authorId in users
    ensures v.discipline.Some? <==> p.disciplineId.Some? && p.disciplineId.value in disciplines
    ensures v.author.Some? ==>
      var u := users[p.authorId]; v.author.value == AuthorView(u.id, u.name, u.role)
    ensures v.discipline.Some? ==>
      var d := disciplines[p.disciplineId.value]; v.discipline.value == DisciplineView(d.id, d.labelText)
  {
    var author :=
      if p.authorId in users then
        var u := users[p.authorId]; Some(AuthorView(u.id, u.name, u.role))
      else None;
    var discipline :=
      if p.disciplineId.Some? && p.disciplineId.value in disciplines then
        var d := disciplines[p.disciplineId.value]; Some(DisciplineView(d.id, d.labelText))
      else None;
    PostView(p, author, discipline)
  }

  /** The WHERE clause a query builds: a status filter and up to three
      case-insensitive substring filters. */
  datatype Where = Where(publishedOnly: bool, text: Option<string>, title: Option<string>, author: Option<string>)

  /** Only a TEACHER sees every status. */
  function ListWhere(viewer: Option<Role>): (w: Where)
    ensures forall v :: Matches(v, w) <==> viewer == Some(Teacher) || v.post.status == Published
  {
    Where(viewer != Some(Teacher), None, None, None)
  }

  /** A JavaScript string is truthy unless it is absent or empty. */
  function Truthy(s: Option<string>): Option<string>
  {
    if s.Some? && s.value != "" then s else None
  }

  /** The search's WHERE clause: the listing's status filter plus one
      substring filter per truthy term. */
  function SearchWhere(f: SearchQuery, viewer: Option<Role>): (w: Where)
    ensures w.publishedOnly == ListWhere(viewer).publishedOnly
    ensures w.text.Some? <==> f.query.Some? && f.query.value != ""
    ensures w.title.Some? <==> f.title.Some? && f.title.value != ""
    ensures w.author.Some? <==> f.author.Some? && f.author.value != ""
    ensures w.text.Some? ==> w.text == f.query
    ensures w.title.Some? ==> w.title == f.title
    ensures w.author.Some? ==> w.author == f.author
  {
    Where(viewer != Some(Teacher), Truthy(f.query), Truthy(f.title), Truthy(f.author))
  }

  /** All filters are ANDed; `text` matches title OR content; `author` needs a
      joined author whose name matches (the join becomes an inner join). */
  predicate Matches(v: PostView, w: Where)
    ensures w.text.None? && w.title.None? && w.author.None? ==>
      (Matches(v, w) <==> !w.publishedOnly || v.post.status == Published)
    ensures Matches(v, w) && w.author.Some? ==> v.author.Some?
  {
    && (w.publishedOnly ==> v.post.status == Published)
    && (w.text.Some? ==>
          ContainsIgnoringCase(v.post.title, w.text.value) || ContainsIgnoringCase(v.post.content, w.text.value))
    && (w.title.Some? ==> ContainsIgnoringCase(v.post.title, w.title.value))
    && (w.author.Some? ==> v.author.Some? && ContainsIgnoringCase(v.author.value.name, w.author.value))
  }

  /** The joined rows a WHERE clause selects. */
  ghost function Rows(posts: map<Id, Post>, users: map<Id, User>, disciplines: map<Id, Discipline>, w: Where)
    : (rows: set<PostView>)
    ensures forall v :: v in rows <==>
      v.post in posts.Values && v == Enrich(v.post, users, disciplines) && Matches(v, w)
  {
    set p | p in posts.Values && Matches(Enrich(p, users, disciplines), w) :: Enrich(p, users, disciplines)
  }

  ghost predicate IsNewest(v: PostView, rows: set<PostView>)
  {
    forall u :: u in rows ==> u.post.createdAt <= v.post.createdAt
  }

  /** Ordered by `created_at` descending. */
  ghost predicate NewestFirstOrder(s: seq<PostView>)
  {
    forall i, j :: 0 <= i < j < |s| ==> s[i].post.createdAt >= s[j].post.createdAt
  }

  lemma {:induction false} NewestExists(rows: set<PostView>)
    requires rows != {}
    ensures exists v :: v in rows && IsNewest(v, rows)
  {
    var v :| v in rows;
    if rows != {v} {
      NewestExists(rows - {v});
      var u :| u in rows - {v} && IsNewest(u, rows - {v});
      if v.post.createdAt >= u.post.createdAt {
        assert IsNewest(v, rows);
      } else {
        assert IsNewest(u, rows);
      }
    } else {
      assert IsNewest(v, rows);
    }
  }

  /** The rows in `ORDER BY created_at DESC`; rows with equal `created_at`
      come in an unspecified order. Every row appears exactly once. */
  ghost function NewestFirst(rows: set<PostView>): (s: seq<PostView>)
    ensures |s| == |rows|
    ensures forall v :: v in s <==> v in rows
    ensures forall i, j :: 0 <= i < j < |s| ==> s[i] != s[j]
    ensures NewestFirstOrder(s)
    decreases |rows|
  {
    if rows == {} then []
    else
      NewestExists(rows);
      var v :| v in rows && IsNewest(v, rows);
      [v] + NewestFirst(rows - {v})
  }

  /** `Math.ceil(a / b)` for a positive divisor: the fewest pages of `b` rows
      that hold `a` rows. */
  function CeilDiv(a: nat, b: int): (r: nat)
    requires b > 0
    ensures r * b >= a && (r - 1) * b < a
  {
    var q := a / b;
    assert a == q * b + a % b;
    if a % b == 0 then q
    else
      assert (q + 1) * b == q * b + b;
      q + 1
  }

  /** The rows `LIMIT limit OFFSET offset` keeps: a run of consecutive rows
      starting at `offset`, shorter than `limit` only at the end. */
  function Window<T>(all: seq<T>, offset: nat, limit: nat): (data: seq<T>)
    ensures |data| <= limit
    ensures |data| < limit ==> offset + |data| >= |all|
    ensures forall i :: 0 <= i < |data| ==> offset + i < |all| && data[i] == all[offset + i]
  {
    var lo := Min(offset, |all|);
    var hi := Min(offset + limit, |all|);
    all[lo..hi]
  }

  /** With a positive limit the offset is negative exactly before page 1. */
  lemma OffsetSign(page: int, limit: int)
    requires limit > 0
    ensures (page - 1) * limit < 0 <==> page < 1
  {
    if page < 1 {
      assert (page - 1) * limit <= -1 * limit;
    } else {
      assert (page - 1) * limit >= 0 * limit;
    }
  }

  /** The OFFSET of a page, `(page - 1) * limit`: with a positive limit it is
      a row count exactly from page 1 on. */
  function Offset(page: int, limit: int): (o: int)
    ensures limit > 0 ==> (o >= 0 <==> page >= 1)
  {
    var o := (page - 1) * limit;
    assert limit > 0 ==> (o >= 0 <==> page >= 1) by {
      if limit > 0 { OffsetSign(page, limit); }
    }
    o
  }

  /** `findAndCountAll` with ORDER BY created_at DESC, LIMIT `limit` and OFFSET
      `(page - 1) * limit`, echoed in the pagination with the total count. The
      database rejects a negative LIMIT or OFFSET. */
  ghost function Select(
    posts: map<Id, Post>, users: map<Id, User>, disciplines: map<Id, Discipline>,
    w: Where, page: int, limit: int): (r: Result<Listing>)
    requires limit != 0
    ensures r.Ok? <==> page >= 1 && limit > 0
    ensures r.Err? ==> r.error == Error(NegativeWindow)
    ensures r.Ok? ==>
      var all := NewestFirst(Rows(posts, users, disciplines, w));
      && r.value.pagination == Pagination(page, limit, |all|, CeilDiv(|all|, limit))
      && r.value.data == Window(all, Offset(page, limit), limit)
  {
    var offset := Offset(page, limit);
    if limit < 0 || offset < 0 then
      Err(Error(NegativeWindow))
    else
      var all := NewestFirst(Rows(posts, users, disciplines, w));
      Ok(Listing(Window(all, offset, limit), Pagination(page, limit, |all|, CeilDiv(|all|, limit))))
  }

  /** A window of a newest-first sequence is newest-first and holds only
      elements of the sequence. */
  lemma WindowOfOrdered(all: seq<PostView>, offset: nat, limit: nat)
    requires NewestFirstOrder(all)
    ensures NewestFirstOrder(Window(all, offset, limit))
    ensures forall i :: 0 <= i < |Window(all, offset, limit)| ==> Window(all, offset, limit)[i] in all
  {
    var data := Window(all, offset, limit);
    forall i, j | 0 <= i < j < |data|
      ensures data[i].post.createdAt >= data[j].post.createdAt
    {
      assert data[i] == all[offset + i] && data[j] == all[offset + j];
    }
  }

  /** Every page of a successful listing holds rows the WHERE clause selects,
      newest first. */
  lemma SelectRows(
    posts: map<Id, Post>, users: map<Id, User>, disciplines: map<Id, Discipline>,
    w: Where, page: int, limit: int)
    requires limit != 0
    ensures var r := Select(posts, users, disciplines, w, page, limit);
      r.Ok? ==>
        && NewestFirstOrder(r.value.data)
        && forall i :: 0 <= i < |r.value.data| ==> r.value.data[i] in Rows(posts, users, disciplines, w)
  {
    var r := Select(posts, users, disciplines, w, page, limit);
    if r.Ok? {
      var all := NewestFirst(Rows(posts, users, disciplines, w));
      WindowOfOrdered(all, Offset(page, limit), limit);
    }
  }

  /** `listPosts`: page defaults to 1 and limit to 20; only a TEACHER sees
      posts that are not PUBLISHED. */
  ghost function ListPosts(
    posts: map<Id, Post>, users: map<Id, User>, disciplines: map<Id, Discipline>,
    q: ListQuery, viewer: Option<Role>): (r: Result<Listing>)
    ensures r.Ok? ==>
      && r.value.pagination.page == IntOr(q.page, DefaultPage)
      && r.value.pagination.limit == IntOr(q.limit, DefaultLimit)
      && NewestFirstOrder(r.value.data)
      && forall i :: 0 <= i < |r.value.data| ==>
           && r.value.data[i].post in posts.Values
           && (viewer != Some(Teacher) ==> r.value.data[i].post.status == Published)
  {
    var page := IntOr(q.page, DefaultPage);
    var limit := IntOr(q.limit, DefaultLimit);
    SelectRows(posts, users, disciplines, ListWhere(viewer), page, limit);
    Select(posts, users, disciplines, ListWhere(viewer), page, limit)
  }

  /** `searchPosts`: without a truthy query, title or author it is `listPosts`;
      otherwise every returned row is visible to the viewer and passes every
      supplied filter. */
  ghost function SearchPosts(
    posts: map<Id, Post>, users: map<Id, User>, disciplines: map<Id, Discipline>,
    f: SearchQuery, viewer: Option<Role>): (r: Result<Listing>)
    ensures r.Ok? ==>
      && r.value.pagination.page == IntOr(f.page, DefaultPage)
      && r.value.pagination.limit == IntOr(f.limit, DefaultLimit)
      && NewestFirstOrder(r.value.data)
      && forall i :: 0 <= i < |r.value.data| ==>
           && r.value.data[i].post in posts.Values
           && Matches(r.value.data[i], SearchWhere(f, viewer))
  {
    if Truthy(f.query).None? && Truthy(f.title).None? && Truthy(f.author).None? then
      ListPosts(posts, users, disciplines, ListQuery(f.page, f.limit), viewer)
    else
      var page := IntOr(f.page, DefaultPage);
      var limit := IntOr(f.limit, DefaultLimit);
      SelectRows(posts, users, disciplines, SearchWhere(f, viewer), page, limit);
      Select(posts, users, disciplines, SearchWhere(f, viewer), page, limit)
  }

  /** With no truthy search filter, a search is exactly a listing. */
  lemma SearchWithoutFiltersIsList(
    posts: map<Id, Post>, users: map<Id, User>, disciplines: map<Id, Discipline>,
    f: SearchQuery, viewer: Option<Role>)
    requires Truthy(f.query).None? && Truthy(f.title).None? && Truthy(f.author).None?
    ensures SearchPosts(posts, users, disciplines, f, viewer)
         == ListPosts(posts, users, disciplines, ListQuery(f.page, f.limit), viewer)
  {
  }

  /** A listing holds a post iff the viewer is a TEACHER or the post is PUBLISHED:
      a TEACHER sees DRAFT, PUBLISHED and ARCHIVED posts alike. */
  lemma ListVisibility(
    posts: map<Id, Post>, users: map<Id, User>, disciplines: map<Id, Discipline>,
    p: Post, viewer: Option<Role>)
    requires p in posts.Values
    ensures Enrich(p, users, disciplines) in NewestFirst(Rows(posts, users, disciplines, ListWhere(viewer)))
        <==> viewer == Some(Teacher) || p.status == Published
  {
  }

  /** A search selects a post iff the post is visible and passes each supplied
      filter: query in title or content, title in title, author in the
      author's name, all case-insensitively. */
  lemma SearchSelection(
    posts: map<Id, Post>, users: map<Id, User>, disciplines: map<Id, Discipline>,
    p: Post, f: SearchQuery, viewer: Option<Role>)
    requires p in posts.Values
    ensures var v := Enrich(p, users, disciplines);
      v in Rows(posts, users, disciplines, SearchWhere(f, viewer)) <==>
        && (viewer != Some(Teacher) ==> p.status == Published)
        && (Truthy(f.query).Some? ==>
              ContainsIgnoringCase(p.title, f.query.value) || ContainsIgnoringCase(p.content, f.query.value))
        && (Truthy(f.title).Some? ==> ContainsIgnoringCase(p.title, f.title.value))
        && (Truthy(f.author).Some? ==>
              p.authorId in users && ContainsIgnoringCase(users[p.authorId].name, f.author.value))
  {
  }

  /** A search never returns a row the plain listing would hide from the same viewer. */
  lemma SearchNarrowsListing(
    posts: map<Id, Post>, users: map<Id, User>, disciplines: map<Id, Discipline>,
    f: SearchQuery, viewer: Option<Role>)
    ensures Rows(posts, users, disciplines, SearchWhere(f, viewer)) <= Rows(posts, users, disciplines, ListWhere(viewer))
  {
  }

  /** Pages tile a sequence: element `i` sits in the window of page
      `i / limit + 1` at position `i % limit`. */
  lemma WindowTiles<T>(all: seq<T>, limit: int, i: int)
    requires limit > 0 && 0 <= i < |all|
    ensures var offset := (i / limit + 1 - 1) * limit;
      offset >= 0 && i % limit < |Window(all, offset, limit)| && Window(all, offset, limit)[i % limit] == all[i]
  {
    var offset := (i / limit + 1 - 1) * limit;
    assert offset == (i / limit) * limit;
    assert i == offset + i % limit;
  }

  /** The listing tiles the ordered rows: row `i` sits on page
      `i / limit + 1` at position `i % limit`. */
  lemma RowOnItsPage(
    posts: map<Id, Post>, users: map<Id, User>, disciplines: map<Id, Discipline>,
    w: Where, limit: int, i: int)
    requires limit > 0
    requires 0 <= i < |NewestFirst(Rows(posts, users, disciplines, w))|
    ensures var r := Select(posts, users, disciplines, w, i / limit + 1, limit);
      r.Ok? && i % limit < |r.value.data| && r.value.data[i % limit] == NewestFirst(Rows(posts, users, disciplines, w))[i]
  {
    WindowTiles(NewestFirst(Rows(posts, users, disciplines, w)), limit, i);
  }

  /** `getPostById`: any post, whatever its status, is found by its id. */
  function GetPostById(posts: map<Id, Post>, users: map<Id, User>, disciplines: map<Id, Discipline>, id: Id)
    : (r: Result<PostView>)
    ensures r.Ok? <==> id in posts
    ensures r.Ok? ==> r.value.post == posts[id] && r.value == Enrich(posts[id], users, disciplines)
    ensures r.Err? ==> r.error == Error(PostNotFound)
  {
    if id in posts then Ok(Enrich(posts[id], users, disciplines)) else Err(Error(PostNotFound))
  }

  /** `data.status || 'DRAFT'`. */
  function StatusOrDraft(s: Option<string>): string
  {
    if s.None? || s.value == "" then "DRAFT" else s.value
  }

  /** The row `createPost` inserts, or the error it throws. The title is
      checked before the content; then the model's own constraints (length,
      `notEmpty`, status) and the foreign keys are enforced by the store. */
  function NewPostRow(
    users: map<Id, User>, disciplines: map<Id, Discipline>,
    data: PostBody, authorId: Id, id: Id, now: Time): (r: Result<Post>)
    ensures data.title.None? || |data.title.value| < TitleMin ==> r == Err(Error(TitleTooShort))
    ensures data.title.Some? && |data.title.value| >= TitleMin && (data.content.None? || |data.content.value| < ContentMin) ==>
      r == Err(Error(ContentTooShort))
    ensures r.Ok? <==>
      && data.title.Some? && TitleMin <= |data.title.value| <= TitleMax && NotBlank(data.title.value)
      && data.content.Some? && |data.content.value| >= ContentMin && NotBlank(data.content.value)
      && ParseStatus(StatusOrDraft(data.status)).Some?
      && authorId in users
      && (data.disciplineId.Some? ==> data.disciplineId.value in disciplines)
    ensures r.Ok? ==>
      && PostWf(r.value) && RefsOk(r.value, users, disciplines)
      && r.value.id == id && r.value.authorId == authorId
      && r.value.title == data.title.value && r.value.content == data.content.value
      && r.value.disciplineId == data.disciplineId
      && StatusName(r.value.status) == StatusOrDraft(data.status)
      && (r.value.publishedAt.Some? <==> data.status == Some("PUBLISHED"))
      && (r.value.publishedAt.Some? ==> r.value.publishedAt.value == now)
      && r.value.createdAt == now && r.value.updatedAt == now
  {
    if data.title.None? || |data.title.value| < TitleMin then Err(Error(TitleTooShort))
    else if data.content.None? || |data.content.value| < ContentMin then Err(Error(ContentTooShort))
    else
      var publishedAt := if data.status == Some("PUBLISHED") then Some(now) else None;
      match ParseStatus(StatusOrDraft(data.status))
      case None => Err(Error(ModelValidationFailed))
      case Some(status) =>
        if |data.title.value| > TitleMax || !NotBlank(data.title.value) || !NotBlank(data.content.value) then
          Err(Error(ModelValidationFailed))
        else if authorId !in users then Err(Error(ForeignKeyViolated))
        else if data.disciplineId.Some? && data.disciplineId.value !in disciplines then Err(Error(ForeignKeyViolated))
        else Ok(Post(id, data.title.value, data.content.value, authorId, data.disciplineId,
                     status, publishedAt, now, now))
  }

  /** `createPost(data, userId)`: inserts the row under the fresh id and
      returns it joined, or throws and leaves the table unchanged. */
  method CreatePost(db: Db, data: PostBody, userId: Id, newId: Id, now: Time) returns (r: Result<PostView>)
    requires db.Valid()
    requires newId !in db.posts
    modifies db`posts
    ensures db.Valid()
    ensures var row := NewPostRow(db.users, db.disciplines, data, userId, newId, now);
      && (row.Ok? ==> db.posts == old(db.posts)[newId := row.value] && r == Ok(Enrich(row.value, db.users, db.disciplines)))
      && (row.Err? ==> db.posts == old(db.posts) && r == Err(row.error))
  {
    if data.title.None? || |data.title.value| < TitleMin {
      return Err(Error(TitleTooShort));
    }
    if data.content.None? || |data.content.value| < ContentMin {
      return Err(Error(ContentTooShort));
    }
    var row := NewPostRow(db.users, db.disciplines, data, userId, newId, now);
    if row.Err? {
      return Err(row.error);
    }
    db.posts := db.posts[newId := row.value];
    r := GetPostById(db.posts, db.users, db.disciplines, newId);
  }

  /** The `published_at` actually written: a patch setting status PUBLISHED on
      a never-published post stamps `now`; otherwise the patch's own key, if any. */
  function EffectivePublishedAt(stored: Post, patch: PostPatch, now: Time): Field<Option<Time>>
  {
    if patch.status == Given("PUBLISHED") && stored.publishedAt.None? then Given(Some(now))
    else patch.publishedAt
  }

  function Patched<T>(f: Field<T>, old_: T): T
  {
    if f.Given? then f.value else old_
  }

  /** The row after `post.update(data)`, or the error the store raises.
      Only the given keys change and only they are validated; `updated_at`
      moves only when something changed. */
  function PatchedRow(
    users: map<Id, User>, disciplines: map<Id, Discipline>,
    stored: Post, patch: PostPatch, now: Time): (r: Result<Post>)
    requires PostWf(stored) && RefsOk(stored, users, disciplines)
    ensures r.Ok? <==>
      && (patch.title.Given? ==> TitleMin <= |patch.title.value| <= TitleMax && NotBlank(patch.title.value))
      && (patch.content.Given? ==> |patch.content.value| >= ContentMin && NotBlank(patch.content.value))
      && (patch.status.Given? ==> ParseStatus(patch.status.value).Some?)
      && (patch.disciplineId.Given? && patch.disciplineId.value.Some? ==> patch.disciplineId.value.value in disciplines)
    ensures r.Err? ==> r.error.message != PostNotFound
    ensures r.Ok? ==>
      && PostWf(r.value) && RefsOk(r.value, users, disciplines)
      && r.value.id == stored.id && r.value.authorId == stored.authorId && r.value.createdAt == stored.createdAt
      && r.value.title == Patched(patch.title, stored.title)
      && r.value.content == Patched(patch.content, stored.content)
      && r.value.disciplineId == Patched(patch.disciplineId, stored.disciplineId)
      && (patch.status.Given? ==> StatusName(r.value.status) == patch.status.value)
      && (patch.status.Absent? ==> r.value.status == stored.status)
      && (r.value.updatedAt == now || r.value == stored)
    // a patch that changes no column saves nothing, so updated_at stays
    ensures r.Ok? && r.value.(updatedAt := stored.updatedAt) == stored ==> r.value == stored
    // first publish: a never-published post that becomes PUBLISHED is stamped now
    ensures r.Ok? && stored.publishedAt.None? && patch.status == Given("PUBLISHED") ==> r.value.publishedAt == Some(now)
    // a stamp is never replaced or cleared unless the body itself carries published_at
    ensures r.Ok? && stored.publishedAt.Some? && patch.publishedAt.Absent? ==> r.value.publishedAt == stored.publishedAt
    ensures r.Ok? && stored.publishedAt.None? && patch.status != Given("PUBLISHED") && patch.publishedAt.Absent? ==>
      r.value.publishedAt.None?
  {
    var title := Patched(patch.title, stored.title);
    var content := Patched(patch.content, stored.content);
    var disciplineId := Patched(patch.disciplineId, stored.disciplineId);
    var publishedAt := Patched(EffectivePublishedAt(stored, patch, now), stored.publishedAt);
    if !(TitleMin <= |title| <= TitleMax) || |content| < ContentMin || !NotBlank(title) || !NotBlank(content) then
      Err(Error(ModelValidationFailed))
    else if patch.status.Given? && ParseStatus(patch.status.value).None? then Err(Error(ModelValidationFailed))
    else if disciplineId.Some? && disciplineId.value !in disciplines then Err(Error(ForeignKeyViolated))
    else
      var status := if patch.status.Given? then ParseStatus(patch.status.value).value else stored.status;
      var row := stored.(title := title, content := content, disciplineId := disciplineId,
                         status := status, publishedAt := publishedAt);
      Ok(if row == stored then row else row.(updatedAt := now))
  }

  /** `updatePost(id, data)`: a missing id throws and changes nothing; otherwise
      the row becomes PatchedRow of the stored one, or nothing changes if the
      store rejects it. */
  method UpdatePost(db: Db, id: Id, data: PostPatch, now: Time) returns (r: Result<PostView>)
    requires db.Valid()
    modifies db`posts
    ensures db.Valid()
    ensures id !in old(db.posts) ==> r == Err(Error(PostNotFound)) && db.posts == old(db.posts)
    ensures id in old(db.posts) ==>
      var row := PatchedRow(db.users, db.disciplines, old(db.posts)[id], data, now);
      && (row.Ok? ==> db.posts == old(db.posts)[id := row.value] && r == Ok(Enrich(row.value, db.users, db.disciplines)))
      && (row.Err? ==> db.posts == old(db.posts) && r == Err(row.error))
  {
    if id !in db.posts {
      return Err(Error(PostNotFound));
    }
    var stored := db.posts[id];
    var row := PatchedRow(db.users, db.disciplines, stored, data, now);
    if row.Err? {
      return Err(row.error);
    }
    db.posts := db.posts[id := row.value];
    r := GetPostById(db.posts, db.users, db.disciplines, id);
  }

  /** `deletePost(id)`: a missing id throws and changes nothing; otherwise the
      row is removed for good, and with it (by cascade) its read receipts. */
  method DeletePost(db: Db, id: Id) returns (o: Outcome)
    requires db.Valid()
    modifies db`posts, db`postReads
    ensures db.Valid()
    ensures id !in old(db.posts) ==>
      o == Fail(Error(PostNotFound)) && db.posts == old(db.posts) && db.postReads == old(db.postReads)
    ensures id in old(db.posts) ==>
      o == Pass && db.posts == old(db.posts) - {id} && db.postReads == ReadsWithoutPost(old(db.postReads), id)
  {
    if id !in db.posts {
      return Fail(Error(PostNotFound));
    }
    DeleteKeepsTablesWf(db.posts, db.users, db.disciplines, db.postReads, id);
    db.posts := db.posts - {id};
    db.postReads := ReadsWithoutPost(db.postReads, id);
    o := Pass;
  }

  /** Publishing a draft and later archiving it keeps the first publication time. */
  lemma PublishThenArchive(
    users: map<Id, User>, disciplines: map<Id, Discipline>, stored: Post, t1: Time, t2: Time)
    requires PostWf(stored) && RefsOk(stored, users, disciplines) && stored.publishedAt.None?
    ensures var publish := PostPatch(Absent, Absent, Absent, Given("PUBLISHED"), Absent);
      var archive := PostPatch(Absent, Absent, Absent, Given("ARCHIVED"), Absent);
      var r1 := PatchedRow(users, disciplines, stored, publish, t1);
      r1.Ok? && r1.value.publishedAt == Some(t1) &&
      var r2 := PatchedRow(users, disciplines, r1.value, archive, t2);
      r2.Ok? && r2.value.status == Archived && r2.value.publishedAt == Some(t1)
  {
  }
}
