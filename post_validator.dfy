/** The request validators declared for the post routes: trimmed lengths, the
    status names and integer ranges, each failing check reported on its field.
    The routes do not attach them; they stand here as predicates on requests,
    with what acceptance guarantees to the services. */
module PostValidator {
  import opened Common
  import opened Text
  import opened Models
  import opened Validation
  import opened PostService

  const TitleRequired := "Título é obrigatório"
  const TitleLength := "Título deve ter entre 5 e 255 caracteres"
  const ContentRequired := "Conteúdo é obrigatório"
  const ContentLength := "Conteúdo deve ter no mínimo 10 caracteres"
  const StatusInvalid := "Status deve ser DRAFT, PUBLISHED ou ARCHIVED"
  const DisciplineInvalid := "discipline_id deve ser um UUID válido"
  const IdInvalid := "ID do post deve ser um UUID válido"
  const PageInvalid := "page deve ser um número inteiro >= 1"
  const LimitInvalid := "limit deve ser um número entre 1 e 100"
  const QueryShort := "query deve ter no mínimo 2 caracteres"
  const TitleFilterShort := "title deve ter no mínimo 2 caracteres"
  const AuthorShort := "author deve ter no mínimo 2 caracteres"

  const SearchTermMin := 2
  const LimitMax := 100

  /** `isUUID`, a library predicate kept abstract. */
  type UuidTest = string -> bool

  /** A failing check reports one error on its field; checks of a chain do not
      stop at the first failure. */
  function Check(ok: bool, field: string, msg: string): (r: seq<ValidationError>)
    ensures r == [] <==> ok
    ensures !ok ==> r == [ValidationError(Some(field), None, msg)]
  {
    if ok then [] else [ValidationError(Some(field), None, msg)]
  }

  /** A check on an `optional()` field runs only when the field is present. */
  function CheckPresent(v: Option<string>, ok: bool, field: string, msg: string): (r: seq<ValidationError>)
    ensures r == [] <==> v.None? || ok
  {
    if v.None? then [] else Check(ok, field, msg)
  }

  /** `trim()` on a field: an absent one reads as "". */
  function Trimmed(v: Option<string>): string
  {
    if v.None? then "" else Trim(v.value)
  }

  predicate IsStatusName(s: string)
  {
    s == "DRAFT" || s == "PUBLISHED" || s == "ARCHIVED"
  }

  /** `isInt({ min })` and `isInt({ min, max })`: signed decimal digits within the bounds. */
  predicate IsIntAtLeast(s: string, min: int)
  {
    IsIntString(s) && IntValue(s) >= min
  }

  predicate IsIntWithin(s: string, min: int, max: int)
  {
    IsIntString(s) && min <= IntValue(s) <= max
  }

  /** `createPostValidator`. */
  function CreateErrors(b: PostBody, isUuid: UuidTest): (r: seq<ValidationError>)
    ensures r == [] <==>
      && TitleMin <= |Trimmed(b.title)| <= TitleMax
      && |Trimmed(b.content)| >= ContentMin
      && (b.status.Some? ==> IsStatusName(b.status.value))
      && (b.disciplineId.Some? ==> isUuid(b.disciplineId.value))
    ensures b.title.None? ==> |r| >= 2 && r[..2] == [
      ValidationError(Some("title"), None, TitleRequired), ValidationError(Some("title"), None, TitleLength)]
  {
    var title := Trimmed(b.title);
    var content := Trimmed(b.content);
    Check(title != "", "title", TitleRequired)
    + Check(TitleMin <= |title| <= TitleMax, "title", TitleLength)
    + Check(content != "", "content", ContentRequired)
    + Check(|content| >= ContentMin, "content", ContentLength)
    + CheckPresent(b.status, b.status.Some? && IsStatusName(b.status.value), "status", StatusInvalid)
    + CheckPresent(b.disciplineId, b.disciplineId.Some? && isUuid(b.disciplineId.value), "discipline_id", DisciplineInvalid)
  }

  /** The body after the chain's sanitizers: title and content trimmed, status upper-cased. */
  function SanitizedCreate(b: PostBody): PostBody
  {
    PostBody(Some(Trimmed(b.title)), Some(Trimmed(b.content)), b.disciplineId,
             if b.status.Some? then Some(Upper(b.status.value)) else None)
  }

  lemma StatusNameUpper(s: string)
    requires IsStatusName(s)
    ensures Upper(s) == s && ParseStatus(s).Some?
  {
  }

  /** A body the create validator accepts, once sanitized, passes every check
      `createPost` and the post model make of it; only the references to the
      author and the discipline can still fail. */
  lemma AcceptedCreate(
    users: map<Id, User>, disciplines: map<Id, Discipline>, b: PostBody, isUuid: UuidTest,
    authorId: Id, id: Id, now: Time)
    requires CreateErrors(b, isUuid) == []
    ensures var row := NewPostRow(users, disciplines, SanitizedCreate(b), authorId, id, now);
      && (row.Ok? <==> authorId in users && (b.disciplineId.Some? ==> b.disciplineId.value in disciplines))
      && (row.Ok? ==> row.value.title == Trimmed(b.title) && row.value.content == Trimmed(b.content))
  {
    if b.status.Some? {
      StatusNameUpper(b.status.value);
    }
  }

  /** The fields of an update body the validator looks at. */
  datatype UpdateInput = UpdateInput(
    title: Option<string>, content: Option<string>, status: Option<string>, disciplineId: Option<string>)

  /** `updatePostValidator`: the id parameter first, then the optional body fields. */
  function UpdateErrors(id: string, u: UpdateInput, isUuid: UuidTest): (r: seq<ValidationError>)
    ensures r == [] <==>
      && isUuid(id)
      && (u.title.Some? ==> TitleMin <= |Trim(u.title.value)| <= TitleMax)
      && (u.content.Some? ==> |Trim(u.content.value)| >= ContentMin)
      && (u.status.Some? ==> IsStatusName(u.status.value))
      && (u.disciplineId.Some? ==> isUuid(u.disciplineId.value))
    ensures !isUuid(id) ==> r[0] == ValidationError(Some("id"), None, IdInvalid)
  {
    Check(isUuid(id), "id", IdInvalid)
    + CheckPresent(u.title, TitleMin <= |Trimmed(u.title)| <= TitleMax, "title", TitleLength)
    + CheckPresent(u.content, |Trimmed(u.content)| >= ContentMin, "content", ContentLength)
    + CheckPresent(u.status, u.status.Some? && IsStatusName(u.status.value), "status", StatusInvalid)
    + CheckPresent(u.disciplineId, u.disciplineId.Some? && isUuid(u.disciplineId.value), "discipline_id", DisciplineInvalid)
  }

  /** The patch after the chain's sanitizers. */
  function SanitizedPatch(u: UpdateInput): PostPatch
  {
    PostPatch(
      if u.title.Some? then Given(Trim(u.title.value)) else Absent,
      if u.content.Some? then Given(Trim(u.content.value)) else Absent,
      if u.disciplineId.Some? then Given(Some(u.disciplineId.value)) else Absent,
      if u.status.Some? then Given(Upper(u.status.value)) else Absent,
      Absent)
  }

  /** An update the validator accepts, once sanitized, passes the post model's
      checks; only a discipline that does not exist can still fail it. */
  lemma AcceptedUpdate(
    users: map<Id, User>, disciplines: map<Id, Discipline>, stored: Post,
    id: string, u: UpdateInput, isUuid: UuidTest, now: Time)
    requires PostWf(stored) && RefsOk(stored, users, disciplines)
    requires UpdateErrors(id, u, isUuid) == []
    ensures PatchedRow(users, disciplines, stored, SanitizedPatch(u), now).Ok?
      <==> (u.disciplineId.Some? ==> u.disciplineId.value in disciplines)
  {
    if u.status.Some? {
      StatusNameUpper(u.status.value);
    }
  }

  /** `listPostsValidator`. */
  function ListErrors(q: ListQuery): (r: seq<ValidationError>)
    ensures r == [] <==>
      && (q.page.Some? ==> IsIntAtLeast(q.page.value, 1))
      && (q.limit.Some? ==> IsIntWithin(q.limit.value, 1, LimitMax))
  {
    CheckPresent(q.page, q.page.Some? && IsIntAtLeast(q.page.value, 1), "page", PageInvalid)
    + CheckPresent(q.limit, q.limit.Some? && IsIntWithin(q.limit.value, 1, LimitMax), "limit", LimitInvalid)
  }

  /** An accepted page or limit reaches the service as the number it spells. */
  lemma AcceptedNumber(raw: Option<string>, d: int, min: int)
    requires d >= min >= 1
    requires raw.Some? ==> IsIntAtLeast(raw.value, min)
    ensures IntOr(raw, d) == if raw.Some? then IntValue(raw.value) else d
    ensures IntOr(raw, d) >= min
  {
    if raw.Some? {
      ParseIntOfIntString(raw.value);
    }
  }

  /** A listing query the validator accepts is served: page at least 1 and
      limit between 1 and 100, so the database never sees a negative window. */
  lemma AcceptedListQuery(
    posts: map<Id, Post>, users: map<Id, User>, disciplines: map<Id, Discipline>,
    q: ListQuery, viewer: Option<Role>)
    requires ListErrors(q) == []
    ensures var r := ListPosts(posts, users, disciplines, q, viewer);
      r.Ok? && r.value.pagination.page >= 1 && 1 <= r.value.pagination.limit <= LimitMax
  {
    AcceptedNumber(q.page, DefaultPage, 1);
    AcceptedNumber(q.limit, DefaultLimit, 1);
  }

  /** `searchPostsValidator`. */
  function SearchErrors(f: SearchQuery): (r: seq<ValidationError>)
    ensures r == [] <==>
      && (f.query.Some? ==> |Trim(f.query.value)| >= SearchTermMin)
      && (f.title.Some? ==> |Trim(f.title.value)| >= SearchTermMin)
      && (f.author.Some? ==> |Trim(f.author.value)| >= SearchTermMin)
      && ListErrors(ListQuery(f.page, f.limit)) == []
  {
    CheckPresent(f.query, |Trimmed(f.query)| >= SearchTermMin, "query", QueryShort)
    + CheckPresent(f.title, |Trimmed(f.title)| >= SearchTermMin, "title", TitleFilterShort)
    + CheckPresent(f.author, |Trimmed(f.author)| >= SearchTermMin, "author", AuthorShort)
    + ListErrors(ListQuery(f.page, f.limit))
  }

  function TrimPresent(v: Option<string>): Option<string>
  {
    if v.Some? then Some(Trim(v.value)) else None
  }

  /** The query after the chain's sanitizers. */
  function SanitizedSearch(f: SearchQuery): SearchQuery
  {
    SearchQuery(TrimPresent(f.query), TrimPresent(f.title), TrimPresent(f.author), f.page, f.limit)
  }

  /** A search the validator accepts is served, and every term it carries is
      applied as a filter: none is dropped as empty. */
  lemma AcceptedSearch(
    posts: map<Id, Post>, users: map<Id, User>, disciplines: map<Id, Discipline>,
    f: SearchQuery, viewer: Option<Role>)
    requires SearchErrors(f) == []
    ensures var g := SanitizedSearch(f);
      && SearchWhere(g, viewer) == Where(viewer != Some(Teacher), g.query, g.title, g.author)
      && SearchPosts(posts, users, disciplines, g, viewer).Ok?
  {
    AcceptedTerms(f, viewer);
    AcceptedSearchServed(posts, users, disciplines, f, viewer);
  }

  /** Accepted terms are non-empty after trimming, so each becomes a filter. */
  lemma AcceptedTerms(f: SearchQuery, viewer: Option<Role>)
    requires SearchErrors(f) == []
    ensures var g := SanitizedSearch(f);
      SearchWhere(g, viewer) == Where(viewer != Some(Teacher), g.query, g.title, g.author)
  {
    var g := SanitizedSearch(f);
    assert g.query.Some? ==> g.query.value != [];
    assert g.title.Some? ==> g.title.value != [];
    assert g.author.Some? ==> g.author.value != [];
  }

  /** An accepted page and limit are positive, so the search query succeeds. */
  lemma AcceptedSearchServed(
    posts: map<Id, Post>, users: map<Id, User>, disciplines: map<Id, Discipline>,
    f: SearchQuery, viewer: Option<Role>)
    requires SearchErrors(f) == []
    ensures SearchPosts(posts, users, disciplines, SanitizedSearch(f), viewer).Ok?
  {
    var g := SanitizedSearch(f);
    assert ListErrors(ListQuery(f.page, f.limit)) == [];
    AcceptedNumber(f.page, DefaultPage, 1);
    AcceptedNumber(f.limit, DefaultLimit, 1);
    var page := IntOr(g.page, DefaultPage);
    var size := IntOr(g.limit, DefaultLimit);
    assert page >= 1 && size >= 1;
    if Truthy(g.query).None? && Truthy(g.title).None? && Truthy(g.author).None? {
      assert SearchPosts(posts, users, disciplines, g, viewer)
          == Select(posts, users, disciplines, ListWhere(viewer), page, size);
    } else {
      assert SearchPosts(posts, users, disciplines, g, viewer)
          == Select(posts, users, disciplines, SearchWhere(g, viewer), page, size);
    }
  }
}
