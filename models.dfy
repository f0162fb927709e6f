/** The five tables of the blog's database, their records, the constraints the
    models declare on each field, and the database object that holds them. */
module Models {
  import opened Common
  import opened Text

  datatype User = User(id: Id, name: string, email: string, role: Role)

  /** Reference data, read by this core only through the post join. */
  datatype Discipline = Discipline(id: Id, labelText: string)

  datatype Post = Post(
    id: Id,
    title: string,
    content: string,
    authorId: Id,
    disciplineId: Option<Id>,
    status: Status,
    publishedAt: Option<Time>,
    createdAt: Time,
    updatedAt: Time)

  /** A read receipt; it carries no created/updated timestamps. */
  datatype PostRead = PostRead(id: Id, postId: Id, userId: Id, readAt: Time)

  datatype Session = Session(id: Id, userId: Id, token: Token, expiresAt: Time, createdAt: Time)

  const TitleMin := 5
  const TitleMax := 255
  const ContentMin := 10
  const NameMin := 3
  const NameMax := 255
  const EmailMax := 255

  /** `notEmpty`: some character is not whitespace, so neither the empty
      string nor a run of blanks passes. */
  predicate NotBlank(s: string)
  {
    SkipSpace(s, 0) < |s|
  }

  /** `notEmpty` refuses exactly the strings made of whitespace alone. */
  lemma NotBlankIffNotAllSpace(s: string)
    ensures NotBlank(s) <==> !AllSpace(s)
  {
    var j := SkipSpace(s, 0);
    if j < |s| {
      assert !IsSpace(s[j]);
    }
  }

  /** Post title: required, not blank, 5 to 255 characters; content: required,
      not blank, at least 10 characters. */
  predicate PostWf(p: Post)
  {
    NotBlank(p.title) && TitleMin <= |p.title| <= TitleMax && NotBlank(p.content) && |p.content| >= ContentMin
  }

  /** User name: required, not blank, 3 to 255 characters; email required and
      not blank. */
  predicate UserWf(u: User)
  {
    NotBlank(u.name) && NameMin <= |u.name| <= NameMax && NotBlank(u.email)
  }

  /** Discipline label: required, not blank, 2 to 100 characters. */
  predicate DisciplineWf(d: Discipline)
  {
    NotBlank(d.labelText) && 2 <= |d.labelText| <= 100
  }

  /** `isExpired()`: the current time is strictly after the expiry. A session
      is expired exactly when the write validator would refuse its expiry now. */
  predicate IsExpired(s: Session, now: Time)
    ensures IsExpired(s, now) <==> !ExpiryAccepted(s.expiresAt, now)
  {
    now > s.expiresAt
  }

  /** The write-time validator on `expires_at` refuses a time strictly before now. */
  predicate ExpiryAccepted(expiresAt: Time, now: Time)
  {
    !(expiresAt < now)
  }

  /** A session is still valid at its expiry instant and expired one
      millisecond later, and once expired it stays expired. */
  lemma ExpiryBoundary(s: Session, t: Time, t': Time)
    ensures !IsExpired(s, s.expiresAt) && IsExpired(s, s.expiresAt + 1)
    ensures IsExpired(s, t) && t <= t' ==> IsExpired(s, t')
    ensures ExpiryAccepted(s.expiresAt, t) ==> !IsExpired(s, t)
  {
  }

  // Table invariants: every row is stored under its own id, satisfies its
  // field constraints, and references rows that exist; unique columns are unique.

  ghost predicate UsersWf(users: map<Id, User>)
  {
    && (forall k :: k in users ==> users[k].id == k && UserWf(users[k]))
    && (forall a, b :: a in users && b in users && users[a].email == users[b].email ==> a == b)
  }

  ghost predicate DisciplinesWf(disciplines: map<Id, Discipline>)
  {
    && (forall k :: k in disciplines ==> disciplines[k].id == k && DisciplineWf(disciplines[k]))
    && (forall a, b :: a in disciplines && b in disciplines && disciplines[a].labelText == disciplines[b].labelText ==> a == b)
  }

  /** A post's author exists and its discipline is null or exists. */
  predicate RefsOk(p: Post, users: map<Id, User>, disciplines: map<Id, Discipline>)
  {
    p.authorId in users && (p.disciplineId.Some? ==> p.disciplineId.value in disciplines)
  }

  ghost predicate PostsWf(posts: map<Id, Post>, users: map<Id, User>, disciplines: map<Id, Discipline>)
  {
    forall k :: k in posts ==> posts[k].id == k && PostWf(posts[k]) && RefsOk(posts[k], users, disciplines)
  }

  predicate SamePair(a: PostRead, b: PostRead)
  {
    a.postId == b.postId && a.userId == b.userId
  }

  /** The unique index on (post_id, user_id). */
  ghost predicate PairsUnique(postReads: map<Id, PostRead>)
  {
    forall a, b :: a in postReads && b in postReads && SamePair(postReads[a], postReads[b]) ==> a == b
  }

  /** Reads reference an existing post and user, and (post_id, user_id) is unique. */
  ghost predicate ReadsWf(postReads: map<Id, PostRead>, posts: map<Id, Post>, users: map<Id, User>)
  {
    && (forall k :: k in postReads ==> postReads[k].id == k && postReads[k].postId in posts && postReads[k].userId in users)
    && PairsUnique(postReads)
  }

  /** Sessions reference an existing user, and session tokens are unique. */
  ghost predicate SessionsWf(sessions: map<Id, Session>, users: map<Id, User>)
  {
    && (forall k :: k in sessions ==> sessions[k].id == k && sessions[k].userId in users)
    && (forall a, b :: a in sessions && b in sessions && sessions[a].token == sessions[b].token ==> a == b)
  }

  /** The read table after its post is hard-deleted: `ON DELETE CASCADE`
      removes exactly the reads of that post. */
  function ReadsWithoutPost(postReads: map<Id, PostRead>, postId: Id): (r: map<Id, PostRead>)
    ensures forall k :: k in r <==> k in postReads && postReads[k].postId != postId
    ensures forall k :: k in r ==> r[k] == postReads[k]
  {
    map k | k in postReads && postReads[k].postId != postId :: postReads[k]
  }

  /** Deleting a post together with its reads keeps every table invariant. */
  lemma {:induction false} DeleteKeepsTablesWf(
    posts: map<Id, Post>, users: map<Id, User>, disciplines: map<Id, Discipline>,
    postReads: map<Id, PostRead>, id: Id)
    requires PostsWf(posts, users, disciplines) && ReadsWf(postReads, posts, users)
    ensures PostsWf(posts - {id}, users, disciplines)
    ensures ReadsWf(ReadsWithoutPost(postReads, id), posts - {id}, users)
  {
    var r := ReadsWithoutPost(postReads, id);
    forall k | k in r
      ensures r[k].postId in posts - {id}
    {
      assert r[k] == postReads[k];
    }
  }

  /** `isEmail`, a library predicate kept abstract. */
  type EmailTest = string -> bool

  /** `User.create` as the model declares it: a name of 3 to 255 characters,
      not blank, a non-blank e-mail that passes `isEmail`, fits its 255-character column and is not
      yet taken, and role STUDENT unless one is given. */
  function NewUserRow(users: map<Id, User>, isEmail: EmailTest, id: Id, name: string, email: string, role: Option<Role>)
    : (r: Result<User>)
    requires id !in users
    ensures r.Ok? ==> r.value.role == (if role.Some? then role.value else Student)
    ensures r.Ok? ==> r.value.id == id && r.value.name == name && r.value.email == email
    ensures r.Ok? <==>
      && NotBlank(name) && NameMin <= |name| <= NameMax && NotBlank(email) && isEmail(email) && |email| <= EmailMax
      && forall k :: k in users ==> users[k].email != email
    ensures UsersWf(users) && r.Ok? ==> UsersWf(users[id := r.value])
  {
    if !(NotBlank(name) && NameMin <= |name| <= NameMax && NotBlank(email) && isEmail(email)) then Err(Error(ModelValidationFailed))
    else if |email| > EmailMax then Err(Error(EmailTooLong))
    else if exists k :: k in users && users[k].email == email then Err(Error(UniqueViolated))
    else Ok(User(id, name, email, if role.Some? then role.value else Student))
  }

  /** The database: one map per table, keyed by id. */
  class Db {
    var users: map<Id, User>
    var disciplines: map<Id, Discipline>
    var posts: map<Id, Post>
    var postReads: map<Id, PostRead>
    var sessions: map<Id, Session>

    ghost predicate Valid()
      reads this
    {
      && UsersWf(users)
      && DisciplinesWf(disciplines)
      && PostsWf(posts, users, disciplines)
      && ReadsWf(postReads, posts, users)
      && SessionsWf(sessions, users)
    }

    /** A database seeded with users and disciplines and no posts, reads or sessions. */
    constructor (users: map<Id, User>, disciplines: map<Id, Discipline>)
      requires UsersWf(users) && DisciplinesWf(disciplines)
      ensures Valid()
      ensures this.users == users && this.disciplines == disciplines
      ensures posts == map[] && postReads == map[] && sessions == map[]
    {
      this.users := users;
      this.disciplines := disciplines;
      posts := map[];
      postReads := map[];
      sessions := map[];
    }
  }
}
