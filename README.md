# Educational blog API: posts, read receipts and sessions in Dafny

This project models the core of a REST API for an educational blog, in which
TEACHERs write posts and STUDENTs read them. It covers:

- **Posts** (`post_service.dfy`):
  - listing and search with role-dependent visibility, case-insensitive
    substring filters, newest-first order and page/limit pagination;
  - lookup by id;
  - create, partial update with first-publish stamping, and hard delete that
    cascades to read receipts.
- **Read receipts** (`post_read_service.dfy`): an idempotent "mark as read"
  and a lookup.
- **Sessions** (`auth_service.dfy`, `authenticate.dfy`):
  - passwordless login by e-mail, which signs a token and stores a 24-hour
    session;
  - logout;
  - the `authenticate` middleware, which checks the header, token, session and
    expiry in order and deletes an expired session.
- **Access guards** (`authorize.dfy`, `post_routes.dfy`): the role allow-list,
  `optionalAuth`, and the guard chain of each post route.
- **Controllers** (`post_controller.dfy`, `post_read_controller.dfy`,
  `auth_controller.dfy`): each service result or error mapped to an HTTP
  status and body.
- **Request validation** (`post_validator.dfy`, `validate.dfy`): the declared
  request validators as predicates, and the 400 error-list shaping.
- **Data model** (`models.dfy`): the field constraints and table invariants
  of the data model.

The database is a `Models.Db` object with one map per table, keyed by id.
`Db.Valid()` collects the table invariants:

- each row is stored under its own id;
- field constraints hold;
- foreign keys resolve;
- e-mails, session tokens and (post, user) read pairs are unique.

Each operation that writes changes only the fields named in its `modifies`
clause and keeps `Valid()`. Its `ensures` ties the result and the new table
to a pure step function of the old tables (`NewPostRow`, `PatchedRow`,
`MarkAsReadStep`, `LoginStep`, `AuthenticateStep`, `RunGuards`). The lemmas
state the properties of those step functions.

Other modelling choices:

- **Clock and fresh ids.** The clock is a `now: Time` parameter in
  milliseconds. Fresh UUIDs are parameters that must not already be in the
  table.
- **Token codec.** Signing and verification are function parameters
  (`Signer`, `Verifier`). The end-to-end lemmas require the hypothesis `AuthService.Sound`:
  - a token verifies to the payload it was signed over exactly while it is
    live, i.e. for 24 hours counted in whole seconds;
  - a token is non-empty and holds no space.
- **Errors.** An error is its message, because the controllers tell errors
  apart only by comparing messages.
- **Post status.** It is the enum `DRAFT | PUBLISHED | ARCHIVED` of the
  status migration. The `status_id` column still declared in
  `src/models/Post.js` is not modelled.

Where the code and its own documentation differ, the model follows the code:

- A create whose title or content is too short is answered 500, not 400.
- An update rejected by the store is answered 400.
- Logout is answered 204.
- The default page size is 20.
- The request validators are declared but no post route attaches them, so the
  services see raw query strings:
  - a negative `page` or `limit` reaches the database as a negative
    OFFSET/LIMIT and is answered 500 (`PostController.PageEdgeCases`);
  - no upper bound applies to `limit`.
- An update body may itself carry `published_at`, which is then written
  as given. The "never cleared" property therefore holds for bodies that do not
  carry that key.
- In the model, a token and its session are stamped with the same clock
  reading, so a login token always expires before its session does. The
  "Sessão expirada" reply is then unreachable with that token; such a request
  gets "Token inválido" instead (`Authentication.ExpiredLoginTokenIsInvalid`).

## Model

| member | source | states |
|---|---|---|
| `Common.ParseStatus` | src/database/migrations/20240102000001-replace-status-id-with-enum.js:42-46 | the status column accepts exactly the names DRAFT, PUBLISHED, ARCHIVED, and the parsed status prints back as the input |
| `Models.ExpiryBoundary` | src/models/UserSession.js:16-56 | a session is still valid at its expiry instant and expired one millisecond later; expiry is permanent; an expiry the write validator accepts is not yet expired |
| `Models.ReadsWithoutPost` | src/models/PostRead.js:30-39 | deleting a post removes exactly the read receipts of that post and keeps every other receipt unchanged |
| `Models.DeleteKeepsTablesWf` | src/services/post.service.js:163-172 | hard-deleting a post together with its receipts keeps the post and read-table invariants |
| `Models.IsExpired` | src/models/UserSession.js:16-18 | a session is expired exactly when its expiry would be refused on write at that instant, i.e. strictly after the expiry instant |
| `Models.NotBlankIffNotAllSpace` | src/models/Post.js:46-48 | `notEmpty` refuses exactly the strings made of whitespace alone, the empty string included |
| `Models.NewUserRow` | src/models/User.js:36-74 | a user row is accepted iff the name has 3 to 255 characters and is not blank, and the e-mail is not blank, passes `isEmail`, fits 255 characters and is not taken; role defaults to STUDENT; acceptance keeps e-mails unique |
| `Text.Trim` | src/validators/post.validator.js:10-12 | `trim` keeps a slice of the input with only whitespace before and after it; the slice is empty exactly for all-whitespace input and otherwise neither starts nor ends with whitespace |
| `Text.Split` | src/middlewares/authenticate.js:20 | `split(' ')` returns at least one piece, and no piece holds the separator |
| `Text.JoinSplit` | src/middlewares/authenticate.js:20 | joining the pieces of `split` with the separator gives back the input |
| `Authentication.BearerHeaderToken` | src/middlewares/authenticate.js:20 | the token of a `Bearer <token>` header is extracted unchanged |
| `Text.ParseInt` | src/services/post.service.js:22-23 | `parseInt` is NaN on blank input, non-negative on input starting with a non-zero digit, and negative only after a leading minus sign |
| `Text.ParseIntOfIntString` | src/services/post.service.js:22-23 | on every optionally signed decimal digit string, `parseInt` yields exactly its integer value |
| `PostService.IntOr` | src/services/post.service.js:22-23 | `parseInt(x) \|\| d`: the default whenever the input is absent, unparsable or zero, otherwise the parsed number; never zero for a non-zero default |
| `PostService.Enrich` | src/services/post.service.js:36-47 | the joined view keeps the post; it has an author iff the author row exists, and then it is that row's {id, name, role}; it has a discipline iff the post names one that exists, and then it is that row's {id, label} |
| `PostService.ListWhere` | src/services/post.service.js:27-33 | the listing's WHERE clause selects a row iff the viewer is a TEACHER or the post is PUBLISHED |
| `PostService.SearchWhere` | src/services/post.service.js:193-234 | the search keeps the listing's status filter and adds a query, title or author filter exactly when that term is a non-empty string, filtering by that term |
| `PostService.Matches` | src/services/post.service.js:197-234 | without search terms only the status filter applies; an author filter selects only posts with a joined author |
| `PostService.Rows` | src/services/post.service.js:26-33 | a view is selected iff it is the join of a stored post and passes the WHERE clause |
| `PostService.NewestFirst` | src/services/post.service.js:50 | the ordering holds each selected row exactly once, ordered by created_at descending |
| `PostService.CeilDiv` | src/services/post.service.js:56 | the page count is the least number of pages of `limit` rows that hold all rows |
| `PostService.Window` | src/services/post.service.js:50-52 | LIMIT/OFFSET keep consecutive rows from the offset on, at most `limit` of them, fewer only at the end |
| `PostService.Offset` | src/services/post.service.js:24 | with a positive limit the offset `(page-1)*limit` is non-negative exactly when page >= 1 |
| `PostService.Select` | src/services/post.service.js:36-66 | the query succeeds iff page >= 1 and limit > 0, otherwise the database's negative-window error; on success data is the window at `(page-1)*limit` of the ordered rows and pagination echoes page, limit, total and ceil(total/limit) |
| `PostService.SelectRows` | src/services/post.service.js:50-60 | every returned page is newest-first and holds only rows the WHERE clause selects |
| `PostService.ListPosts` | src/services/post.service.js:21-67 | a listing echoes the defaulted page and limit, is newest-first, and shows a non-TEACHER only PUBLISHED posts |
| `PostService.SearchPosts` | src/services/post.service.js:180-256 | a search echoes the defaulted page and limit, is newest-first, and returns only stored posts that are visible and pass every supplied filter |
| `PostService.SearchWithoutFiltersIsList` | src/services/post.service.js:184-187 | with no truthy query, title or author, search equals listing |
| `PostService.ListVisibility` | src/services/post.service.js:30-33 | a stored post is listed iff the viewer is a TEACHER or the post is PUBLISHED |
| `PostService.SearchSelection` | src/services/post.service.js:197-234 | a search selects a post iff it is visible, the query occurs in its title or content, the title filter in its title, and the author filter in its existing author's name, all ignoring case |
| `PostService.SearchNarrowsListing` | src/services/post.service.js:231-234 | a search never selects a row the listing hides from the same viewer |
| `PostService.RowOnItsPage` | src/services/post.service.js:22-24 | row i of the ordered rows appears on page i/limit+1 at position i%limit |
| `PostService.GetPostById` | src/services/post.service.js:74-95 | a post is found iff its id is stored, whatever its status, else "Post não encontrado" |
| `PostService.NewPostRow` | src/services/post.service.js:103-131 | the title is checked before the content; the row is accepted iff title 5..255 and not blank, content >= 10 and not blank, status name valid (absent or empty means DRAFT) and both references exist; it stores the caller as author and published_at = now iff the status given is PUBLISHED |
| `PostService.CreatePost` | src/services/post.service.js:103-131 | inserts exactly the row `NewPostRow` accepts (never a blank title or content) under the fresh id and returns its join, or returns the error and leaves the table unchanged; the database stays valid |
| `PostService.PatchedRow` | src/services/post.service.js:139-156 | only supplied fields change and only they are validated (a given title or content must fit its length and not be blank); the first move to PUBLISHED stamps now; an existing stamp is kept unless the body carries published_at; a changed row gets updated_at = now and a patch that changes no column returns the stored row, updated_at included |
| `PostService.UpdatePost` | src/services/post.service.js:139-156 | a missing id fails with "Post não encontrado" and changes nothing; otherwise the stored row becomes the row `PatchedRow` accepts (never a blank title or content), or nothing changes on rejection; the database stays valid |
| `PostService.DeletePost` | src/services/post.service.js:163-172 | a missing id fails and changes nothing; otherwise exactly that post and its receipts are removed; the database stays valid |
| `PostService.PublishThenArchive` | src/services/post.service.js:146-149 | publishing a draft stamps the time, and archiving it afterwards keeps that stamp |
| `PostReadService.FindRead` | src/services/postRead.service.js:18-20 | finds the receipt iff one exists for the (post, user) pair, and it is the only one |
| `PostReadService.MarkAsReadStep` | src/services/postRead.service.js:10-45 | a missing post fails and changes nothing; an existing receipt is returned and nothing changes; otherwise exactly one receipt for that post and user stamped now is added; the result is the stored record; the read invariants are kept |
| `PostReadService.MarkAsRead` | src/services/postRead.service.js:10-45 | the read table and the result are those of the step function; the database stays valid |
| `PostReadService.MarkAsReadIdempotent` | src/services/postRead.service.js:18-37 | a second mark returns the same receipt and leaves the table as the first left it |
| `PostReadService.CheckIfRead` | src/services/postRead.service.js:53-69 | read is true iff a receipt exists, and read_at is its time, null otherwise |
| `PostReadService.CheckAfterMark` | src/services/postRead.service.js:53-69 | after a successful mark, the check reports read with the receipt's time |
| `PostReadService.DeleteForgetsReads` | src/models/PostRead.js:30-39 | after the cascade, the check reports the deleted post as unread |
| `AuthService.SessionOutlivesToken` | src/services/auth.service.js:28-39 | while a token signed at t is live, the session expiring at t + 24h is not expired |
| `AuthService.FindUserByEmail` | src/services/auth.service.js:19 | finds the user iff one has exactly that e-mail |
| `AuthService.LoginStep` | src/services/auth.service.js:17-59 | an unknown e-mail fails with "Email não cadastrado" and creates nothing; success returns {id, name, email, role} and a token signed over {id, role, sessionId} and adds exactly one session holding that token and expiring now + 86400000 ms |
| `AuthService.Login` | src/services/auth.service.js:17-59 | the session table and the result are those of the step function; the database stays valid |
| `AuthService.Logout` | src/services/auth.service.js:66-70 | removes the session with that id if present and no other |
| `AuthService.TwoLogins` | src/services/auth.service.js:42-47 | a second login adds an independent session and leaves the first untouched |
| `Authentication.BearerToken` | src/middlewares/authenticate.js:20 | the token is the second space-separated word and holds no space |
| `Authentication.BearerTokenOf` | src/middlewares/authenticate.js:20-24 | any first word followed by a space and a space-free token yields that token, whatever words follow; the scheme is not checked |
| `Authentication.AuthenticateStep` | src/middlewares/authenticate.js:10-54 | no header or no token gives 401 "Token não fornecido"; a token that does not verify gives "Token inválido"; a token whose session is gone gives "Sessão inválida"; a token whose session has expired gives "Sessão expirada" and deletes that session; admission iff the token verifies to a session that exists and is not expired, with the identity taken from the token; every refusal is 401; the table changes only by dropping the expired session |
| `Authentication.Authenticate` | src/middlewares/authenticate.js:10-54 | the decision and the session table are those of the step function; the database stays valid |
| `Authentication.LoginThenAuthenticate` | src/middlewares/authenticate.js:27-50 | a login token, sent as a Bearer header while live, admits that user and session and changes no session |
| `Authentication.LogoutRevokes` | src/middlewares/authenticate.js:30-34 | after logout the same token is refused with "Sessão inválida" |
| `Authentication.ExpiredLoginTokenIsInvalid` | src/middlewares/authenticate.js:36-41 | a login token never draws "Sessão expirada"; once expired it draws "Token inválido" |
| `Authorization.Authorize` | src/middlewares/authorize.js:10-29 | no user gives 401 before any role check; a role outside the list gives 403 with the required and current roles; otherwise next |
| `Authorization.RoleDecides` | src/middlewares/authorize.js:18 | the decision depends on the role alone |
| `Validation.FieldOf` | src/middlewares/validate.js:15 | the field is the path when present and non-empty, else the param |
| `Validation.Entries` | src/middlewares/validate.js:14-17 | one {field, message} entry per error, in the same order |
| `Validation.Validate` | src/middlewares/validate.js:10-22 | next iff there are no errors, else 400 with the entries |
| `Validation.EntriesAppend` | src/middlewares/validate.js:14-17 | entries of concatenated error lists are the concatenated entries |
| `PostRoutes.Guards` | src/routes/post.routes.js:66-310 | list and search start with `optionalAuth`, every other route with `authenticate`; exactly create, update and delete add `authorize(['TEACHER'])` |
| `PostRoutes.OptionalAuthStep` | src/routes/post.routes.js:15-24 | no header means anonymous and no session change; a header means exactly authenticate |
| `PostRoutes.OptionalAuth` | src/routes/post.routes.js:18-23 | the decision and the session table are those of the step function |
| `PostRoutes.GuardStep` | src/routes/post.routes.js:204 | one middleware refuses only with 401 or 403, changes no session when it admits, and otherwise can only drop sessions |
| `PostRoutes.RunGuards` | src/routes/post.routes.js:204-206 | the chain stops at the first refusal, which is 401 or 403; an admitted request leaves every session as it was; no chain adds or alters a session; no guards admit the current user |
| `PostRoutes.RunChain` | src/routes/post.routes.js:66-312 | running the route's middlewares in order on the database gives the decision and session table of the guard fold |
| `PostRoutes.MutatingRoutesNeedTeacher` | src/routes/post.routes.js:204-312 | create, update and delete admit only an authenticated TEACHER |
| `PostRoutes.AnonymousRequests` | src/routes/post.routes.js:66-161 | without a header, list and search run anonymously and every other route is refused with "Token não fornecido" |
| `PostRoutes.StudentForbiddenToCreate` | src/routes/post.routes.js:161-206 | a logged-in STUDENT gets a post by id but is refused 403 on create, with required [TEACHER] and current STUDENT |
| `PostRoutes.ListingAcrossLogout` | src/routes/post.routes.js:15-24 | a TEACHER's token lists as that TEACHER, and after logout the same token is refused with 401 instead of being served anonymously |
| `PostController.ViewerRole` | src/controllers/post.controller.js:17 | the viewer role is the user's role, or none without a user |
| `PostController.ListingResponse` | src/controllers/post.controller.js:14-25 | 200 with the result; any error 500 with its message |
| `PostController.GetResponse` | src/controllers/post.controller.js:32-45 | 200 with the post; "Post não encontrado" 404; any other error 500 |
| `PostController.CreateResponse` | src/controllers/post.controller.js:55-63 | 201 with the post; any error 500 |
| `PostController.UpdateResponse` | src/controllers/post.controller.js:71-86 | 200 with the post; "Post não encontrado" 404; any other error 400 |
| `PostController.DeleteResponse` | src/controllers/post.controller.js:93-107 | 204 with an empty body; "Post não encontrado" 404; any other error 500 |
| `PostController.ShortTitleIs500` | src/controllers/post.controller.js:58-61 | a missing or short title on create is answered 500 with the service's message |
| `PostController.BlankTitleRefused` | src/models/Post.js:46-48 | a whitespace-only title is refused by `notEmpty`: a create is answered 500 and an update of an existing post 400 |
| `PostController.UpdateStatuses` | src/controllers/post.controller.js:76-84 | an update is answered 404 only for a missing post, 200 when the patch is accepted and 400 when it is rejected |
| `PostController.PageEdgeCases` | src/services/post.service.js:22-24 | page "-1" is answered 500 with the negative-window error; a zero page or limit falls back to its default |
| `PostReadController.MarkAsReadResponse` | src/controllers/postRead.controller.js:8-22 | 201 with the receipt; "Post não encontrado" 404; any other error 500 |
| `PostReadController.CheckIfReadResponse` | src/controllers/postRead.controller.js:28-38 | 200 with {read, read_at}; any error 500 |
| `PostReadController.RepeatMarkIs201` | src/controllers/postRead.controller.js:15 | marking twice is answered 201 both times with the same receipt |
| `PostReadController.MissingPostIs404` | src/controllers/postRead.controller.js:17-20 | marking a missing post is answered 404 and records nothing |
| `AuthController.LoginResponse` | src/controllers/auth.controller.js:17-30 | 200 with {user, token}; "Email não cadastrado" 404; any other error 500 |
| `AuthController.LogoutResponse` | src/controllers/auth.controller.js:37-48 | 204 with an empty body; any error 500 |
| `AuthController.LoginStatuses` | src/controllers/auth.controller.js:19-28 | an unknown e-mail is answered 404 and opens no session; a success is answered 200 with the token of the stored session |
| `PostValidator.CreateErrors` | src/validators/post.validator.js:9-34 | no errors iff trimmed title 5..255, trimmed content >= 10, status absent or a status name, discipline_id absent or a UUID; a missing title reports both the required and the length error |
| `PostValidator.StatusNameUpper` | src/validators/post.validator.js:24-28 | upper-casing an accepted status name changes nothing and the column accepts it |
| `PostValidator.AcceptedCreate` | src/validators/post.validator.js:9-34 | a sanitized accepted body passes every check of createPost and the post model; only missing author or discipline rows can fail it |
| `PostValidator.UpdateErrors` | src/validators/post.validator.js:40-65 | no errors iff the id is a UUID and each present field obeys its bound; an invalid id is reported first |
| `PostValidator.AcceptedUpdate` | src/validators/post.validator.js:40-65 | a sanitized accepted update passes the model's checks unless its discipline does not exist |
| `PostValidator.ListErrors` | src/validators/post.validator.js:87-99 | no errors iff page, when present, is an integer >= 1 and limit, when present, an integer in 1..100 |
| `PostValidator.AcceptedNumber` | src/validators/post.validator.js:88-98 | an accepted page or limit reaches the service as the integer it spells |
| `PostValidator.AcceptedListQuery` | src/validators/post.validator.js:87-99 | an accepted listing query is served with page >= 1 and limit in 1..100 |
| `PostValidator.SearchErrors` | src/validators/post.validator.js:105-135 | no errors iff each present term has trimmed length >= 2 and page and limit pass the listing checks |
| `PostValidator.AcceptedSearch` | src/validators/post.validator.js:105-135 | an accepted, sanitized search is served and applies every term it carries as a filter |

## Left out

- Signing and verifying tokens (`jsonwebtoken`) are not modelled. They are the parameters `Signer` and `Verifier`; what the model relies on is the hypothesis `AuthService.Sound`, not a proof.
- UUID generation is not modelled: fresh ids are parameters. `isUUID` is an abstract parameter of the validators.
- `isEmail` is an abstract parameter (`Models.EmailTest`) of `Models.NewUserRow`; `normalizeEmail` is not modelled. The auth request validator is not modelled because it consists entirely of those library calls.
- Store and connection failures are not modelled. Examples are a failed `session.destroy()` inside `authenticate` (which the code turns into "Token inválido"), and failing logout and `checkIfRead` calls. The 500 branches of the response functions exist, but no modelled service produces those errors.
- The wording of store rejections is not modelled. ORM validation, foreign-key, unique-index and column-length errors carry placeholder messages. They differ from "Post não encontrado" and "Email não cadastrado", and that difference is all the controllers test.
- `iLike` is modelled as ASCII case folding of a literal substring. Unicode case folding and the `%`/`_` wildcards inside search terms are not modelled.
- Ties among equal `created_at` values come back in an order the model leaves unspecified. `distinct` counting is not modelled.
- Only the keys title, content, discipline_id, status and published_at of an update body are modelled. Any other attribute key in the body (such as author_id) would also be written by the ORM.
- `null` and an absent key in a request body are not distinguished: both are `None`. Sanitizers applied to absent fields are not modelled.
- Query values that are arrays or numbers are not modelled. JavaScript's `parseInt` is modelled on strings with unbounded integers, without double-precision rounding.
- Concurrent requests are not modelled (the `markAsRead` and `login` check-then-insert races). Requests are sequential operations on the store.
- The `status_id` column and the post-status lookup table are not modelled: the enum migration replaced them.
- The disciplines service and routes, the read and auth routers, application wiring and the API documentation are not part of this model. The read-receipt routes are covered only through their handlers.
- `PostService.PatchedRow`: "published_at is never cleared" is stated only for update bodies that do not carry `published_at`, because the code writes any such key as given.
- `PostService.GetPostById`, `PostService.UpdatePost`, `PostService.DeletePost`, `PostReadService.MarkAsReadStep` and `PostReadService.CheckIfRead`: an id is any string, so a malformed id is answered as a missing row. In the code no validator checks the id, and the database rejects a non-UUID. The controllers then answer 500 for get, delete, mark-as-read and check-if-read, and 400 for update. The database's UUID syntax is not part of this model.
- `PostService.NewPostRow`, `PostService.PatchedRow`, `Models.NewUserRow` and the `PostValidator` checks: the model counts every length in characters (code points). The code counts in two ways. The title and content pre-checks of `createPost` (src/services/post.service.js:105 and :109) use JavaScript `length`, which counts UTF-16 code units, so a character outside the Basic Multilingual Plane counts twice there. The model `len` validators (src/models/Post.js:49-52 and 62-65, src/models/User.js:43) and every `isLength` of src/validators/post.validator.js count a surrogate pair once and do not count the variation selectors U+FE0E and U+FE0F. So the acceptance difference comes from the variation selectors: the model accepts a title of "abcd" followed by U+FE0F, which the code refuses as too short. A title of three non-BMP characters passes the pre-check in the code but is refused by the `len` validator, as in the model. UTF-16 encoding and variation selectors are not part of this model.
- `Authentication.ExpiredLoginTokenIsInvalid`: holds only because the model stamps the token and the session expiry with one clock reading. In the code the token is signed a few milliseconds after the expiry is computed.
