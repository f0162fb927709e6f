/** Shared vocabulary of the blog API: identifiers, times, roles, post statuses,
    results and the error messages the services raise. */
module Common {

  /** Row identifiers are UUID strings. */
  type Id = string

  /** A point in time in milliseconds since the epoch, as a JavaScript Date holds it. */
  type Time = int

  /** A signed token as it travels in the Authorization header. */
  type Token = string

  datatype Option<+T> = None | Some(value: T)

  /** A key of a request body: left out (undefined) or given with a value. */
  datatype Field<+T> = Absent | Given(value: T)

  /** A thrown JavaScript Error. The controllers tell errors apart by their
      message, so the message is all the model keeps. */
  datatype Error = Error(message: string)

  datatype Result<+T> = Ok(value: T) | Err(error: Error)

  /** Completion of an operation that returns nothing. */
  datatype Outcome = Pass | Fail(error: Error)

  datatype Role = Teacher | Student

  datatype Status = Draft | Published | Archived

  function RoleName(r: Role): string
  {
    match r
    case Teacher => "TEACHER"
    case Student => "STUDENT"
  }

  function StatusName(s: Status): string
  {
    match s
    case Draft => "DRAFT"
    case Published => "PUBLISHED"
    case Archived => "ARCHIVED"
  }

  /** The status ENUM column accepts exactly the three upper-case names. */
  function ParseStatus(s: string): (r: Option<Status>)
    ensures r.Some? ==> StatusName(r.value) == s
    ensures (exists st :: StatusName(st) == s) ==> r.Some?
  {
    if s == "DRAFT" then Some(Draft)
    else if s == "PUBLISHED" then Some(Published)
    else if s == "ARCHIVED" then Some(Archived)
    else None
  }

  // Messages of the errors the services throw.
  const PostNotFound := "Post não encontrado"
  const TitleTooShort := "Título deve ter no mínimo 5 caracteres"
  const ContentTooShort := "Conteúdo deve ter no mínimo 10 caracteres"
  const EmailNotRegistered := "Email não cadastrado"

  // Rejections by the data store. Their wording belongs to the ORM and the
  // database; all that matters to the callers is that they differ from the
  // services' own messages.
  const ModelValidationFailed := "Validation error"
  const ForeignKeyViolated := "Foreign key constraint violated"
  const UniqueViolated := "Unique constraint violated"
  const NegativeWindow := "LIMIT and OFFSET must not be negative"
  const ValueTooLong := "value too long for type character varying(500)"
  const EmailTooLong := "value too long for type character varying(255)"

  // Messages the session model declares for its own constraints.
  const SessionTokenTaken := "Token de sessão já existe"
  const ExpiryInPast := "Data de expiração deve ser futura"

  function Min(a: int, b: int): int { if a <= b then a else b }
}
