/**
 The persisted state of the backend: the sequence row, the
 `assignmentDetails` collection keyed by its unique `uniqueNo` index, and the
 `loginDetails` collection keyed by its unique `email` index. Also the
 outcomes a request handler reports.
 */
module Store {
  import opened Wrappers
  import opened Sequence

  /** A due date, as the millisecond timestamp `Date.getTime()` yields */
  type Date = int

  /** The bcrypt cost factor used when a password is hashed */
  const SaltRounds: nat := 10

  /**
   A bcrypt digest, kept as a symbolic term standing for the hash of
   `secret` under `salt` with `rounds` cost. Only `compare` looks at a
   digest.
   */
  datatype Digest = Bcrypt(rounds: nat, salt: int, secret: string)

  /** An assignment document; an absent title or description is `None` */
  datatype Assignment = Assignment(
    title: Option<string>,
    description: Option<string>,
    dueDate: Date,
    uniqueNo: int)

  /** A user document; the password is stored only as a digest, if at all */
  datatype User = User(name: Option<string>, email: string, password: Option<Digest>)

  datatype State = State(
    counter: Counter,
    assignments: map<int, Assignment>,
    users: map<string, User>)

  /** What a handler reports back, stripped of HTTP status and wording */
  datatype Outcome =
    | Ok                        // plain success text
    | Record(doc: Assignment)   // a document sent back as JSON
    | InvalidDate
    | DuplicateNo
    | SaveFailed                // a save rejected by a unique index
    | NotFound
    | UserNotFound
    | InvalidCredentials
    | HashFailed                // bcrypt refused to hash a missing password
    | CompareFailed             // bcrypt refused a missing password or digest

  /** Outcomes that report success */
  predicate Succeeded(o: Outcome)
  {
    o.Ok? || o.Record?
  }

  /**
   Every document sits under the key its unique field holds, so the map
   keys are exactly the values of the unique indexes.
   */
  ghost predicate Wellformed(s: State)
  {
    && (forall k :: k in s.assignments ==> s.assignments[k].uniqueNo == k)
    && (forall e :: e in s.users ==> s.users[e].email == e)
  }

  /** The empty database, right after `initializeSequence` has run */
  function Boot(): (s: State)
    ensures Wellformed(s)
    ensures s.counter == Some(0) && s.assignments == map[] && s.users == map[]
  {
    State(InitializeSequence(None), map[], map[])
  }

  /** In a well-formed state no two stored assignments share a `uniqueNo`. */
  lemma NoTwoAssignmentsShareNo(s: State, k1: int, k2: int)
    requires Wellformed(s)
    requires k1 in s.assignments && k2 in s.assignments && k1 != k2
    ensures s.assignments[k1].uniqueNo != s.assignments[k2].uniqueNo
  {
  }

  /** In a well-formed state no two stored users share an email. */
  lemma NoTwoUsersShareEmail(s: State, e1: string, e2: string)
    requires Wellformed(s)
    requires e1 in s.users && e2 in s.users && e1 != e2
    ensures s.users[e1].email != s.users[e2].email
  {
  }

  /**
   Saving a new assignment document: the unique index on `uniqueNo` rejects
   it when a document with that number is already stored.
   */
  function SaveAssignment(s: State, a: Assignment): (r: (Outcome, State))
    ensures r.0 == SaveFailed <==> a.uniqueNo in s.assignments
    ensures r.0 == SaveFailed ==> r.1 == s
    ensures r.0 != SaveFailed ==> r.0 == Ok
    ensures r.0 == Ok ==> r.1 == s.(assignments := s.assignments[a.uniqueNo := a])
    ensures r.0 == Ok ==> |r.1.assignments| == |s.assignments| + 1
    ensures Wellformed(s) ==> Wellformed(r.1)
  {
    if a.uniqueNo in s.assignments then (SaveFailed, s)
    else (Ok, s.(assignments := s.assignments[a.uniqueNo := a]))
  }

  /**
   Saving a new user document: the unique index on `email` rejects it when
   a user with that email is already stored.
   */
  function SaveUser(s: State, u: User): (r: (Outcome, State))
    ensures r.0 == SaveFailed <==> u.email in s.users
    ensures r.0 == SaveFailed ==> r.1 == s
    ensures r.0 != SaveFailed ==> r.0 == Ok
    ensures r.0 == Ok ==> r.1 == s.(users := s.users[u.email := u])
    ensures r.0 == Ok ==> |r.1.users| == |s.users| + 1
    ensures Wellformed(s) ==> Wellformed(r.1)
  {
    if u.email in s.users then (SaveFailed, s)
    else (Ok, s.(users := s.users[u.email := u]))
  }
}
