/**
 The route handlers of the backend, each a pure transition from a state and
 the request's inputs to an outcome and the next state. Each handler is one
 sequential, atomic step.
 */
module Handlers {
  import opened Wrappers
  import opened Sequence
  import opened Store

  /**
   The `dueDate` of an update request: `Omitted` when the body's value is
   falsy, else the result of parsing it.
   */
  datatype DateField = Omitted | Parsed(date: Date) | Unparsable

  /** A field an update overwrites only when the request supplies it */
  function Overwrite<T>(current: Option<T>, supplied: Option<T>): Option<T>
  {
    if supplied.Some? then supplied else current
  }

  /**
   `POST /assignments`. `dueDate` is the parsed date, `None` when it does
   not parse; `uniqueNo` is `None` when the body leaves it undefined.
   */
  function Create(
    s: State,
    title: Option<string>,
    description: Option<string>,
    dueDate: Option<Date>,
    uniqueNo: Option<int>
  ): (r: (Outcome, State))
    ensures r.1.users == s.users
    // an unparsable date is rejected before anything is allocated
    ensures dueDate.None? ==> r == (InvalidDate, s)
    ensures r.0 == InvalidDate <==> dueDate.None?
    // the explicit path never reads or advances the counter
    ensures uniqueNo.Some? ==> r.1.counter == s.counter
    // the auto path advances the counter, whether or not the save succeeds
    ensures dueDate.Some? && uniqueNo.None? ==> r.1.counter == Some(Current(s.counter) + 1)
    ensures r.0 == DuplicateNo <==> dueDate.Some? && uniqueNo.Some? && uniqueNo.value in s.assignments
    ensures r.0 == SaveFailed <==> dueDate.Some? && uniqueNo.None? && Current(s.counter) + 1 in s.assignments
    ensures r.0.Ok? || r.0.InvalidDate? || r.0.DuplicateNo? || r.0.SaveFailed?
    ensures !r.0.Ok? ==> r.1.assignments == s.assignments
    ensures r.0.Ok? && uniqueNo.Some? ==>
      && uniqueNo.value !in s.assignments
      && r.1.assignments == s.assignments[uniqueNo.value := Assignment(title, description, dueDate.value, uniqueNo.value)]
    ensures r.0.Ok? && uniqueNo.None? ==>
      && Current(s.counter) + 1 !in s.assignments
      && r.1.assignments == s.assignments[Current(s.counter) + 1 := Assignment(title, description, dueDate.value, Current(s.counter) + 1)]
    ensures Wellformed(s) ==> Wellformed(r.1)
  {
    if dueDate.None? then (InvalidDate, s)
    else
      match uniqueNo
      case None =>
        var (no, counter') := NextUniqueNo(s.counter);
        SaveAssignment(s.(counter := counter'), Assignment(title, description, dueDate.value, no))
      case Some(no) =>
        if no in s.assignments then (DuplicateNo, s)
        else SaveAssignment(s, Assignment(title, description, dueDate.value, no))
  }

  /**
   `PUT /assignments/:uniqueNo`: a partial update. A supplied title or
   description (`Some`) and a parsed date overwrite; the rest stay.
   */
  function Update(
    s: State,
    no: int,
    title: Option<string>,
    description: Option<string>,
    dueDate: DateField
  ): (r: (Outcome, State))
    ensures r.1.counter == s.counter && r.1.users == s.users
    // a supplied date that does not parse is rejected before the lookup
    ensures dueDate.Unparsable? ==> r == (InvalidDate, s)
    ensures r.0 == InvalidDate <==> dueDate.Unparsable?
    ensures r.0 == NotFound <==> !dueDate.Unparsable? && no !in s.assignments
    ensures r.0 == NotFound ==> r.1 == s
    ensures r.0.InvalidDate? || r.0.NotFound? || r.0.Record?
    ensures r.0.Record? ==>
      && no in s.assignments
      && r.1.assignments.Keys == s.assignments.Keys
      && r.1.assignments[no] == r.0.doc
      && r.0.doc.uniqueNo == s.assignments[no].uniqueNo
      && r.0.doc.title == (if title.Some? then title else s.assignments[no].title)
      && r.0.doc.description == (if description.Some? then description else s.assignments[no].description)
      && r.0.doc.dueDate == (if dueDate.Parsed? then dueDate.date else s.assignments[no].dueDate)
      && (forall k :: k in s.assignments && k != no ==> r.1.assignments[k] == s.assignments[k])
    ensures Wellformed(s) ==> Wellformed(r.1)
  {
    if dueDate.Unparsable? then (InvalidDate, s)
    else if no !in s.assignments then (NotFound, s)
    else
      var a := s.assignments[no];
      var a' := a.(
        title := Overwrite(a.title, title),
        description := Overwrite(a.description, description),
        dueDate := if dueDate.Parsed? then dueDate.date else a.dueDate);
      (Record(a'), s.(assignments := s.assignments[no := a']))
  }

  /** `DELETE /assignments/:uniqueNo` */
  function Delete(s: State, no: int): (r: (Outcome, State))
    ensures r.1.counter == s.counter && r.1.users == s.users
    ensures r.0 == NotFound <==> no !in s.assignments
    ensures r.0 == NotFound ==> r.1 == s
    ensures r.0.Ok? || r.0.NotFound?
    ensures r.0.Ok? ==>
      && r.1.assignments.Keys == s.assignments.Keys - {no}
      && |r.1.assignments| == |s.assignments| - 1
      && (forall k :: k in r.1.assignments ==> r.1.assignments[k] == s.assignments[k])
    ensures Wellformed(s) ==> Wellformed(r.1)
  {
    if no !in s.assignments then (NotFound, s)
    else (Ok, s.(assignments := s.assignments - {no}))
  }

  /** `GET /assignments/:uniqueNo` */
  function Get(s: State, no: int): (r: (Outcome, State))
    ensures r.1 == s
    ensures r.0 == NotFound <==> no !in s.assignments
    ensures r.0.Record? <==> no in s.assignments
    ensures r.0.Record? ==> r.0.doc == s.assignments[no]
  {
    if no !in s.assignments then (NotFound, s)
    else (Record(s.assignments[no]), s)
  }

  /**
   `POST /register`. The pre-save hook hashes the password of the new
   document under the random `salt`; an undefined password is still marked
   modified, bcrypt refuses to hash it, and the save fails before the
   insert, so that refusal wins over a taken email.
   */
  function Register(
    s: State,
    name: Option<string>,
    email: string,
    password: Option<string>,
    salt: int
  ): (r: (Outcome, State))
    ensures r.1.counter == s.counter && r.1.assignments == s.assignments
    ensures r.0 == HashFailed <==> password.None?
    ensures r.0 == SaveFailed <==> password.Some? && email in s.users
    ensures r.0 == Ok <==> password.Some? && email !in s.users
    ensures r.0.Ok? || r.0.SaveFailed? || r.0.HashFailed?
    ensures !r.0.Ok? ==> r.1 == s
    ensures r.0.Ok? ==>
      && r.1.users.Keys == s.users.Keys + {email}
      && r.1.users[email] == User(name, email, Some(Bcrypt(SaltRounds, salt, password.value)))
      && (forall e :: e in s.users ==> r.1.users[e] == s.users[e])
    ensures Wellformed(s) ==> Wellformed(r.1)
  {
    if password.None? then (HashFailed, s)
    else SaveUser(s, User(name, email, Some(Bcrypt(SaltRounds, salt, password.value))))
  }

  /**
   `POST /login`. `compare` stands for `bcrypt.compare` of a password
   against a stored digest; bcrypt rejects a missing password or digest.
   */
  function Login(
    s: State,
    email: string,
    password: Option<string>,
    compare: (string, Digest) -> bool
  ): (r: (Outcome, State))
    ensures r.1 == s
    ensures r.0 == UserNotFound <==> email !in s.users
    ensures r.0 == CompareFailed <==>
      email in s.users && (password.None? || s.users[email].password.None?)
    ensures r.0 == InvalidCredentials <==>
      && email in s.users && password.Some? && s.users[email].password.Some?
      && !compare(password.value, s.users[email].password.value)
    ensures r.0 == Ok <==>
      && email in s.users && password.Some? && s.users[email].password.Some?
      && compare(password.value, s.users[email].password.value)
    ensures r.0.Ok? || r.0.UserNotFound? || r.0.CompareFailed? || r.0.InvalidCredentials?
  {
    if email !in s.users then (UserNotFound, s)
    else
      var stored := s.users[email].password;
      if password.None? || stored.None? then (CompareFailed, s)
      else if !compare(password.value, stored.value) then (InvalidCredentials, s)
      else (Ok, s)
  }
}
