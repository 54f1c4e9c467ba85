/**
 Properties that relate several handler calls: inverses, idempotence,
 reads after writes, and the round trip between register and login.
 */
module Properties {
  import opened Wrappers
  import opened Sequence
  import opened Store
  import opened Handlers

  /** Deleting an assignment that a create just stored restores the store. */
  lemma {:induction false} DeleteUndoesCreate(s: State, title: Option<string>, description: Option<string>, dueDate: Option<Date>, no: int)
    requires Create(s, title, description, dueDate, Some(no)).0.Ok?
    ensures Delete(Create(s, title, description, dueDate, Some(no)).1, no).0.Ok?
    ensures Delete(Create(s, title, description, dueDate, Some(no)).1, no).1 == s
  {
  }

  /** A get right after a successful create returns exactly what was stored. */
  lemma GetAfterCreate(s: State, title: Option<string>, description: Option<string>, dueDate: Option<Date>, uniqueNo: Option<int>)
    requires Create(s, title, description, dueDate, uniqueNo).0.Ok?
    ensures var no := uniqueNo.GetOr(Current(s.counter) + 1);
      Get(Create(s, title, description, dueDate, uniqueNo).1, no).0
        == Record(Assignment(title, description, dueDate.value, no))
  {
  }

  /** A get after a successful delete of the same number finds nothing. */
  lemma GetAfterDelete(s: State, no: int)
    ensures Get(Delete(s, no).1, no).0 == NotFound
  {
  }

  /** A get after an update returns the document the update reported. */
  lemma GetAfterUpdate(s: State, no: int, title: Option<string>, description: Option<string>, dueDate: DateField)
    requires Update(s, no, title, description, dueDate).0.Record?
    ensures Get(Update(s, no, title, description, dueDate).1, no).0
      == Update(s, no, title, description, dueDate).0
  {
  }

  /** Applying the same partial update twice is the same as applying it once. */
  lemma UpdateIdempotent(s: State, no: int, title: Option<string>, description: Option<string>, dueDate: DateField)
    ensures var s1 := Update(s, no, title, description, dueDate).1;
      Update(s1, no, title, description, dueDate) == (Update(s, no, title, description, dueDate).0, s1)
  {
    var r1 := Update(s, no, title, description, dueDate);
    if r1.0.Record? {
      var r2 := Update(r1.1, no, title, description, dueDate);
      assert r2.0.doc == r1.0.doc;
      assert r2.1.assignments == r1.1.assignments;
    }
  }

  /** An update that supplies no field leaves the store as it was. */
  lemma EmptyUpdateChangesNothing(s: State, no: int)
    requires no in s.assignments
    ensures Update(s, no, None, None, Omitted) == (Record(s.assignments[no]), s)
  {
    var r := Update(s, no, None, None, Omitted);
    assert r.1.assignments == s.assignments;
  }

  /**
   An update that supplies only a title keeps the description and the due
   date of the stored document.
   */
  lemma TitleOnlyUpdateKeepsOtherFields(s: State, no: int, title: string)
    requires no in s.assignments
    ensures var doc := Update(s, no, Some(title), None, Omitted).0.doc;
      && doc.title == Some(title)
      && doc.description == s.assignments[no].description
      && doc.dueDate == s.assignments[no].dueDate
  {
  }

  /**
   Two creates with the same explicit number and a valid date: the second
   is always refused as a duplicate, and changes nothing.
   */
  lemma ExplicitNumberTwice(s: State, t1: Option<string>, d1: Option<string>, t2: Option<string>, d2: Option<string>, date1: Date, date2: Date, no: int)
    ensures var s1 := Create(s, t1, d1, Some(date1), Some(no)).1;
      Create(s1, t2, d2, Some(date2), Some(no)) == (DuplicateNo, s1)
  {
  }

  /**
   A create with an explicit number does not change the number that the
   next auto create draws.
   */
  lemma ExplicitDoesNotShiftAuto(s: State, title: Option<string>, description: Option<string>, date: Date, no: int)
    ensures var s1 := Create(s, title, description, Some(date), Some(no)).1;
      NextUniqueNo(s1.counter).0 == NextUniqueNo(s.counter).0
  {
  }

  /**
   Registering and then logging in with the same password succeeds,
   provided bcrypt accepts a password against its own digest; a password
   bcrypt does not accept against that digest gives `InvalidCredentials`.
   */
  lemma RegisterThenLogin(s: State, name: Option<string>, email: string, password: string, salt: int, attempt: string, compare: (string, Digest) -> bool)
    requires email !in s.users
    ensures var s1 := Register(s, name, email, Some(password), salt).1;
      && (compare(password, Bcrypt(SaltRounds, salt, password)) ==> Login(s1, email, Some(password), compare).0 == Ok)
      && (!compare(attempt, Bcrypt(SaltRounds, salt, password)) ==> Login(s1, email, Some(attempt), compare).0 == InvalidCredentials)
  {
  }

  /**
   A second registration with the same email fails and changes nothing
   when the first one stored a user; when the first had no password it
   stored nothing, and the second behaves as if it came first.
   */
  lemma RegisterTwice(s: State, n1: Option<string>, n2: Option<string>, email: string, p1: Option<string>, p2: Option<string>, salt1: int, salt2: int)
    ensures var s1 := Register(s, n1, email, p1, salt1).1;
      && (p1.Some? && p2.Some? ==> Register(s1, n2, email, p2, salt2) == (SaveFailed, s1))
      && (p1.None? ==> Register(s1, n2, email, p2, salt2) == Register(s, n2, email, p2, salt2))
  {
  }

  /**
   A registration without a password fails in the hashing hook and stores
   nothing, so a later login for a new email finds no user.
   */
  lemma RegisterWithoutPasswordFails(s: State, name: Option<string>, email: string, salt: int, attempt: Option<string>, compare: (string, Digest) -> bool)
    requires email !in s.users
    ensures Register(s, name, email, None, salt) == (HashFailed, s)
    ensures Login(Register(s, name, email, None, salt).1, email, attempt, compare).0 == UserNotFound
  {
  }
}
