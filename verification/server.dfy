/**
 The backend as a sequential state machine: a request is dispatched to its
 handler, and a run applies a sequence of requests in order.
 */
module Server {
  import opened Wrappers
  import opened Sequence
  import opened Store
  import opened Handlers

  datatype Request =
    | CreateAssignment(title: Option<string>, description: Option<string>, dueDate: Option<Date>, uniqueNo: Option<int>)
    | UpdateAssignment(no: int, title: Option<string>, description: Option<string>, newDueDate: DateField)
    | DeleteAssignment(no: int)
    | GetAssignment(no: int)
    | RegisterUser(name: Option<string>, email: string, password: Option<string>, salt: int)
    | LoginUser(email: string, password: Option<string>)

  /** True of a create request that takes the auto-allocation path */
  predicate DrawsNumber(req: Request)
  {
    req.CreateAssignment? && req.dueDate.Some? && req.uniqueNo.None?
  }

  /** One request handled against the state */
  function Step(s: State, req: Request, compare: (string, Digest) -> bool): (r: (Outcome, State))
    // the counter only moves on the auto path, and then by exactly one
    ensures DrawsNumber(req) ==> r.1.counter == Some(Current(s.counter) + 1)
    ensures !DrawsNumber(req) ==> r.1.counter == s.counter
    // a failed request leaves both collections as they were
    ensures !Succeeded(r.0) ==> r.1.assignments == s.assignments && r.1.users == s.users
    // ... and leaves the counter too, except an auto create the index rejects
    ensures !Succeeded(r.0) && !(DrawsNumber(req) && r.0.SaveFailed?) ==> r.1 == s
    ensures Wellformed(s) ==> Wellformed(r.1)
  {
    match req
    case CreateAssignment(title, description, dueDate, uniqueNo) =>
      Create(s, title, description, dueDate, uniqueNo)
    case UpdateAssignment(no, title, description, dueDate) =>
      Update(s, no, title, description, dueDate)
    case DeleteAssignment(no) => Delete(s, no)
    case GetAssignment(no) => Get(s, no)
    case RegisterUser(name, email, password, salt) => Register(s, name, email, password, salt)
    case LoginUser(email, password) => Login(s, email, password, compare)
  }

  /** The outcomes of a sequence of requests handled in order, and the final state */
  function Run(s: State, reqs: seq<Request>, compare: (string, Digest) -> bool): (r: (seq<Outcome>, State))
    ensures |r.0| == |reqs|
    decreases |reqs|
  {
    if reqs == [] then ([], s)
    else
      var (o, s1) := Step(s, reqs[0], compare);
      var (os, s2) := Run(s1, reqs[1..], compare);
      ([o] + os, s2)
  }

  /** The numbers `getNextUniqueNo` hands out during a run, in order */
  function Drawn(s: State, reqs: seq<Request>, compare: (string, Digest) -> bool): seq<int>
    decreases |reqs|
  {
    if reqs == [] then []
    else
      var s1 := Step(s, reqs[0], compare).1;
      (if DrawsNumber(reqs[0]) then [NextUniqueNo(s.counter).0] else []) + Drawn(s1, reqs[1..], compare)
  }

  /**
   A run from a well-formed state ends in a well-formed state, so the
   store never holds two assignments with the same `uniqueNo`, nor two
   users with the same email.
   */
  lemma {:induction false} RunPreservesWellformed(s: State, reqs: seq<Request>, compare: (string, Digest) -> bool)
    requires Wellformed(s)
    ensures Wellformed(Run(s, reqs, compare).1)
    decreases |reqs|
  {
    if reqs != [] {
      RunPreservesWellformed(Step(s, reqs[0], compare).1, reqs[1..], compare);
    }
  }

  /**
   The counter moves only through the allocator: after a run it has grown
   by exactly the number of values drawn, so it never decreases.
   */
  lemma {:induction false} RunCounter(s: State, reqs: seq<Request>, compare: (string, Digest) -> bool)
    ensures Current(Run(s, reqs, compare).1.counter) == Current(s.counter) + |Drawn(s, reqs, compare)|
    ensures Current(s.counter) <= Current(Run(s, reqs, compare).1.counter)
    decreases |reqs|
  {
    if reqs != [] {
      RunCounter(Step(s, reqs[0], compare).1, reqs[1..], compare);
    }
  }

  /**
   The values drawn during a run are consecutive, starting just above the
   counter's initial value; in particular no two are equal.
   */
  lemma {:induction false} DrawnAreConsecutive(s: State, reqs: seq<Request>, compare: (string, Digest) -> bool)
    ensures forall i :: 0 <= i < |Drawn(s, reqs, compare)| ==>
      Drawn(s, reqs, compare)[i] == Current(s.counter) + 1 + i
    decreases |reqs|
  {
    if reqs != [] {
      var s1 := Step(s, reqs[0], compare).1;
      DrawnAreConsecutive(s1, reqs[1..], compare);
    }
  }

  /** No number is handed out twice by the allocator during a run. */
  lemma DrawnAreDistinct(s: State, reqs: seq<Request>, compare: (string, Digest) -> bool)
    ensures var d := Drawn(s, reqs, compare);
      forall i, j :: 0 <= i < j < |d| ==> d[i] < d[j]
  {
    DrawnAreConsecutive(s, reqs, compare);
  }

  /**
   A run of `n` auto creates from a fresh database draws 1, 2, ..., n:
   the first draw returns 1 and the second 2.
   */
  lemma FreshRunDrawsFromOne(reqs: seq<Request>, compare: (string, Digest) -> bool)
    ensures forall i :: 0 <= i < |Drawn(Boot(), reqs, compare)| ==> Drawn(Boot(), reqs, compare)[i] == i + 1
  {
    DrawnAreConsecutive(Boot(), reqs, compare);
  }
}
