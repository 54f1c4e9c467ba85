/**
 The explicit-number path of `POST /assignments` never advances the
 counter, so an explicit number just above it makes a later auto create
 collide on the unique index. This module exhibits that collision for the
 handler as written, and proves that a create which bumps the counter to
 at least every explicit number never collides on the auto path.
 */
module Reconciled {
  import opened Wrappers
  import opened Sequence
  import opened Store
  import opened Handlers
  import opened Server

  /** Every stored number is at most the counter: the next draw is unused */
  ghost predicate Synced(s: State)
  {
    forall k :: k in s.assignments ==> k <= Current(s.counter)
  }

  /**
   As written: storing the number just above the counter explicitly makes
   the next auto create fail on the unique index, although it still
   consumes that number from the counter.
   */
  lemma ManualNumberBlocksAuto(s: State, date: Date, title: Option<string>, description: Option<string>)
    requires Current(s.counter) + 1 !in s.assignments
    ensures var s1 := Handlers.Create(s, title, description, Some(date), Some(Current(s.counter) + 1));
      && s1.0 == Ok
      && Handlers.Create(s1.1, title, description, Some(date), None).0 == SaveFailed
      && Handlers.Create(s1.1, title, description, Some(date), None).1.counter == Some(Current(s.counter) + 1)
  {
  }

  /** The same collision from a freshly booted, empty database. */
  lemma FreshDatabaseCollision(date: Date)
    ensures var s1 := Handlers.Create(Boot(), None, None, Some(date), Some(1)).1;
      && Synced(Boot())
      && !Synced(s1)
      && Handlers.Create(s1, None, None, Some(date), None).0 == SaveFailed
  {
  }

  /** The counter value after an explicit number has been stored */
  function BumpTo(c: Counter, no: int): (r: Counter)
    ensures r.Some?
    ensures Current(c) <= Current(r) && no <= Current(r)
    ensures Current(r) == Current(c) || Current(r) == no
  {
    if no > Current(c) then Some(no) else Some(Current(c))
  }

  /**
   `POST /assignments` with the counter bumped to at least the explicit
   number once that number is stored; otherwise as written.
   */
  function Create(
    s: State,
    title: Option<string>,
    description: Option<string>,
    dueDate: Option<Date>,
    uniqueNo: Option<int>
  ): (r: (Outcome, State))
    ensures r.1.users == s.users
    ensures dueDate.None? ==> r == (InvalidDate, s)
    ensures r.0 == InvalidDate <==> dueDate.None?
    ensures r.0 == DuplicateNo <==> dueDate.Some? && uniqueNo.Some? && uniqueNo.value in s.assignments
    ensures r.0.Ok? || r.0.InvalidDate? || r.0.DuplicateNo? || r.0.SaveFailed?
    ensures !r.0.Ok? ==> r.1.assignments == s.assignments
    ensures Current(s.counter) <= Current(r.1.counter)
    // the explicit path: a refusal changes nothing, a stored number bumps the counter
    ensures uniqueNo.Some? && !r.0.Ok? ==> r.1 == s
    ensures uniqueNo.Some? && r.0.Ok? ==> r.1.counter == BumpTo(s.counter, uniqueNo.value)
    // the auto path draws exactly as the handler as written does
    ensures uniqueNo.None? && dueDate.Some? ==> r.1.counter == Some(Current(s.counter) + 1)
    // the intended property: in a synced state the auto path never collides
    ensures Synced(s) ==> r.0 != SaveFailed
    ensures Synced(s) ==> Synced(r.1)
    ensures Wellformed(s) ==> Wellformed(r.1)
  {
    if dueDate.None? then (InvalidDate, s)
    else
      match uniqueNo
      case None => Handlers.Create(s, title, description, dueDate, None)
      case Some(no) =>
        if no in s.assignments then (DuplicateNo, s)
        else SaveAssignment(s.(counter := BumpTo(s.counter, no)), Assignment(title, description, dueDate.value, no))
  }

  /**
   The correction changes only the counter on the explicit path: the
   outcome and both collections are those of the handler as written.
   */
  lemma AgreesWithHandler(s: State, title: Option<string>, description: Option<string>, dueDate: Option<Date>, uniqueNo: Option<int>)
    ensures Create(s, title, description, dueDate, uniqueNo).0 == Handlers.Create(s, title, description, dueDate, uniqueNo).0
    ensures Create(s, title, description, dueDate, uniqueNo).1.assignments == Handlers.Create(s, title, description, dueDate, uniqueNo).1.assignments
    ensures uniqueNo.None? ==> Create(s, title, description, dueDate, uniqueNo) == Handlers.Create(s, title, description, dueDate, uniqueNo)
  {
  }

  /** One request, with creates handled by the reconciled create */
  function Step(s: State, req: Request, compare: (string, Digest) -> bool): (r: (Outcome, State))
    ensures Synced(s) ==> Synced(r.1)
    ensures Synced(s) && req.CreateAssignment? ==> r.0 != SaveFailed
    ensures Wellformed(s) ==> Wellformed(r.1)
  {
    match req
    case CreateAssignment(title, description, dueDate, uniqueNo) =>
      Create(s, title, description, dueDate, uniqueNo)
    case _ => Server.Step(s, req, compare)
  }

  /** The outcomes of a sequence of requests under the reconciled create */
  function Run(s: State, reqs: seq<Request>, compare: (string, Digest) -> bool): (r: (seq<Outcome>, State))
    ensures |r.0| == |reqs|
    ensures Synced(s) ==> Synced(r.1)
    decreases |reqs|
  {
    if reqs == [] then ([], s)
    else
      var (o, s1) := Step(s, reqs[0], compare);
      var (os, s2) := Run(s1, reqs[1..], compare);
      ([o] + os, s2)
  }

  /**
   From a synced state, whatever the mix of explicit and automatic
   numbers, no create in the run is rejected by the unique index.
   */
  lemma {:induction false} NoCreateCollides(s: State, reqs: seq<Request>, compare: (string, Digest) -> bool)
    requires Synced(s)
    ensures forall i :: 0 <= i < |reqs| && reqs[i].CreateAssignment? ==> Run(s, reqs, compare).0[i] != SaveFailed
    decreases |reqs|
  {
    if reqs != [] {
      var s1 := Step(s, reqs[0], compare).1;
      NoCreateCollides(s1, reqs[1..], compare);
      var os := Run(s, reqs, compare).0;
      forall i | 0 <= i < |reqs| && reqs[i].CreateAssignment?
        ensures os[i] != SaveFailed
      {
        if i > 0 {
          assert reqs[i] == reqs[1..][i - 1];
        }
      }
    }
  }
}
