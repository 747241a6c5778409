/**
  Value-level model of the project registry: its records, its error codes,
  its state, and one pure transition function per operation that changes
  state. The class in project_root.dfy updates its fields in place and is
  proved to follow these transitions, so every lemma here about a single
  step or about a whole sequence of calls applies to it.
 */
module RegistryState {

  /** Longest accepted metadata URI, in characters. */
  const MAX_URI_LENGTH: nat := 256
  /** Longest accepted location, in characters. */
  const MAX_LOCATION_LENGTH: nat := 100
  /** The admin identity a freshly reset registry starts with. */
  const INITIAL_ADMIN: string := "ST1ADMIN1234567890"

  /** The closed set of error outcomes. AlreadyRegistered is reserved: no operation yields it. */
  datatype Error = NotAuthorized | AlreadyRegistered | NotFound | InvalidMetadata | Paused

  /** The numeric code under which each error is reported. */
  function Code(e: Error): (c: nat)
    ensures 100 <= c <= 104
    ensures c == 100 <==> e == NotAuthorized
    ensures c == 104 <==> e == Paused
  {
    match e
    case NotAuthorized => 100
    case AlreadyRegistered => 101
    case NotFound => 102
    case InvalidMetadata => 103
    case Paused => 104
  }

  /** No two errors share a code. */
  lemma CodeInjective(a: Error, b: Error)
    ensures Code(a) == Code(b) ==> a == b
  {
  }

  /** Every operation answers either a value or exactly one error. */
  datatype Result<T> = Ok(value: T) | Err(error: Error)

  datatype Project = Project(
    owner: string,
    location: string,
    metadataUri: string,
    registeredAt: nat,
    isActive: bool)

  datatype State = State(
    admin: string,
    paused: bool,
    projectCounter: nat,
    projects: map<int, Project>)

  /** What an operation leaves behind: the next state and its answer. */
  datatype Outcome<T> = Outcome(next: State, result: Result<T>)

  /** The state right after a reset: fixed admin, unpaused, no projects. */
  function Initial(): State {
    State(INITIAL_ADMIN, false, 0, map[])
  }

  /**
    The registry invariant: the project IDs in use are exactly 1 through
    projectCounter. So every key lies in [1, projectCounter], IDs have no
    gaps, and the counter is the number of projects ever registered.
   */
  ghost predicate Inv(s: State) {
    forall id :: id in s.projects <==> 1 <= id <= s.projectCounter
  }

  predicate IsAdmin(s: State, caller: string) {
    caller == s.admin
  }

  predicate ValidLocation(location: string) {
    0 < |location| <= MAX_LOCATION_LENGTH
  }

  predicate ValidUri(metadataUri: string) {
    0 < |metadataUri| <= MAX_URI_LENGTH
  }

  /** Two records agree on everything except the active flag. */
  predicate SameRecord(p: Project, q: Project) {
    p.owner == q.owner && p.location == q.location &&
    p.metadataUri == q.metadataUri && p.registeredAt == q.registeredAt
  }

  // ---------------------------------------------------------------------
  // One transition per state-changing operation

  function SetPausedStep(s: State, caller: string, pause: bool): Outcome<bool> {
    if !IsAdmin(s, caller) then Outcome(s, Err(NotAuthorized))
    else Outcome(s.(paused := pause), Ok(pause))
  }

  function TransferAdminStep(s: State, caller: string, newAdmin: string): Outcome<bool> {
    if !IsAdmin(s, caller) then Outcome(s, Err(NotAuthorized))
    else Outcome(s.(admin := newAdmin), Ok(true))
  }

  function RegisterProjectStep(s: State, caller: string, location: string,
                               metadataUri: string, blockHeight: nat): Outcome<nat>
  {
    if s.paused then Outcome(s, Err(Paused))
    else if !ValidLocation(location) then Outcome(s, Err(InvalidMetadata))
    else if !ValidUri(metadataUri) then Outcome(s, Err(InvalidMetadata))
    else
      var projectId := s.projectCounter + 1;
      var project := Project(caller, location, metadataUri, blockHeight, true);
      Outcome(s.(projects := s.projects[projectId := project], projectCounter := projectId), Ok(projectId))
  }

  function DeactivateProjectStep(s: State, caller: string, projectId: int): Outcome<bool> {
    if !IsAdmin(s, caller) then Outcome(s, Err(NotAuthorized))
    else if projectId !in s.projects then Outcome(s, Err(NotFound))
    else Outcome(s.(projects := s.projects[projectId := s.projects[projectId].(isActive := false)]), Ok(true))
  }

  // ---------------------------------------------------------------------
  // Properties of single operations

  /** A caller other than the admin is refused every admin operation, and nothing changes. */
  lemma NonAdminRejected(s: State, caller: string, pause: bool, newAdmin: string, projectId: int)
    requires !IsAdmin(s, caller)
    ensures SetPausedStep(s, caller, pause) == Outcome(s, Err(NotAuthorized))
    ensures TransferAdminStep(s, caller, newAdmin) == Outcome(s, Err(NotAuthorized))
    ensures DeactivateProjectStep(s, caller, projectId) == Outcome(s, Err(NotAuthorized))
  {
  }

  /** The admin sets the pause flag to the requested value; repeating it is a successful no-op. */
  lemma SetPausedByAdmin(s: State, pause: bool)
    ensures SetPausedStep(s, s.admin, pause) == Outcome(s.(paused := pause), Ok(pause))
    ensures var o := SetPausedStep(s, s.admin, pause);
            SetPausedStep(o.next, o.next.admin, pause) == o
  {
  }

  /**
    The admin hands the role over to any identity whatsoever; afterwards
    exactly newAdmin passes the admin test, so the former admin, if
    different, is refused.
   */
  lemma TransferAdminHandsOver(s: State, newAdmin: string, other: string)
    ensures TransferAdminStep(s, s.admin, newAdmin) == Outcome(s.(admin := newAdmin), Ok(true))
    ensures IsAdmin(TransferAdminStep(s, s.admin, newAdmin).next, other) <==> other == newAdmin
  {
  }

  /** While paused, registration fails with Paused whatever the arguments, before any length check. */
  lemma PausedRejectsRegistration(s: State, caller: string, location: string,
                                  metadataUri: string, blockHeight: nat)
    requires s.paused
    ensures RegisterProjectStep(s, caller, location, metadataUri, blockHeight) == Outcome(s, Err(Paused))
  {
  }

  /** When not paused, a bad location or a bad URI fails with InvalidMetadata and changes nothing. */
  lemma InvalidMetadataRejected(s: State, caller: string, location: string,
                                metadataUri: string, blockHeight: nat)
    requires !s.paused
    requires !ValidLocation(location) || !ValidUri(metadataUri)
    ensures RegisterProjectStep(s, caller, location, metadataUri, blockHeight) == Outcome(s, Err(InvalidMetadata))
  {
  }

  /**
    Registration succeeds exactly when the registry is unpaused and both
    strings have acceptable lengths. It then answers the next ID, makes it
    the counter, stores the caller's record there as active, and touches
    nothing else; under the invariant that ID was unused before.
   */
  lemma RegisterProjectSucceeds(s: State, caller: string, location: string,
                                metadataUri: string, blockHeight: nat)
    requires Inv(s)
    ensures var o := RegisterProjectStep(s, caller, location, metadataUri, blockHeight);
            o.result.Ok? <==> !s.paused && ValidLocation(location) && ValidUri(metadataUri)
    ensures var o := RegisterProjectStep(s, caller, location, metadataUri, blockHeight);
            o.result.Ok? ==>
              var id := s.projectCounter + 1;
              && o.result.value == id
              && id !in s.projects
              && o.next.projectCounter == id
              && o.next.projects.Keys == s.projects.Keys + {id}
              && o.next.projects[id] == Project(caller, location, metadataUri, blockHeight, true)
              && (forall k :: k in s.projects ==> o.next.projects[k] == s.projects[k])
              && o.next.admin == s.admin && o.next.paused == s.paused
              && Inv(o.next)
  {
  }

  /**
    The admin's deactivation of an existing project clears only that record's
    active flag and answers true; a second deactivation also succeeds and
    changes nothing more. A missing ID fails with NotFound.
   */
  lemma DeactivateProjectByAdmin(s: State, projectId: int)
    ensures var o := DeactivateProjectStep(s, s.admin, projectId);
            projectId !in s.projects ==> o == Outcome(s, Err(NotFound))
    ensures var o := DeactivateProjectStep(s, s.admin, projectId);
            projectId in s.projects ==>
              && o.result == Ok(true)
              && o.next.projects.Keys == s.projects.Keys
              && !o.next.projects[projectId].isActive
              && SameRecord(o.next.projects[projectId], s.projects[projectId])
              && (forall k :: k in s.projects && k != projectId ==> o.next.projects[k] == s.projects[k])
              && o.next.projectCounter == s.projectCounter
              && o.next.admin == s.admin && o.next.paused == s.paused
              && DeactivateProjectStep(o.next, s.admin, projectId) == o
  {
  }

  // ---------------------------------------------------------------------
  // Sequences of calls

  /** One call of a state-changing operation, with its arguments. */
  datatype Call =
    | SetPausedCall(caller: string, pause: bool)
    | TransferAdminCall(caller: string, newAdmin: string)
    | RegisterProjectCall(caller: string, location: string, metadataUri: string, blockHeight: nat)
    | DeactivateProjectCall(caller: string, projectId: int)

  /** The answer of any call: a flag, or the ID a registration assigned. */
  datatype Reply = Flag(flag: bool) | Id(id: nat)

  function FlagOutcome(o: Outcome<bool>): Outcome<Reply> {
    match o.result
    case Ok(b) => Outcome(o.next, Ok(Flag(b)))
    case Err(e) => Outcome(o.next, Err(e))
  }

  function Apply(s: State, c: Call): Outcome<Reply> {
    match c
    case SetPausedCall(caller, pause) => FlagOutcome(SetPausedStep(s, caller, pause))
    case TransferAdminCall(caller, newAdmin) => FlagOutcome(TransferAdminStep(s, caller, newAdmin))
    case DeactivateProjectCall(caller, projectId) => FlagOutcome(DeactivateProjectStep(s, caller, projectId))
    case RegisterProjectCall(caller, location, metadataUri, blockHeight) =>
      var o := RegisterProjectStep(s, caller, location, metadataUri, blockHeight);
      match o.result
      case Ok(id) => Outcome(o.next, Ok(Id(id)))
      case Err(e) => Outcome(o.next, Err(e))
  }

  /** The IDs one call assigns: at most one, from a successful registration. */
  function IssuedBy(s: State, c: Call): seq<nat> {
    match Apply(s, c).result
    case Ok(Id(id)) => [id]
    case _ => []
  }

  function Run(s: State, calls: seq<Call>): State
    decreases |calls|
  {
    if calls == [] then s else Run(Apply(s, calls[0]).next, calls[1..])
  }

  /** The IDs a sequence of calls assigns, in the order the calls are made. */
  function Issued(s: State, calls: seq<Call>): seq<nat>
    decreases |calls|
  {
    if calls == [] then [] else IssuedBy(s, calls[0]) + Issued(Apply(s, calls[0]).next, calls[1..])
  }

  /** The n consecutive numbers starting at lo. */
  function Consecutive(lo: nat, n: nat): seq<nat>
    decreases n
  {
    if n == 0 then [] else [lo] + Consecutive(lo + 1, n - 1)
  }

  lemma {:induction false} ConsecutiveAt(lo: nat, n: nat)
    ensures |Consecutive(lo, n)| == n
    ensures forall i :: 0 <= i < n ==> Consecutive(lo, n)[i] == lo + i
    decreases n
  {
    if n > 0 {
      ConsecutiveAt(lo + 1, n - 1);
    }
  }

  /** A refused call changes nothing, and no call ever answers AlreadyRegistered. */
  lemma RejectedCallChangesNothing(s: State, c: Call)
    ensures Apply(s, c).result.Err? ==> Apply(s, c).next == s
    ensures Apply(s, c).result != Err(AlreadyRegistered)
  {
  }

  /**
    Every call keeps the invariant, assigns at most the ID right after the
    counter, moves the counter by exactly the number of IDs it assigns, and
    keeps every existing record except possibly its active flag, which can
    only go from true to false.
   */
  lemma CallStep(s: State, c: Call)
    requires Inv(s)
    ensures Inv(Apply(s, c).next)
    ensures IssuedBy(s, c) == [] || IssuedBy(s, c) == [s.projectCounter + 1]
    ensures Apply(s, c).next.projectCounter == s.projectCounter + |IssuedBy(s, c)|
    ensures forall id :: id in s.projects ==>
              && id in Apply(s, c).next.projects
              && SameRecord(Apply(s, c).next.projects[id], s.projects[id])
              && (Apply(s, c).next.projects[id].isActive ==> s.projects[id].isActive)
  {
  }

  lemma {:induction false} RunKeepsInv(s: State, calls: seq<Call>)
    requires Inv(s)
    ensures Inv(Run(s, calls))
    ensures Run(s, calls).projectCounter >= s.projectCounter
    decreases |calls|
  {
    if calls != [] {
      CallStep(s, calls[0]);
      RunKeepsInv(Apply(s, calls[0]).next, calls[1..]);
    }
  }

  /**
    Over any sequence of calls, the IDs assigned are the numbers that follow
    the starting counter, in order, without gaps or repeats, however the
    registrations are interleaved with other calls; and the final counter
    has advanced by exactly the number of IDs assigned.
   */
  lemma {:induction false} IssuedIdsAreConsecutive(s: State, calls: seq<Call>)
    requires Inv(s)
    ensures Run(s, calls).projectCounter == s.projectCounter + |Issued(s, calls)|
    ensures Issued(s, calls) == Consecutive(s.projectCounter + 1, |Issued(s, calls)|)
    decreases |calls|
  {
    if calls != [] {
      var next := Apply(s, calls[0]).next;
      CallStep(s, calls[0]);
      IssuedIdsAreConsecutive(next, calls[1..]);
    }
  }

  /**
    Once registered, a project is never removed; its owner, location, URI
    and registration height never change; and once inactive it stays inactive.
   */
  lemma {:induction false} RecordsPersist(s: State, calls: seq<Call>, id: int)
    requires Inv(s)
    requires id in s.projects
    ensures id in Run(s, calls).projects
    ensures SameRecord(Run(s, calls).projects[id], s.projects[id])
    ensures Run(s, calls).projects[id].isActive ==> s.projects[id].isActive
    decreases |calls|
  {
    if calls != [] {
      CallStep(s, calls[0]);
      RecordsPersist(Apply(s, calls[0]).next, calls[1..], id);
    }
  }

  /** The IDs 1 through n. */
  function KeyRange(n: nat): set<int>
    decreases n
  {
    if n == 0 then {} else KeyRange(n - 1) + {n}
  }

  lemma {:induction false} KeyRangeSize(n: nat)
    ensures forall id :: id in KeyRange(n) <==> 1 <= id <= n
    ensures |KeyRange(n)| == n
    decreases n
  {
    if n > 0 {
      KeyRangeSize(n - 1);
    }
  }

  /** Under the invariant, the counter is the number of stored projects (deactivated ones included). */
  lemma CounterCountsProjects(s: State)
    ensures Inv(s) ==> |s.projects| == s.projectCounter
  {
    if Inv(s) {
      var keys := s.projects.Keys;
      KeyRangeSize(s.projectCounter);
      var n := s.projectCounter;
      forall id | id in keys ensures id in KeyRange(n) { assert 1 <= id <= n; }
      forall id | id in KeyRange(n) ensures id in keys { assert 1 <= id <= n; }
      assert keys == KeyRange(n);
    }
  }

  /**
    From a fresh registry, the n successful registrations of any sequence
    of calls receive the IDs 1, 2, ..., n, and afterwards the counter is n
    and n projects are stored.
   */
  lemma FromInitial(calls: seq<Call>)
    ensures Inv(Run(Initial(), calls))
    ensures Run(Initial(), calls).projectCounter == |Issued(Initial(), calls)|
    ensures |Run(Initial(), calls).projects| == |Issued(Initial(), calls)|
    ensures forall i :: 0 <= i < |Issued(Initial(), calls)| ==> Issued(Initial(), calls)[i] == i + 1
  {
    RunKeepsInv(Initial(), calls);
    IssuedIdsAreConsecutive(Initial(), calls);
    ConsecutiveAt(1, |Issued(Initial(), calls)|);
    CounterCountsProjects(Run(Initial(), calls));
  }
}
