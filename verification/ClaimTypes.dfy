/**
 The vocabulary of the cluster lock: the Lease every dcctl run contends for, the
 API calls made on it, what the API server does with each call, and the pure
 decisions a run takes on an answer. The object that holds a claim (ClaimObject)
 and the protocol of all runs together (ClaimProtocol) both decide through the
 functions declared here.
 */
module ClaimTypes {
  import opened Wrappers

  /** How long a Lease stays valid after its last renewal, in nanoseconds. */
  const LEASE_DURATION := 60_000_000_000

  /** How often a holder renews, in nanoseconds; also the timeout of one renewal. */
  const RENEW_INTERVAL := 10_000_000_000

  /**
   A holder identity. Identities end in a random nonce, so two runs never share
   one; they are modelled as numbers, one per run.
   */
  type Identity = nat

  /**
   The Lease object. `version` is its resourceVersion and `uid` its object UID, both
   assigned by the API server. `renewTime` was read from the writer's own clock.
   */
  datatype Lease = Lease(
    holder: Identity, uid: nat, version: nat, renewTime: int, transitions: nat)

  datatype ReadAnswer = Found(lease: Lease) | NotFound | ReadFailed

  datatype WriteAnswer = Applied | AlreadyExists | Conflict | Gone | WriteFailed

  datatype Answer = Read(read: ReadAnswer) | Written(write: WriteAnswer)

  /** Why an Update was sent. A steal remembers when its run first read the Lease. */
  datatype Purpose = Renewal | Steal(firstReadAt: int)

  datatype Request =
    | Create(caller: Identity, renewTime: int)
    | Get(caller: Identity)
    | Update(caller: Identity, lease: Lease, purpose: Purpose)
    | Delete(caller: Identity, uid: nat, version: nat)

  /** The API server's view: the Lease, if there is one, and the next version to assign. */
  datatype Server = Server(lease: Option<Lease>, next: nat)
  {
    predicate Names(who: Identity)
    {
      lease.Some? && lease.value.holder == who
    }
  }

  /**
   One API call, carried out atomically. Create succeeds only when there is no
   Lease; Update and Delete carry the version (and UID) the caller last read and
   are refused when the Lease has moved on.
   */
  function Serve(sv: Server, req: Request): (result: (Server, Answer))
    ensures ServerStep(sv, result.0)
    ensures result.1 == Written(Applied) && !req.Delete? ==>
              result.0.lease.Some? && result.0.lease.value.version == sv.next
    ensures result.1 != Written(Applied) ==> result.0 == sv
  {
    match req
    case Create(caller, t) =>
      if sv.lease.Some? then (sv, Written(AlreadyExists))
      else (Server(Some(Lease(caller, sv.next, sv.next, t, 0)), sv.next + 1), Written(Applied))
    case Get(_) =>
      (sv, Read(if sv.lease.Some? then Found(sv.lease.value) else NotFound))
    case Update(_, l, _) =>
      if sv.lease.None? then (sv, Written(Gone))
      else if sv.lease.value.version != l.version then (sv, Written(Conflict))
      else (Server(Some(l.(version := sv.next)), sv.next + 1), Written(Applied))
    case Delete(_, uid, version) =>
      if sv.lease.None? then (sv, Written(Gone))
      else if sv.lease.value.uid != uid || sv.lease.value.version != version then (sv, Written(Conflict))
      else (Server(None, sv.next), Written(Applied))
  }

  /** Everything that can happen to the Lease in one step: nothing, a deletion, or a newly versioned write. */
  predicate ServerStep(sv: Server, sv': Server)
  {
    || sv' == sv
    || (sv'.lease.None? && sv'.next == sv.next)
    || (sv'.lease.Some? && sv'.lease.value.version == sv.next && sv'.next == sv.next + 1)
  }

  // ---- decisions a run takes on an answer ----

  /** Why a run considers its claim gone. */
  datatype Loss = LeaseDeleted | HeldBy(other: Identity) | NotRenewedFor(since: int)

  /** What a read of the Lease tells the run that holds `me`. */
  datatype ReadVerdict = Mine(lease: Lease) | Fenced(loss: Loss) | Unreadable

  function JudgeRead(me: Identity, ans: ReadAnswer): (v: ReadVerdict)
    ensures v.Mine? <==> ans.Found? && ans.lease.holder == me
    ensures v.Mine? ==> v.lease == ans.lease
    ensures v == Fenced(LeaseDeleted) <==> ans.NotFound?
    ensures forall other :: v == Fenced(HeldBy(other)) <==> ans.Found? && ans.lease.holder == other != me
    ensures v.Unreadable? <==> ans.ReadFailed?
  {
    match ans
    case NotFound => Fenced(LeaseDeleted)
    case Found(l) => if l.holder == me then Mine(l) else Fenced(HeldBy(l.holder))
    case ReadFailed => Unreadable
  }

  /** Lost once a full lease duration has passed with no successful renewal. */
  function Staleness(lastHeld: int, now: int): (loss: Option<Loss>)
    ensures loss.Some? <==> now > lastHeld + LEASE_DURATION
    ensures loss.Some? ==> loss.value == NotRenewedFor(now - lastHeld)
  {
    if now - lastHeld > LEASE_DURATION then Some(NotRenewedFor(now - lastHeld)) else None
  }

  /** The object a renewal writes back: what it read, with a new renewTime. */
  function Renewed(l: Lease, clock: int): Lease
  {
    l.(renewTime := clock)
  }

  /** The object a reclaim writes: a new holder over the object it watched. */
  function Stolen(l: Lease, thief: Identity, clock: int): Lease
  {
    l.(holder := thief, renewTime := clock, transitions := l.transitions + 1)
  }

  // ---- the server's contract, as laws ----

  /** Of two creations only the first is applied, and it makes its caller the holder. */
  lemma OneCreationWins(sv: Server, p: Identity, t: int, q: Identity, u: int)
    ensures var (first, a) := Serve(sv, Create(p, t));
            && (a == Written(Applied) <==> sv.lease.None?)
            && (a == Written(Applied) ==>
                  && first.lease.Some? && first.lease.value.holder == p && first.lease.value.renewTime == t
                  && Serve(first, Create(q, u)) == (first, Written(AlreadyExists)))
  {
  }

  /** What a caller reads is the Lease there is. */
  lemma ReadsWhatIsThere(sv: Server, p: Identity)
    ensures Serve(sv, Get(p)).0 == sv
    ensures Serve(sv, Get(p)).1 == Read(if sv.lease.None? then NotFound else Found(sv.lease.value))
  {
  }

  /**
   A write over what its caller read is applied exactly while nobody else has written in
   between: of two calls that carry one version, the second to arrive is refused.
   */
  lemma SecondWriterIsRefused(sv: Server, read: Lease, req: Request, later: Request)
    requires req.Update? || req.Delete?
    requires req.Update? ==> req.lease.version == read.version
    requires req.Delete? ==> req.version == read.version && req.uid == read.uid
    requires later.Update? ==> later.lease.version == read.version
    requires later.Delete? ==> later.version == read.version
    requires later.Update? || later.Delete?
    requires sv.lease.Some? && sv.lease.value.version < sv.next && sv.lease.value.uid == read.uid
    ensures var (after, a) := Serve(sv, req);
            && (a == Written(Applied) <==> sv.lease.value.version == read.version)
            && (a == Written(Applied) ==>
                  && (req.Update? ==> after.lease == Some(req.lease.(version := sv.next)))
                  && (req.Delete? ==> after.lease == None)
                  && Serve(after, later).0 == after && Serve(after, later).1 != Written(Applied))
  {
  }

  /** A delete meant for another object of the same name is refused. */
  lemma ForeignDeleteIsRefused(sv: Server, p: Identity, uid: nat, version: nat)
    requires sv.lease.Some? && sv.lease.value.uid != uid
    ensures Serve(sv, Delete(p, uid, version)) == (sv, Written(Conflict))
  {
  }
}
