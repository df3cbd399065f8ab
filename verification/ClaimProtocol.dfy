/**
 The cluster lock as all runs play it at once: any number of dcctl runs, each with
 its main task and its renewal loop, exchanging requests and answers with one API
 server. Requests and answers travel separately, so a call may be carried out late,
 carried out after its caller gave up, or never; an answer may never arrive. Third
 parties may touch or delete the Lease at any time.
 */
module ClaimProtocol {
  import opened Wrappers
  import opened ClaimTypes

  /** Where a run's main task is: acquiring, reclaiming, working under the claim, or releasing it. */
  datatype Task =
    | Fresh
    | Creating(call: nat, since: int)
    | FirstRead(call: nat)
    | Watching(first: Lease, readAt: int)
    | SecondRead(call: nat, first: Lease, readAt: int)
    | Stealing(call: nat, since: int)
    | Working
    | Checking(call: nat)
    | Joining
    | ReleaseRead(call: nat)
    | Deleting(call: nat)
    | Over

  /** Where a run's renewal loop is. `due` is when its ticker fires next. */
  datatype Loop =
    | Unstarted
    | Waiting(due: int)
    | RenewRead(call: nat, since: int, due: int)
    | RenewWrite(call: nat, since: int, due: int)
    | Stopped

  /** One run. `lastHeld` is on the run's own clock, which is ahead of real time by `skew`. */
  datatype Run = Run(task: Task, loop: Loop, lost: Option<Loss>, lastHeld: int, skew: int)

  /**
   The whole system. `net` holds requests not yet carried out and `replies` answers
   given. `wroteAt` is a history record nothing reads: when the Lease was last
   written as each identity's.
   */
  datatype System = System(
    now: int,
    server: Server,
    net: map<nat, Request>,
    replies: map<nat, Answer>,
    nextCall: nat,
    runs: map<Identity, Run>,
    wroteAt: map<Identity, int>)

  datatype Action =
    | Pass(elapsed: nat)
    | BeginAcquire(p: Identity)
    | BeginReclaim(p: Identity)
    | Carry(call: nat)
    | TaskAnswered(p: Identity)
    | TaskFailed(p: Identity)
    | LoopAnswered(p: Identity)
    | LoopFailed(p: Identity)
    | WakeUp(p: Identity)
    | RenewTick(p: Identity, nextDue: int)
    | LoopStops(p: Identity)
    | BeginCheck(p: Identity)
    | BeginRelease(p: Identity)
    | Joined(p: Identity)
    | Dies(p: Identity)
    | OutsiderTouches
    | OutsiderDeletes

  /** The call a main task is waiting on. */
  function TaskCall(t: Task): Option<nat>
  {
    match t
    case Creating(c, _) => Some(c)
    case FirstRead(c) => Some(c)
    case SecondRead(c, _, _) => Some(c)
    case Stealing(c, _) => Some(c)
    case Checking(c) => Some(c)
    case ReleaseRead(c) => Some(c)
    case Deleting(c) => Some(c)
    case _ => None
  }

  /** The call a renewal loop is waiting on. */
  function LoopCall(l: Loop): Option<nat>
  {
    match l
    case RenewRead(c, _, _) => Some(c)
    case RenewWrite(c, _, _) => Some(c)
    case _ => None
  }

  predicate Enabled(s: System, a: Action)
  {
    match a
    case Pass(_) => true
    case BeginAcquire(p) => p in s.runs && s.runs[p].task.Fresh?
    case BeginReclaim(p) => p in s.runs && s.runs[p].task.Fresh?
    case Carry(c) => c in s.net
    case TaskAnswered(p) =>
      p in s.runs && TaskCall(s.runs[p].task).Some? && TaskCall(s.runs[p].task).value in s.replies
    case TaskFailed(p) => p in s.runs && (TaskCall(s.runs[p].task).Some? || s.runs[p].task.Watching?)
    case LoopAnswered(p) =>
      p in s.runs && LoopCall(s.runs[p].loop).Some? && LoopCall(s.runs[p].loop).value in s.replies
    case LoopFailed(p) => p in s.runs && LoopCall(s.runs[p].loop).Some?
    case WakeUp(p) =>
      p in s.runs && s.runs[p].task.Watching? && s.now >= s.runs[p].task.readAt + LEASE_DURATION
    case RenewTick(p, next) =>
      p in s.runs && s.runs[p].loop.Waiting? && s.now >= s.runs[p].loop.due && next <= s.now + RENEW_INTERVAL
    case LoopStops(p) => p in s.runs && s.runs[p].loop.Waiting? && s.runs[p].task.Joining?
    case BeginCheck(p) => p in s.runs && s.runs[p].task.Working? && s.runs[p].lost.None?
    case BeginRelease(p) => p in s.runs && s.runs[p].task.Working?
    case Joined(p) => p in s.runs && s.runs[p].task.Joining? && s.runs[p].loop.Stopped?
    case Dies(p) => p in s.runs
    case OutsiderTouches => s.server.lease.Some?
    case OutsiderDeletes => true
  }

  function Apply(s: System, a: Action): (s': System)
    requires Enabled(s, a)
  {
    match a
    case Pass(d) => s.(now := s.now + d)
    case BeginAcquire(p) =>
      var r := s.runs[p];
      Send(s, p, r.(task := Creating(s.nextCall, s.now)), Create(p, s.now + r.skew))
    case BeginReclaim(p) =>
      Send(s, p, s.runs[p].(task := FirstRead(s.nextCall)), Get(p))
    case Carry(c) => CarryOut(s, c)
    case TaskAnswered(p) => OnTaskAnswer(s, p, s.replies[TaskCall(s.runs[p].task).value])
    case TaskFailed(p) => OnTaskFailure(s, p)
    case LoopAnswered(p) => OnLoopAnswer(s, p, s.replies[LoopCall(s.runs[p].loop).value])
    case LoopFailed(p) => OnLoopFailure(s, p)
    case WakeUp(p) =>
      var r := s.runs[p];
      Send(s, p, r.(task := SecondRead(s.nextCall, r.task.first, r.task.readAt)), Get(p))
    case RenewTick(p, next) =>
      Send(s, p, s.runs[p].(loop := RenewRead(s.nextCall, s.now, next)), Get(p))
    case LoopStops(p) => SetRun(s, p, s.runs[p].(loop := Stopped))
    case BeginCheck(p) => Send(s, p, s.runs[p].(task := Checking(s.nextCall)), Get(p))
    case BeginRelease(p) => SetRun(s, p, s.runs[p].(task := Joining))
    case Joined(p) => Send(s, p, s.runs[p].(task := ReleaseRead(s.nextCall)), Get(p))
    case Dies(p) => SetRun(s, p, s.runs[p].(task := Over, loop := Stopped))
    case OutsiderTouches =>
      var l := s.server.lease.value;
      s.(server := Server(Some(l.(version := s.server.next)), s.server.next + 1),
         wroteAt := s.wroteAt[l.holder := s.now])
    case OutsiderDeletes => s.(server := s.server.(lease := None))
  }

  function SetRun(s: System, p: Identity, r: Run): System
  {
    s.(runs := s.runs[p := r])
  }

  /** Puts a request on its way under a new call number and moves its sender on. */
  function Send(s: System, p: Identity, r: Run, req: Request): System
  {
    s.(runs := s.runs[p := r], net := s.net[s.nextCall := req], nextCall := s.nextCall + 1)
  }

  /** The API server carries out one outstanding request. */
  function CarryOut(s: System, c: nat): System
    requires c in s.net
  {
    var (sv, ans) := Serve(s.server, s.net[c]);
    s.(server := sv, net := s.net - {c}, replies := s.replies[c := ans],
       wroteAt := if sv != s.server && sv.lease.Some? then s.wroteAt[sv.lease.value.holder := s.now]
                  else s.wroteAt)
  }

  /** A claim begins: its clock starts and its renewal loop is launched. */
  function Hold(s: System, p: Identity): System
    requires p in s.runs
  {
    var r := s.runs[p];
    SetRun(s, p, r.(task := Working, loop := Waiting(s.now + RENEW_INTERVAL), lastHeld := s.now + r.skew))
  }

  function OnTaskAnswer(s: System, p: Identity, ans: Answer): System
    requires p in s.runs
  {
    var r := s.runs[p];
    match r.task
    case Creating(_, _) =>
      if ans == Written(Applied) then Hold(s, p) else OnTaskFailure(s, p)
    case FirstRead(_) =>
      if ans.Read? && ans.read.Found? then SetRun(s, p, r.(task := Watching(ans.read.lease, s.now)))
      else OnTaskFailure(s, p)
    case SecondRead(_, first, readAt) =>
      if ans.Read? && ans.read.Found? && ans.read.lease.version == first.version then
        Send(s, p, r.(task := Stealing(s.nextCall, s.now)),
             Update(p, Stolen(ans.read.lease, p, s.now + r.skew), Steal(readAt)))
      else OnTaskFailure(s, p)
    case Stealing(_, _) =>
      if ans == Written(Applied) then Hold(s, p) else OnTaskFailure(s, p)
    case Checking(_) =>
      var v := if ans.Read? then JudgeRead(p, ans.read) else Unreadable;
      SetRun(s, p, r.(task := Working, lost := if v.Fenced? then Fence(r.lost, v.loss) else r.lost))
    case ReleaseRead(_) =>
      if ans.Read? && JudgeRead(p, ans.read).Mine? then
        Send(s, p, r.(task := Deleting(s.nextCall)), Delete(p, ans.read.lease.uid, ans.read.lease.version))
      else OnTaskFailure(s, p)
    case _ => OnTaskFailure(s, p)
  }

  /** A call of the main task failed, was refused, or was given up; the request itself may still be on its way. */
  function OnTaskFailure(s: System, p: Identity): System
    requires p in s.runs
  {
    var r := s.runs[p];
    SetRun(s, p, r.(task := if r.task.Checking? || r.task.Working? then Working else Over))
  }

  function OnLoopAnswer(s: System, p: Identity, ans: Answer): System
    requires p in s.runs
  {
    var r := s.runs[p];
    match r.loop
    case RenewRead(_, since, due) =>
      (match if ans.Read? then JudgeRead(p, ans.read) else Unreadable
       case Mine(l) =>
         Send(s, p, r.(loop := RenewWrite(s.nextCall, since, due)), Update(p, Renewed(l, s.now + r.skew), Renewal))
       case Fenced(loss) => SetRun(s, p, r.(loop := Stopped, lost := Fence(r.lost, loss)))
       case Unreadable => OnLoopFailure(s, p))
    case RenewWrite(_, since, due) =>
      if ans == Written(Applied) then SetRun(s, p, r.(loop := Waiting(due), lastHeld := s.now + r.skew))
      else OnLoopFailure(s, p)
    case _ => s
  }

  /** A renewal that did not succeed: survivable until the claim is a lease duration old. */
  function OnLoopFailure(s: System, p: Identity): System
    requires p in s.runs
  {
    var r := s.runs[p];
    match r.loop
    case RenewRead(_, _, due) => GiveUpIfStale(s, p, due)
    case RenewWrite(_, _, due) => GiveUpIfStale(s, p, due)
    case _ => s
  }

  function GiveUpIfStale(s: System, p: Identity, due: int): System
    requires p in s.runs
  {
    var r := s.runs[p];
    match Staleness(r.lastHeld, s.now + r.skew)
    case Some(loss) => SetRun(s, p, r.(loop := Stopped, lost := Fence(r.lost, loss)))
    case None => SetRun(s, p, r.(loop := Waiting(due)))
  }

  /** The first loss reported is the one that is kept. */
  function Fence(lost: Option<Loss>, loss: Loss): Option<Loss>
  {
    if lost.None? then Some(loss) else lost
  }

  predicate Step(s: System, a: Action, s': System)
  {
    Enabled(s, a) && s' == Apply(s, a)
  }

  /** Every run fresh, nothing on its way; there may already be a Lease, held by somebody else. */
  predicate Init(s: System)
  {
    && s.net == map[] && s.replies == map[]
    && (forall p :: p in s.runs ==> s.runs[p].task.Fresh? && s.runs[p].loop.Unstarted? && s.runs[p].lost.None?)
    && s.wroteAt.Keys !! s.runs.Keys && (forall p :: p in s.wroteAt ==> s.wroteAt[p] <= s.now)
    && (s.server.lease.Some? ==>
          var l := s.server.lease.value;
          && l.version < s.server.next
          && l.holder !in s.runs
          && l.holder in s.wroteAt)
  }

  /**
   Nothing a run can count on: at any moment time may pass, an outsider may delete the Lease
   or touch one that is there, any request on its way may be carried out, and any run may
   die; a call or a wait may fail as long as it lasts, and its answer, once given, may be
   heard at any time.
   */
  lemma AnythingMayHappen(s: System, p: Identity, c: nat, d: nat)
    ensures Enabled(s, Pass(d)) && Enabled(s, OutsiderDeletes)
    ensures s.server.lease.Some? ==> Enabled(s, OutsiderTouches)
    ensures c in s.net ==> Enabled(s, Carry(c))
    ensures p in s.runs ==> Enabled(s, Dies(p))
    ensures p in s.runs && (TaskCall(s.runs[p].task).Some? || s.runs[p].task.Watching?) ==> Enabled(s, TaskFailed(p))
    ensures p in s.runs && LoopCall(s.runs[p].loop).Some? ==> Enabled(s, LoopFailed(p))
    ensures p in s.runs && TaskCall(s.runs[p].task) == Some(c) && c in s.replies ==> Enabled(s, TaskAnswered(p))
    ensures p in s.runs && LoopCall(s.runs[p].loop) == Some(c) && c in s.replies ==> Enabled(s, LoopAnswered(p))
  {
  }

  /** What an outsider does: a deletion leaves no Lease, a touch the same one under a new version. */
  lemma OutsidersWrite(s: System)
    ensures Apply(s, OutsiderDeletes).server.lease == None
    ensures s.server.lease.Some? ==>
              var was, now := s.server.lease.value, Apply(s, OutsiderTouches).server.lease;
              now == Some(was.(version := s.server.next))
  {
  }

  /** A history: the states passed through and the action taken at each but the last. */
  datatype History = History(states: seq<System>, actions: seq<Action>)
  {
    predicate Valid()
    {
      && |states| == |actions| + 1
      && Init(states[0])
      && forall i :: 0 <= i < |actions| ==> Step(states[i], actions[i], states[i + 1])
    }
  }
}
