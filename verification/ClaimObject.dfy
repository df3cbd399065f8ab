/**
 The Claim object of one run: the fields its mutex guards and the methods that
 update them. The API server's answers are inputs; each method is tied to the
 decision functions the protocol model is built from.
 */
module ClaimObject {
  import opened Wrappers
  import opened ClaimTypes
  import ClaimProtocol

  /** What the API server and the clock did during one renewal. `write` is used only if an Update was sent. */
  datatype Renewal = Renewal(read: ReadAnswer, sentAt: int, write: WriteAnswer, endedAt: int)

  /** How one renewal by `me` ended: fenced, or carrying on with this `lastHeld`. */
  datatype Outcome = Outcome(loss: Option<Loss>, lastHeld: int, sent: Option<Lease>)

  function RenewalOutcome(me: Identity, lastHeld: int, e: Renewal): (o: Outcome)
  {
    match JudgeRead(me, e.read)
    case Fenced(loss) => Outcome(Some(loss), lastHeld, None)
    case Unreadable => Outcome(Staleness(lastHeld, e.endedAt), lastHeld, None)
    case Mine(l) =>
      if e.write == Applied then Outcome(None, e.endedAt, Some(Renewed(l, e.sentAt)))
      else Outcome(Staleness(lastHeld, e.endedAt), lastHeld, Some(Renewed(l, e.sentAt)))
  }

  /** The losses and lastHeld left by a renewal loop that sees these ticks in turn and stops at the first loss. */
  function LoopOutcome(me: Identity, lastHeld: int, ticks: seq<Renewal>): (o: (Option<Loss>, int, nat))
    ensures o.2 <= |ticks|
    ensures o.0.Some? ==> o.2 > 0
    decreases |ticks|
  {
    if ticks == [] then (None, lastHeld, 0)
    else
      var first := RenewalOutcome(me, lastHeld, ticks[0]);
      if first.loss.Some? then (first.loss, first.lastHeld, 1)
      else
        var rest := LoopOutcome(me, first.lastHeld, ticks[1..]);
        (rest.0, rest.1, rest.2 + 1)
  }

  /** The renewal read the Lease as its own and its Update was applied. */
  ghost predicate Renews(me: Identity, e: Renewal)
  {
    e.read.Found? && e.read.lease.holder == me && e.write == Applied
  }

  /**
   A renewal is fenced exactly when the Lease is gone or another's, or when it did not
   succeed and the claim is by then older than a lease duration; it moves lastHeld exactly
   when it succeeds; and it writes exactly when it read the Lease as its own.
   */
  lemma RenewalFences(me: Identity, lastHeld: int, e: Renewal)
    ensures var o := RenewalOutcome(me, lastHeld, e);
            && (o.loss == Some(LeaseDeleted) <==> e.read.NotFound?)
            && (forall other :: o.loss == Some(HeldBy(other)) <==> e.read.Found? && e.read.lease.holder == other != me)
            && (o.loss.Some? && o.loss.value.NotRenewedFor? <==>
                  && !Renews(me, e) && e.endedAt > lastHeld + LEASE_DURATION
                  && (e.read.ReadFailed? || (e.read.Found? && e.read.lease.holder == me)))
            && (o.loss.Some? && o.loss.value.NotRenewedFor? ==> o.loss.value.since == e.endedAt - lastHeld)
            && o.lastHeld == (if Renews(me, e) then e.endedAt else lastHeld)
            && (o.loss.None? ==> e.endedAt <= o.lastHeld + LEASE_DURATION)
            && (o.sent.Some? <==> e.read.Found? && e.read.lease.holder == me)
  {
  }

  /** What a renewal writes is what it read, renewed at the moment of sending, and nothing else changed. */
  lemma RenewalSends(me: Identity, lastHeld: int, e: Renewal)
    requires RenewalOutcome(me, lastHeld, e).sent.Some?
    ensures var l := RenewalOutcome(me, lastHeld, e).sent.value;
            && l.renewTime == e.sentAt && l.holder == me == e.read.lease.holder
            && l.uid == e.read.lease.uid && l.version == e.read.lease.version
            && l.transitions == e.read.lease.transitions
  {
  }

  /**
   The loop carries on past its last tick only if every renewal it made ended with a
   success at most a lease duration old; it stops exactly at the first that did not.
   */
  lemma {:induction false} LoopStopsAtFirstLoss(me: Identity, lastHeld: int, ticks: seq<Renewal>)
    ensures var (loss, held, n) := LoopOutcome(me, lastHeld, ticks);
            && (loss.None? ==> n == |ticks| && (ticks != [] ==> ticks[|ticks| - 1].endedAt <= held + LEASE_DURATION))
            && (loss.Some? ==> LoopOutcome(me, lastHeld, ticks[..n - 1]).0.None?)
    decreases |ticks|
  {
    if ticks != [] {
      var first := RenewalOutcome(me, lastHeld, ticks[0]);
      if first.loss.None? {
        LoopStopsAtFirstLoss(me, first.lastHeld, ticks[1..]);
        var n := LoopOutcome(me, lastHeld, ticks).2;
        if LoopOutcome(me, lastHeld, ticks).0.Some? {
          assert ticks[..n - 1][1..] == ticks[1..][..n - 2];
          assert ticks[..n - 1][0] == ticks[0];
        }
      }
    }
  }

  /**
   Tick by tick: each tick the loop handles renews from where the one before left lastHeld,
   none before the last one handled was fenced, and the loop's loss is that one's.
   */
  lemma {:induction false} LoopTickByTick(me: Identity, lastHeld: int, ticks: seq<Renewal>, k: nat)
    requires k < LoopOutcome(me, lastHeld, ticks).2
    ensures var before, after := LoopOutcome(me, lastHeld, ticks[..k]), LoopOutcome(me, lastHeld, ticks[..k + 1]);
            var o := RenewalOutcome(me, before.1, ticks[k]);
            && before.0 == None && before.2 == k
            && after.1 == o.lastHeld && after.0 == o.loss
            && (k + 1 == LoopOutcome(me, lastHeld, ticks).2 ==>
                  LoopOutcome(me, lastHeld, ticks).0 == o.loss && LoopOutcome(me, lastHeld, ticks).1 == o.lastHeld)
    decreases |ticks|
  {
    var first := RenewalOutcome(me, lastHeld, ticks[0]);
    assert ticks[..k + 1][0] == ticks[0] && ticks[..k + 1][1..] == ticks[1..][..k];
    if k > 0 {
      assert ticks[..k][0] == ticks[0] && ticks[..k][1..] == ticks[1..][..k - 1];
      LoopTickByTick(me, first.lastHeld, ticks[1..], k - 1);
      assert ticks[1..][k - 1] == ticks[k];
    } else {
      assert ticks[1..][..0] == [];
    }
  }

  // ---- the object and the protocol decide alike ----

  /** What a renewal loop is left with: fenced and stopped, or waiting for its next tick. */
  ghost predicate LoopLeftWith(r: ClaimProtocol.Run, was: ClaimProtocol.Run, o: Outcome)
  {
    && r.lastHeld == o.lastHeld
    && r.lost == (if o.loss.Some? then ClaimProtocol.Fence(was.lost, o.loss.value) else was.lost)
    && (if o.loss.Some? then r.loop.Stopped? else r.loop.Waiting?)
  }

  /** In the protocol, a renewal that reads `e.read` sends what the object sends, or ends as the object's does. */
  lemma ReadStepAgrees(s: ClaimProtocol.System, p: Identity, e: Renewal)
    requires p in s.runs && s.runs[p].loop.RenewRead?
    requires e.sentAt == s.now + s.runs[p].skew && (!JudgeRead(p, e.read).Mine? ==> e.endedAt == e.sentAt)
    ensures var s' := ClaimProtocol.OnLoopAnswer(s, p, Read(e.read));
            var o := RenewalOutcome(p, s.runs[p].lastHeld, e);
            && (o.sent.None? ==> s'.net == s.net && LoopLeftWith(s'.runs[p], s.runs[p], o))
            && (o.sent.Some? ==>
                  && s'.runs[p].loop.RenewWrite? && s'.runs[p].loop.call == s.nextCall
                  && s'.net == s.net[s.nextCall := Update(p, o.sent.value, Purpose.Renewal)])
  {
  }

  /** And one whose Update is answered `e.write` ends as the object's does. */
  lemma WriteStepAgrees(s: ClaimProtocol.System, p: Identity, e: Renewal)
    requires p in s.runs && s.runs[p].loop.RenewWrite? && JudgeRead(p, e.read).Mine?
    requires e.endedAt == s.now + s.runs[p].skew
    ensures LoopLeftWith(ClaimProtocol.OnLoopAnswer(s, p, Written(e.write)).runs[p], s.runs[p],
                         RenewalOutcome(p, s.runs[p].lastHeld, e))
  {
  }

  /** In the protocol, a check that is answered decides as the object's does; one that is not changes nothing. */
  lemma CheckStepAgrees(s: ClaimProtocol.System, p: Identity, read: ReadAnswer)
    requires p in s.runs && s.runs[p].task.Checking? && s.runs[p].lost.None?
    ensures var r := ClaimProtocol.OnTaskAnswer(s, p, Read(read)).runs[p];
            && r == s.runs[p].(task := ClaimProtocol.Working, lost := r.lost)
            && (r.lost == Some(LeaseDeleted) <==> read.NotFound?)
            && (forall other :: r.lost == Some(HeldBy(other)) <==> read.Found? && read.lease.holder == other != p)
            && (r.lost == None <==> read.ReadFailed? || (read.Found? && read.lease.holder == p))
    ensures ClaimProtocol.OnTaskFailure(s, p).runs[p] == s.runs[p].(task := ClaimProtocol.Working)
  {
  }

  /** A release in the protocol sends a delete exactly when it read the Lease as its own, for what it read. */
  lemma ReleaseStepAgrees(s: ClaimProtocol.System, p: Identity, read: ReadAnswer)
    requires p in s.runs && s.runs[p].task.ReleaseRead?
    ensures var s' := ClaimProtocol.OnTaskAnswer(s, p, Read(read));
            if read.Found? && read.lease.holder == p
            then s'.net == s.net[s.nextCall := Delete(p, read.lease.uid, read.lease.version)]
            else s'.net == s.net && s'.runs[p].task.Over?
  {
  }

  /** A release that nobody interferes with gives the Lease back. */
  lemma ReleaseGivesBack(sv: Server, p: Identity)
    requires sv.lease.Some? && sv.lease.value.holder == p
    ensures var l := sv.lease.value;
            Serve(sv, Delete(p, l.uid, l.version)) == (Server(None, sv.next), Written(Applied))
  {
  }

  /** A claim begins when its Create or its steal is heard to have been applied, and at no other answer. */
  lemma HoldStepAgrees(s: ClaimProtocol.System, p: Identity, ans: Answer)
    requires p in s.runs && (s.runs[p].task.Creating? || s.runs[p].task.Stealing?)
    ensures var r := ClaimProtocol.OnTaskAnswer(s, p, ans).runs[p];
            if ans == Written(Applied) then
              && r.task.Working? && r.lastHeld == s.now + s.runs[p].skew && r.lost == s.runs[p].lost
              && r.loop == ClaimProtocol.Waiting(s.now + 10_000_000_000)
            else r == s.runs[p].(task := ClaimProtocol.Over)
  {
  }

  /**
   What a steal writes is the Lease its two reads agreed on, with the thief as holder, its
   own clock as the renewal and one more transition; the object and version are those read.
   It is sent exactly when the second read found the version of the first.
   */
  lemma StealSends(s: ClaimProtocol.System, p: Identity, ans: Answer)
    requires p in s.runs && s.runs[p].task.SecondRead?
    ensures var s', first := ClaimProtocol.OnTaskAnswer(s, p, ans), s.runs[p].task.first;
            if ans.Read? && ans.read.Found? && ans.read.lease.version == first.version then
              && s'.runs[p].task == ClaimProtocol.Stealing(s.nextCall, s.now)
              && s'.net.Keys == s.net.Keys + {s.nextCall}
              && var req, l := s'.net[s.nextCall], ans.read.lease;
                 && req.Update? && req.caller == p && req.purpose == Steal(s.runs[p].task.readAt)
                 && req.lease.holder == p && req.lease.renewTime == s.now + s.runs[p].skew
                 && req.lease.transitions == l.transitions + 1
                 && req.lease.uid == l.uid && req.lease.version == l.version
            else s'.net == s.net && s'.runs[p].task.Over?
  {
  }

  /** A first read that finds a Lease is watched from then on; otherwise there is nothing to reclaim. */
  lemma WatchStep(s: ClaimProtocol.System, p: Identity, ans: Answer)
    requires p in s.runs && s.runs[p].task.FirstRead?
    ensures var s' := ClaimProtocol.OnTaskAnswer(s, p, ans);
            && s'.net == s.net
            && s'.runs[p].task == if ans.Read? && ans.read.Found?
                                  then ClaimProtocol.Watching(ans.read.lease, s.now) else ClaimProtocol.Over
  {
  }

  /** A run asks for a new Lease in its own name, renewed by its own clock. */
  lemma CreateSends(s: ClaimProtocol.System, p: Identity)
    requires ClaimProtocol.Enabled(s, ClaimProtocol.BeginAcquire(p))
    ensures var s' := ClaimProtocol.Apply(s, ClaimProtocol.BeginAcquire(p));
            && s'.net == s.net[s.nextCall := Create(p, s.now + s.runs[p].skew)]
            && s'.runs[p].task == ClaimProtocol.Creating(s.nextCall, s.now)
  {
  }

  class Claim {
    const holder: Identity
    var lost: Option<Loss>
    var lastHeld: int

    /** A claim begins at the moment the API server's acceptance is heard. */
    constructor (holder: Identity, now: int)
      ensures this.holder == holder && lost == None && lastHeld == now
    {
      this.holder := holder;
      lost := None;
      lastHeld := now;
    }

    /** Only the first loss is recorded. */
    method SetLost(loss: Loss)
      modifies this`lost
      ensures lost == if old(lost).None? then Some(loss) else old(lost)
    {
      if lost.None? {
        lost := Some(loss);
      }
    }

    method CachedLoss() returns (loss: Option<Loss>)
      ensures loss == lost
    {
      loss := lost;
    }

    method StaleNow(now: int) returns (loss: Option<Loss>)
      ensures loss.Some? <==> now > lastHeld + LEASE_DURATION
      ensures loss == Staleness(lastHeld, now)
    {
      var since := now - lastHeld;
      if since > LEASE_DURATION {
        return Some(NotRenewedFor(since));
      }
      return None;
    }

    /** Re-reads the Lease, checks it is still ours, and extends it. */
    method RenewOnce(e: Renewal) returns (loss: Option<Loss>, sent: Option<Lease>)
      modifies this`lastHeld
      ensures Outcome(loss, lastHeld, sent) == RenewalOutcome(holder, old(lastHeld), e)
      ensures loss.None? ==> e.endedAt <= lastHeld + LEASE_DURATION
    {
      sent := None;
      match e.read
      case NotFound =>
        loss := Some(LeaseDeleted);
      case ReadFailed =>
        loss := StaleNow(e.endedAt);
      case Found(cur) =>
        if cur.holder != holder {
          loss := Some(HeldBy(cur.holder));
        } else {
          var next := cur.(renewTime := e.sentAt);
          sent := Some(next);
          if e.write != Applied {
            loss := StaleNow(e.endedAt);
          } else {
            lastHeld := e.endedAt;
            loss := None;
          }
        }
    }

    /** The renewal loop over the ticks it gets before it is stopped. */
    method RenewLoop(ticks: seq<Renewal>) returns (handled: nat)
      modifies this
      ensures (LoopOutcome(holder, old(lastHeld), ticks).1, LoopOutcome(holder, old(lastHeld), ticks).2)
                == (lastHeld, handled)
      ensures var loss := LoopOutcome(holder, old(lastHeld), ticks).0;
              lost == if old(lost).None? then loss else old(lost)
    {
      handled := 0;
      while handled < |ticks|
        invariant handled <= |ticks| && lost == old(lost)
        invariant var rest := LoopOutcome(holder, lastHeld, ticks[handled..]);
                  LoopOutcome(holder, old(lastHeld), ticks) == (rest.0, rest.1, rest.2 + handled)
      {
        var loss, _ := RenewOnce(ticks[handled]);
        handled := handled + 1;
        if loss.Some? {
          SetLost(loss.value);
          return;
        }
      }
    }

    /**
     The fence at a step boundary: asks the API server unless the loss is already
     known, and on a failed call falls back to what is known.
     */
    method CheckHeld(read: ReadAnswer) returns (loss: Option<Loss>)
      modifies this`lost
      ensures loss == lost
      ensures old(lost).Some? ==> lost == old(lost)
      ensures old(lost).None? ==>
                lost == match JudgeRead(holder, read)
                        case Fenced(l) => Some(l)
                        case _ => None
    {
      if lost.Some? {
        return lost;
      }
      match read {
        case NotFound =>
          SetLost(LeaseDeleted);
        case Found(cur) =>
          if cur.holder != holder {
            SetLost(HeldBy(cur.holder));
          }
        case ReadFailed =>
      }
      return lost;
    }

    /** Gives the claim up: deletes the Lease it read, and only if that Lease names it. */
    method Release(read: ReadAnswer) returns (delete: Option<Request>)
      ensures delete.Some? <==> JudgeRead(holder, read).Mine?
      ensures delete.Some? ==> delete.value == Delete(holder, read.lease.uid, read.lease.version)
    {
      if !read.Found? || read.lease.holder != holder {
        return None;
      }
      return Some(Delete(holder, read.lease.uid, read.lease.version));
    }
  }
}
