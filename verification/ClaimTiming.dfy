/**
 How long a holder that was reclaimed can go on believing it holds the lock. Clocks
 may disagree by any amount as long as they run at the same rate; the renewal loop
 is assumed to run, its calls to take at most a renewal interval, and the call that
 takes the claim at most a given bound.
 */
module ClaimTiming {
  import opened Wrappers
  import opened ClaimTypes
  import opened ClaimProtocol
  import opened ClaimInvariant
  import opened ClaimSafety

  /** When the run last knew it held the claim, in real time. */
  ghost function HeldAt(r: Run): int
  {
    r.lastHeld - r.skew
  }

  ghost function Max(a: int, b: int): int
  {
    if a < b then b else a
  }

  /** A run that is working under its claim and has not been fenced. */
  ghost predicate Live(r: Run)
  {
    (r.task.Working? || r.task.Checking?) && r.lost.None?
  }

  ghost predicate Looping(l: Loop)
  {
    l.Waiting? || l.RenewRead? || l.RenewWrite?
  }

  // ---- calls and their answers belong together ----

  /** An answer "applied" to a call sent at `since` means the Lease was written as `p`'s no earlier. */
  ghost predicate AnswerDated(s: System, p: Identity, c: nat, since: int)
  {
    && c < s.nextCall && since <= s.now
    && (c in s.replies && s.replies[c] == Written(Applied) ==> p in s.wroteAt && since <= s.wroteAt[p])
  }

  /** The call a run waits on is its own, and is the kind of call it thinks it is. */
  ghost predicate CallsOk(s: System, p: Identity, r: Run)
  {
    && (r.task.Creating? || r.task.Stealing? ==>
          && AnswerDated(s, p, r.task.call, r.task.since)
          && (r.task.call in s.net ==> Introduces(s.net[r.task.call], p)))
    && (r.loop.RenewWrite? ==>
          && AnswerDated(s, p, r.loop.call, r.loop.since)
          && (r.loop.call in s.net ==>
                s.net[r.loop.call].Update? && s.net[r.loop.call].caller == p && s.net[r.loop.call].purpose.Renewal?))
    && (r.loop.RenewRead? ==> r.loop.since <= s.now)
  }

  /** A steal on its way was sent at least a lease duration after the last write of the version it carries. */
  ghost predicate StealDated(s: System, req: Request)
  {
    req.Update? && req.purpose.Steal? ==>
      && req.purpose.firstReadAt + LEASE_DURATION <= s.now
      && (s.server.lease.Some? && s.server.lease.value.version == req.lease.version ==>
            && s.server.lease.value.holder in s.wroteAt
            && s.wroteAt[s.server.lease.value.holder] <= req.purpose.firstReadAt)
  }

  ghost predicate WatchDated(s: System, t: Task)
  {
    && (t.Watching? || t.SecondRead? ==>
          && t.readAt <= s.now
          && (s.server.lease.Some? && s.server.lease.value.version == t.first.version ==>
                && s.server.lease.value.holder in s.wroteAt
                && s.wroteAt[s.server.lease.value.holder] <= t.readAt))
    && (t.SecondRead? ==> t.readAt + LEASE_DURATION <= s.now)
  }

  /** The dates the system keeps are consistent. Holds in every history, timed or not. */
  ghost predicate Dated(s: System)
  {
    && (forall p :: p in s.wroteAt ==> s.wroteAt[p] <= s.now)
    && (s.server.lease.Some? ==> s.server.lease.value.holder in s.wroteAt)
    && (forall c :: c in s.net ==> StealDated(s, s.net[c]))
    && (forall p :: p in s.runs ==> WatchDated(s, s.runs[p].task))
    && (forall p :: p in s.runs ==> CallsOk(s, p, s.runs[p]))
  }

  lemma DatedCarry(s: System, c: nat)
    requires Inv(s) && Dated(s) && c in s.net
    ensures Dated(CarryOut(s, c))
  {
    var s' := CarryOut(s, c);
    assert RequestOk(s.server, s.net[c]);
    assert s'.server == s.server || s'.server.lease.None? || s'.server.lease.value.version == s.server.next;
    forall d | d in s'.net
      ensures StealDated(s', s'.net[d])
    {
      assert StealDated(s, s.net[d]) && RequestOk(s.server, s.net[d]);
    }
    forall p | p in s'.runs
      ensures WatchDated(s', s'.runs[p].task)
    {
      assert WatchDated(s, s.runs[p].task) && TaskOk(s, p, s.runs[p].task);
    }
    forall p | p in s'.runs
      ensures CallsOk(s', p, s'.runs[p])
    {
      assert CallsOk(s, p, s.runs[p]);
    }
  }

  lemma DatedOutsider(s: System, a: Action)
    requires Inv(s) && Dated(s) && Enabled(s, a) && (a.OutsiderTouches? || a.OutsiderDeletes? || a.Pass?)
    ensures Dated(Apply(s, a))
  {
    var s' := Apply(s, a);
    forall d | d in s'.net
      ensures StealDated(s', s'.net[d])
    {
      assert StealDated(s, s.net[d]) && RequestOk(s.server, s.net[d]);
    }
    forall p | p in s'.runs
      ensures WatchDated(s', s'.runs[p].task) && CallsOk(s', p, s'.runs[p])
    {
      assert WatchDated(s, s.runs[p].task) && TaskOk(s, p, s.runs[p].task) && CallsOk(s, p, s.runs[p]);
    }
  }

  /** A run that changes by itself stays dated if its new state is. */
  lemma DatedMove(s: System, p: Identity, r: Run)
    requires Inv(s) && Dated(s) && p in s.runs && WatchDated(s, r.task) && CallsOk(s, p, r)
    ensures Dated(SetRun(s, p, r))
  {
    var s' := SetRun(s, p, r);
    forall q | q in s'.runs
      ensures WatchDated(s', s'.runs[q].task) && CallsOk(s', q, s'.runs[q])
    {
      if q != p {
        assert WatchDated(s, s.runs[q].task) && CallsOk(s, q, s.runs[q]);
      }
    }
    assert forall d :: d in s'.net ==> StealDated(s, s.net[d]);
  }

  /** Sending a request keeps the dates, if both the request and the sender's new state are dated. */
  lemma DatedSend(s: System, p: Identity, r: Run, req: Request)
    requires Inv(s) && Dated(s) && p in s.runs && WatchDated(s, r.task) && StealDated(s, req)
    requires CallsOk(Send(s, p, r, req), p, r)
    ensures Dated(Send(s, p, r, req))
  {
    var s' := Send(s, p, r, req);
    forall q | q in s'.runs
      ensures WatchDated(s', s'.runs[q].task) && CallsOk(s', q, s'.runs[q])
    {
      if q != p {
        assert WatchDated(s, s.runs[q].task) && CallsOk(s, q, s.runs[q]);
      }
    }
    forall d | d in s'.net
      ensures StealDated(s', s'.net[d])
    {
      assert d in s.net ==> StealDated(s, s.net[d]);
    }
  }

  lemma DatedTaskAnswer(s: System, p: Identity, ans: Answer)
    requires Inv(s) && Dated(s) && p in s.runs && AnswerOk(s.server, ans)
    ensures Dated(OnTaskAnswer(s, p, ans))
  {
    assert WatchDated(s, s.runs[p].task) && TaskOk(s, p, s.runs[p].task) && CallsOk(s, p, s.runs[p]);
    if OnTaskAnswer(s, p, ans).net == s.net {
      var r := TaskAnswerMoves(s, p, ans);
      TaskMoveDated(s, p, ans, r);
      DatedMove(s, p, r);
    } else {
      var r, req := TaskAnswerSends(s, p, ans);
      TaskSendDated(s, p, ans, r, req);
      DatedSend(s, p, r, req);
    }
  }

  lemma TaskMoveDated(s: System, p: Identity, ans: Answer, r: Run)
    requires p in s.runs && AnswerOk(s.server, ans) && OnTaskAnswer(s, p, ans) == SetRun(s, p, r)
    requires WatchDated(s, s.runs[p].task) && CallsOk(s, p, s.runs[p])
    requires s.server.lease.Some? ==> s.server.lease.value.holder in s.wroteAt
    requires forall q :: q in s.wroteAt ==> s.wroteAt[q] <= s.now
    requires OnTaskAnswer(s, p, ans).net == s.net && s.nextCall !in s.net
    ensures WatchDated(s, r.task) && CallsOk(s, p, r)
  {
    assert r == SetRun(s, p, r).runs[p];
    assert r == OnTaskAnswer(s, p, ans).runs[p];
  }

  lemma TaskSendDated(s: System, p: Identity, ans: Answer, r: Run, req: Request)
    requires p in s.runs && OnTaskAnswer(s, p, ans) == Send(s, p, r, req)
    requires NumbersFresh(s) && WatchDated(s, s.runs[p].task) && CallsOk(s, p, s.runs[p])
    requires OnTaskAnswer(s, p, ans).net != s.net
    ensures WatchDated(s, r.task) && StealDated(s, req) && CallsOk(Send(s, p, r, req), p, r)
  {
    var s' := Send(s, p, r, req);
    assert r == s'.runs[p] && req == s'.net[s.nextCall];
    assert r == OnTaskAnswer(s, p, ans).runs[p];
  }

  lemma DatedLoopAnswer(s: System, p: Identity, ans: Answer)
    requires Inv(s) && Dated(s) && p in s.runs
    ensures Dated(OnLoopAnswer(s, p, ans))
  {
    assert WatchDated(s, s.runs[p].task) && CallsOk(s, p, s.runs[p]);
    if s.runs[p].loop.RenewRead? && ans.Read? && JudgeRead(p, ans.read).Mine? {
      var r, req := LoopSendDated(s, p, ans);
      DatedSend(s, p, r, req);
    } else {
      var r' := LoopAnswerMoves(s, p, ans);
      LoopMoveDated(s, p, ans, r');
      DatedMove(s, p, r');
    }
  }

  lemma LoopSendDated(s: System, p: Identity, ans: Answer) returns (r: Run, req: Request)
    requires p in s.runs && s.runs[p].loop.RenewRead? && ans.Read? && JudgeRead(p, ans.read).Mine?
    requires NumbersFresh(s) && WatchDated(s, s.runs[p].task) && CallsOk(s, p, s.runs[p])
    ensures OnLoopAnswer(s, p, ans) == Send(s, p, r, req)
    ensures WatchDated(s, r.task) && StealDated(s, req) && CallsOk(Send(s, p, r, req), p, r)
  {
    var was := s.runs[p];
    r := was.(loop := RenewWrite(s.nextCall, was.loop.since, was.loop.due));
    req := Update(p, Renewed(ans.read.lease, s.now + was.skew), Renewal);
  }

  lemma LoopMoveDated(s: System, p: Identity, ans: Answer, r: Run)
    requires p in s.runs && OnLoopAnswer(s, p, ans) == SetRun(s, p, r) && r.task == s.runs[p].task
    requires !(s.runs[p].loop.RenewRead? && ans.Read? && JudgeRead(p, ans.read).Mine?)
    requires CallsOk(s, p, s.runs[p])
    ensures CallsOk(s, p, r)
  {
    assert r == SetRun(s, p, r).runs[p];
    assert r.loop == s.runs[p].loop || r.loop.Waiting? || r.loop.Stopped?;
  }

  lemma DatedSendingStep(s: System, a: Action)
    requires Inv(s) && Dated(s) && Enabled(s, a) && JustSends(a)
    ensures Dated(Apply(s, a))
  {
    assert TaskOk(s, a.p, s.runs[a.p].task);
    assert WatchDated(s, s.runs[a.p].task) && CallsOk(s, a.p, s.runs[a.p]);
    var r, req := SendingStep(s, a);
    SendingStepDated(s, a, r, req);
    DatedSend(s, a.p, r, req);
  }

  lemma SendingStepDated(s: System, a: Action, r: Run, req: Request)
    requires Enabled(s, a) && JustSends(a) && Apply(s, a) == Send(s, a.p, r, req)
    requires NumbersFresh(s) && WatchDated(s, s.runs[a.p].task) && CallsOk(s, a.p, s.runs[a.p])
    ensures WatchDated(s, r.task) && StealDated(s, req) && CallsOk(Send(s, a.p, r, req), a.p, r)
  {
    var s' := Send(s, a.p, r, req);
    assert r == s'.runs[a.p] && req == s'.net[s.nextCall];
    assert r == Apply(s, a).runs[a.p];
  }

  lemma DatedMovingStep(s: System, a: Action)
    requires Inv(s) && Dated(s) && Enabled(s, a) && JustMoves(a)
    ensures Dated(Apply(s, a))
  {
    assert TaskOk(s, a.p, s.runs[a.p].task);
    assert WatchDated(s, s.runs[a.p].task) && CallsOk(s, a.p, s.runs[a.p]);
    var r := MovingStep(s, a);
    MovingStepDated(s, a, r);
    DatedMove(s, a.p, r);
  }

  lemma MovingStepDated(s: System, a: Action, r: Run)
    requires Enabled(s, a) && JustMoves(a) && Apply(s, a) == SetRun(s, a.p, r)
    requires WatchDated(s, s.runs[a.p].task) && CallsOk(s, a.p, s.runs[a.p])
    ensures WatchDated(s, r.task) && CallsOk(s, a.p, r)
  {
    assert r == SetRun(s, a.p, r).runs[a.p];
    assert r == Apply(s, a).runs[a.p];
  }

  lemma DatedStep(s: System, a: Action, s': System)
    requires Inv(s) && Dated(s) && Step(s, a, s')
    ensures Dated(s')
  {
    if JustSends(a) {
      DatedSendingStep(s, a);
    } else if JustMoves(a) {
      DatedMovingStep(s, a);
    } else if a.TaskAnswered? {
      DatedTaskAnswer(s, a.p, s.replies[TaskCall(s.runs[a.p].task).value]);
    } else if a.LoopAnswered? {
      DatedLoopAnswer(s, a.p, s.replies[LoopCall(s.runs[a.p].loop).value]);
    } else if a.Carry? {
      DatedCarry(s, a.call);
    } else {
      DatedOutsider(s, a);
    }
  }

  lemma {:induction false} DatedAlways(h: History, i: nat)
    requires h.Valid() && i < |h.states|
    ensures Dated(h.states[i])
  {
    if i > 0 {
      DatedAlways(h, i - 1);
      InvAlways(h, i - 1);
      DatedStep(h.states[i - 1], h.actions[i - 1], h.states[i]);
    }
  }

  // ---- timely histories ----

  /** Nobody misses a deadline by time moving to `t`; `bound` limits the call that takes a claim. */
  ghost predicate InTime(r: Run, t: int, bound: nat)
  {
    && (r.loop.Waiting? ==> t <= r.loop.due)
    && (r.loop.RenewRead? || r.loop.RenewWrite? ==> t <= r.loop.since + RENEW_INTERVAL)
    && (r.task.Creating? || r.task.Stealing? ==> t <= r.task.since + bound)
  }

  /** Time passes only as far as the earliest deadline of any run. */
  ghost predicate Timely(h: History, bound: nat)
    requires h.Valid()
  {
    forall i, p :: 0 <= i < |h.actions| && h.actions[i].Pass? && h.actions[i].elapsed > 0 && p in h.states[i].runs ==>
      InTime(h.states[i].runs[p], h.states[i].now + h.actions[i].elapsed, bound)
  }

  /** How far a run's belief that it holds the claim can be from its last write and from the present. */
  ghost predicate Bounded(s: System, p: Identity, r: Run, bound: nat)
  {
    && (r.loop.Waiting? ==>
          && s.now <= HeldAt(r) + LEASE_DURATION + RENEW_INTERVAL
          && r.loop.due <= HeldAt(r) + LEASE_DURATION + RENEW_INTERVAL)
    && (r.loop.RenewRead? || r.loop.RenewWrite? ==>
          && r.loop.since <= HeldAt(r) + LEASE_DURATION + RENEW_INTERVAL
          && r.loop.due <= r.loop.since + RENEW_INTERVAL
          && s.now <= r.loop.since + RENEW_INTERVAL)
    && (r.task.Creating? || r.task.Stealing? ==> s.now <= r.task.since + bound)
    && (Live(r) ==> Looping(r.loop))
    && (Looping(r.loop) ==> p in s.wroteAt && HeldAt(r) <= s.wroteAt[p] + Max(bound, RENEW_INTERVAL))
  }

  ghost predicate AllBounded(s: System, bound: nat)
  {
    forall p :: p in s.runs ==> Bounded(s, p, s.runs[p], bound)
  }

  lemma BoundedOthers(s: System, s': System, p: Identity, r: Run, bound: nat)
    requires AllBounded(s, bound) && p in s.runs && Bounded(s', p, r, bound)
    requires s'.runs == s.runs[p := r] && s'.now == s.now && s'.wroteAt == s.wroteAt
    ensures AllBounded(s', bound)
  {
    forall q | q in s'.runs
      ensures Bounded(s', q, s'.runs[q], bound)
    {
      if q != p {
        assert Bounded(s, q, s.runs[q], bound);
      }
    }
  }

  lemma BoundedServer(s: System, s': System, bound: nat)
    requires AllBounded(s, bound) && s'.runs == s.runs && s'.now == s.now
    requires forall p :: p in s.wroteAt ==> p in s'.wroteAt && s.wroteAt[p] <= s'.wroteAt[p]
    ensures AllBounded(s', bound)
  {
    forall p | p in s'.runs
      ensures Bounded(s', p, s'.runs[p], bound)
    {
      assert Bounded(s, p, s.runs[p], bound);
    }
  }

  lemma BoundedPass(s: System, d: nat, bound: nat)
    requires AllBounded(s, bound)
    requires d > 0 ==> forall p :: p in s.runs ==> InTime(s.runs[p], s.now + d, bound)
    ensures AllBounded(s.(now := s.now + d), bound)
  {
    var s' := s.(now := s.now + d);
    forall p | p in s'.runs
      ensures Bounded(s', p, s'.runs[p], bound)
    {
      assert Bounded(s, p, s.runs[p], bound);
    }
  }

  /** One run changed, and nothing else it is bounded by did. */
  ghost predicate OnlyRunChanged(s: System, s': System, p: Identity)
  {
    p in s'.runs && s'.runs == s.runs[p := s'.runs[p]] && s'.now == s.now && s'.wroteAt == s.wroteAt
  }

  lemma BoundedHold(s: System, p: Identity, bound: nat)
    requires p in s.runs && (s.runs[p].task.Creating? || s.runs[p].task.Stealing?)
    requires CallsOk(s, p, s.runs[p]) && Bounded(s, p, s.runs[p], bound)
    requires s.runs[p].task.call in s.replies && s.replies[s.runs[p].task.call] == Written(Applied)
    ensures OnlyRunChanged(s, Hold(s, p), p) && Bounded(Hold(s, p), p, Hold(s, p).runs[p], bound)
  {
  }

  lemma BoundedTaskAnswer(s: System, p: Identity, bound: nat)
    requires Enabled(s, TaskAnswered(p)) && CallsOk(s, p, s.runs[p]) && Bounded(s, p, s.runs[p], bound)
    ensures var s' := Apply(s, TaskAnswered(p));
            OnlyRunChanged(s, s', p) && Bounded(s', p, s'.runs[p], bound)
  {
    var ans := s.replies[TaskCall(s.runs[p].task).value];
    if (s.runs[p].task.Creating? || s.runs[p].task.Stealing?) && ans == Written(Applied) {
      BoundedHold(s, p, bound);
    } else {
      TaskAnswerKeepsLoop(s, p, ans);
    }
  }

  /** Any other answer leaves the loop alone and takes a run no nearer to holding. */
  lemma TaskAnswerKeepsLoop(s: System, p: Identity, ans: Answer)
    requires p in s.runs
    requires !((s.runs[p].task.Creating? || s.runs[p].task.Stealing?) && ans == Written(Applied))
    ensures var s' := OnTaskAnswer(s, p, ans);
            && OnlyRunChanged(s, s', p)
            && s'.runs[p].(task := s.runs[p].task, lost := s.runs[p].lost) == s.runs[p]
            && (Live(s'.runs[p]) ==> Live(s.runs[p]))
            && (s'.runs[p].task.Stealing? ==> s'.runs[p].task.since == s.now)
            && !s'.runs[p].task.Creating?
  {
  }

  lemma BoundedLoopAnswer(s: System, p: Identity, bound: nat)
    requires Enabled(s, LoopAnswered(p)) && CallsOk(s, p, s.runs[p]) && Bounded(s, p, s.runs[p], bound)
    ensures var s' := Apply(s, LoopAnswered(p));
            OnlyRunChanged(s, s', p) && Bounded(s', p, s'.runs[p], bound)
  {
  }

  lemma BoundedSend(s: System, a: Action, bound: nat)
    requires Enabled(s, a) && JustSends(a) && !a.RenewTick?
    requires Bounded(s, a.p, s.runs[a.p], bound)
    ensures var s' := Apply(s, a);
            OnlyRunChanged(s, s', a.p) && Bounded(s', a.p, s'.runs[a.p], bound)
  {
    var s' := Apply(s, a);
    assert s'.runs[a.p].(task := s.runs[a.p].task) == s.runs[a.p];
  }

  lemma BoundedTick(s: System, p: Identity, next: int, bound: nat)
    requires Enabled(s, RenewTick(p, next)) && Bounded(s, p, s.runs[p], bound)
    ensures var s' := Apply(s, RenewTick(p, next));
            OnlyRunChanged(s, s', p) && Bounded(s', p, s'.runs[p], bound)
  {
  }

  lemma BoundedLoopFailure(s: System, p: Identity, bound: nat)
    requires p in s.runs && CallsOk(s, p, s.runs[p]) && Bounded(s, p, s.runs[p], bound)
    ensures var s' := OnLoopFailure(s, p);
            OnlyRunChanged(s, s', p) && Bounded(s', p, s'.runs[p], bound)
  {
    assert s == SetRun(s, p, s.runs[p]);
  }

  lemma BoundedMove(s: System, a: Action, bound: nat)
    requires Enabled(s, a) && JustMoves(a) && !a.LoopFailed?
    requires Bounded(s, a.p, s.runs[a.p], bound)
    ensures var s' := Apply(s, a);
            OnlyRunChanged(s, s', a.p) && Bounded(s', a.p, s'.runs[a.p], bound)
  {
  }

  lemma BoundedOwnStep(s: System, a: Action, bound: nat)
    requires Enabled(s, a) && (JustSends(a) || JustMoves(a))
    requires CallsOk(s, a.p, s.runs[a.p]) && Bounded(s, a.p, s.runs[a.p], bound)
    ensures var s' := Apply(s, a);
            OnlyRunChanged(s, s', a.p) && Bounded(s', a.p, s'.runs[a.p], bound)
  {
    if a.RenewTick? {
      BoundedTick(s, a.p, a.nextDue, bound);
    } else if a.LoopFailed? {
      BoundedLoopFailure(s, a.p, bound);
    } else if JustSends(a) {
      BoundedSend(s, a, bound);
    } else {
      BoundedMove(s, a, bound);
    }
  }

  lemma BoundedStep(s: System, a: Action, s': System, bound: nat)
    requires Dated(s) && AllBounded(s, bound) && Step(s, a, s')
    requires a.Pass? && a.elapsed > 0 ==> forall p :: p in s.runs ==> InTime(s.runs[p], s.now + a.elapsed, bound)
    ensures AllBounded(s', bound)
  {
    if a.Pass? {
      BoundedPass(s, a.elapsed, bound);
    } else if a.Carry? || a.OutsiderTouches? || a.OutsiderDeletes? {
      BoundedServer(s, s', bound);
    } else {
      assert CallsOk(s, a.p, s.runs[a.p]) && Bounded(s, a.p, s.runs[a.p], bound);
      if a.TaskAnswered? {
        BoundedTaskAnswer(s, a.p, bound);
      } else if a.LoopAnswered? {
        BoundedLoopAnswer(s, a.p, bound);
      } else {
        BoundedOwnStep(s, a, bound);
      }
      BoundedOthers(s, s', a.p, s'.runs[a.p], bound);
    }
  }

  lemma {:induction false} BoundedAlways(h: History, i: nat, bound: nat)
    requires h.Valid() && Timely(h, bound) && i < |h.states|
    ensures AllBounded(h.states[i], bound)
  {
    if i > 0 {
      BoundedAlways(h, i - 1, bound);
      DatedAlways(h, i - 1);
      assert Step(h.states[i - 1], h.actions[i - 1], h.states[i]);
      BoundedStep(h.states[i - 1], h.actions[i - 1], h.states[i], bound);
    }
  }

  /** The date of a replaced holder's last write never moves again. */
  lemma {:induction false} LastWriteFrozen(h: History, i: nat, j: nat, k: nat, p: Identity)
    requires h.Valid() && Replaced(h, i, j, p) && j <= k < |h.states| && p in h.states[j].wroteAt
    ensures p in h.states[k].wroteAt && h.states[k].wroteAt[p] == h.states[j].wroteAt[p]
  {
    if j < k {
      LastWriteFrozen(h, i, j, k - 1, p);
      IdentityNeverReturns(h, i, j, k, p);
      var s, a, s' := h.states[k - 1], h.actions[k - 1], h.states[k];
      assert Step(s, a, s');
      if a.OutsiderTouches? {
        assert s'.server.Names(s.server.lease.value.holder);
      } else if !a.Carry? {
        WhoWritesDates(s, a);
      }
    }
  }

  lemma WhoWritesDates(s: System, a: Action)
    requires Enabled(s, a) && !a.Carry? && !a.OutsiderTouches?
    ensures Apply(s, a).wroteAt == s.wroteAt
  {
  }

  /**
   The fence closes in time: with the renewal loop running and the call that takes a
   claim answered within `bound`, a run whose Lease was stolen in step `i` is live at
   most two renewal intervals plus the larger of `bound` and one interval later,
   however far the runs' clocks disagree and whatever the API server answers.
   */
  lemma OverlapIsBounded(h: History, i: nat, k: nat, p: Identity, steal: Request, bound: nat)
    requires h.Valid() && Timely(h, bound)
    requires Serves(h, i, steal) && steal.Update? && steal.purpose.Steal?
    requires NamedAt(h, i, p) && h.states[i + 1].server != h.states[i].server
    requires i < k < |h.states| && p in h.states[k].runs && Live(h.states[k].runs[p])
    ensures h.states[k].now <= h.states[i].now + 2 * RENEW_INTERVAL + Max(bound, RENEW_INTERVAL)
  {
    var s, s' := h.states[i], h.states[i + 1];
    assert Step(s, h.actions[i], s');
    InvAlways(h, i);
    DatedAlways(h, i);
    assert RequestOk(s.server, steal) && StealDated(s, steal);
    assert Introduces(steal, steal.caller) && !MayEnter(s, p);
    assert Replaced(h, i, i + 1, p);
    LastWriteFrozen(h, i, i + 1, k, p);
    BoundedAlways(h, k, bound);
    assert Bounded(h.states[k], p, h.states[k].runs[p], bound);
  }

  /** With every call answered within a renewal interval, the overlap is at most three intervals. */
  lemma OverlapIsThreeIntervals(h: History, i: nat, k: nat, p: Identity, steal: Request)
    requires h.Valid() && Timely(h, RENEW_INTERVAL)
    requires Serves(h, i, steal) && steal.Update? && steal.purpose.Steal?
    requires NamedAt(h, i, p) && h.states[i + 1].server != h.states[i].server
    requires i < k < |h.states| && p in h.states[k].runs && Live(h.states[k].runs[p])
    ensures h.states[k].now <= h.states[i].now + 30_000_000_000
  {
    OverlapIsBounded(h, i, k, p, steal, RENEW_INTERVAL);
  }

  // ---- lastHeld freezes ----

  /** A success the run has not heard of yet is waiting for it. */
  ghost predicate SuccessPending(s: System, p: Identity)
    requires p in s.runs
  {
    var r := s.runs[p];
    || ((r.task.Creating? || r.task.Stealing?) && r.task.call in s.replies && s.replies[r.task.call] == Written(Applied))
    || (r.loop.RenewWrite? && r.loop.call in s.replies && s.replies[r.loop.call] == Written(Applied))
  }

  lemma FrozenCarry(s: System, c: nat, p: Identity)
    requires Inv(s) && Dated(s) && c in s.net && p in s.runs
    requires !MayEnter(s, p) && !s.server.Names(p) && !SuccessPending(s, p)
    ensures !SuccessPending(CarryOut(s, c), p)
  {
    assert CallsOk(s, p, s.runs[p]);
    if s.net[c].caller == p {
      InertRequest(s, c, p);
    }
  }

  lemma FrozenOwn(s: System, a: Action, p: Identity)
    requires Enabled(s, a) && (JustSends(a) || JustMoves(a)) && p in s.runs && NumbersFresh(s)
    requires !SuccessPending(s, p)
    ensures var s' := Apply(s, a);
            p in s'.runs && !SuccessPending(s', p) && s'.runs[p].lastHeld == s.runs[p].lastHeld
  {
    if a.LoopFailed? {
      var r := LoopFailureMoves(s, a.p);
    }
  }

  lemma FrozenStep(s: System, a: Action, s': System, p: Identity)
    requires Inv(s) && Dated(s) && Step(s, a, s') && p in s.runs
    requires !MayEnter(s, p) && !s.server.Names(p) && !SuccessPending(s, p)
    ensures p in s'.runs && !SuccessPending(s', p) && s'.runs[p].lastHeld == s.runs[p].lastHeld
  {
    assert CallsOk(s, p, s.runs[p]);
    if JustSends(a) || JustMoves(a) {
      FrozenOwn(s, a, p);
    } else if a.Carry? {
      FrozenCarry(s, a.call, p);
    } else if a.TaskAnswered? {
      FrozenTaskAnswer(s, a.p, p);
    } else if a.LoopAnswered? {
      FrozenLoopAnswer(s, a.p, p);
    }
  }

  lemma FrozenTaskAnswer(s: System, q: Identity, p: Identity)
    requires Enabled(s, TaskAnswered(q)) && p in s.runs && NumbersFresh(s) && CallsOk(s, p, s.runs[p])
    requires !SuccessPending(s, p)
    ensures var s' := Apply(s, TaskAnswered(q));
            p in s'.runs && !SuccessPending(s', p) && s'.runs[p].lastHeld == s.runs[p].lastHeld
  {
    var ans := s.replies[TaskCall(s.runs[q].task).value];
    TaskAnswerIsOnlyRun(s, q, ans);
    if p == q {
      FrozenOwnAnswer(s, p, ans);
    }
  }

  lemma FrozenOwnAnswer(s: System, p: Identity, ans: Answer)
    requires Enabled(s, TaskAnswered(p)) && NumbersFresh(s) && CallsOk(s, p, s.runs[p])
    requires ans == s.replies[TaskCall(s.runs[p].task).value] && !SuccessPending(s, p)
    ensures var s' := OnTaskAnswer(s, p, ans);
            s'.replies == s.replies && !SuccessPending(s', p) && s'.runs[p].lastHeld == s.runs[p].lastHeld
  {
    TaskAnswerKeepsLoop(s, p, ans);
    TaskAnswerIsOnlyRun(s, p, ans);
    StealIsNew(s, p, ans);
  }

  /** A task that an answer makes steal waits on a call not answered yet. */
  lemma StealIsNew(s: System, p: Identity, ans: Answer)
    requires p in s.runs
    ensures OnTaskAnswer(s, p, ans).runs[p].task.Stealing? && !s.runs[p].task.Stealing? ==>
              OnTaskAnswer(s, p, ans).runs[p].task.call == s.nextCall
    ensures s.runs[p].task.Stealing? ==> !OnTaskAnswer(s, p, ans).runs[p].task.Stealing?
  {
  }

  lemma FrozenLoopAnswer(s: System, q: Identity, p: Identity)
    requires Enabled(s, LoopAnswered(q)) && p in s.runs && NumbersFresh(s) && CallsOk(s, p, s.runs[p])
    requires !SuccessPending(s, p)
    ensures var s' := Apply(s, LoopAnswered(q));
            p in s'.runs && !SuccessPending(s', p) && s'.runs[p].lastHeld == s.runs[p].lastHeld
  {
    var ans := s.replies[LoopCall(s.runs[q].loop).value];
    LoopAnswerIsOnlyRun(s, q, ans);
    if p == q {
      FrozenOwnLoop(s, p, ans);
    }
  }

  lemma FrozenOwnLoop(s: System, p: Identity, ans: Answer)
    requires Enabled(s, LoopAnswered(p)) && NumbersFresh(s)
    requires ans == s.replies[LoopCall(s.runs[p].loop).value] && !SuccessPending(s, p)
    ensures var s' := OnLoopAnswer(s, p, ans);
            !SuccessPending(s', p) && s'.runs[p].lastHeld == s.runs[p].lastHeld
  {
  }

  /**
   After an identity has left the Lease, its run's lastHeld never moves again, unless
   the answer to a write carried out earlier was still on its way.
   */
  lemma {:induction false} LastHeldFreezes(h: History, i: nat, j: nat, k: nat, p: Identity)
    requires h.Valid() && Replaced(h, i, j, p) && j <= k < |h.states|
    requires p in h.states[j].runs && !SuccessPending(h.states[j], p)
    ensures p in h.states[k].runs && !SuccessPending(h.states[k], p)
    ensures h.states[k].runs[p].lastHeld == h.states[j].runs[p].lastHeld
  {
    if j < k {
      LastHeldFreezes(h, i, j, k - 1, p);
      InvAlways(h, i);
      ClosedFrom(h, i, j, p);
      OutFrom(h, j, k - 1, p);
      InvAlways(h, k - 1);
      DatedAlways(h, k - 1);
      FrozenStep(h.states[k - 1], h.actions[k - 1], h.states[k], p);
    }
  }

  /**
   A renewal that ends more than a lease duration after lastHeld fences its run,
   whatever the API server answered and whether it answered at all.
   */
  lemma LateRenewalFences(s: System, a: Action)
    requires Enabled(s, a) && (a.LoopAnswered? || a.LoopFailed?)
    requires Apply(s, a).runs[a.p].loop.Waiting? || Apply(s, a).runs[a.p].loop.Stopped?
    ensures var r := Apply(s, a).runs[a.p];
            s.now > HeldAt(r) + LEASE_DURATION ==> r.lost.Some? && r.loop.Stopped?
  {
  }
}
