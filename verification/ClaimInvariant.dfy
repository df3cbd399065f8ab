/**
 What every step of the lock protocol keeps: versions identify contents, a request
 that would rewrite or delete the Lease only fits a Lease that names its caller (or
 is a steal), and an identity that may still enter the Lease has never been in it.
 */
module ClaimInvariant {
  import opened Wrappers
  import opened ClaimTypes
  import opened ClaimProtocol

  /** `l` is a true copy: any Lease still at that version is exactly it. */
  ghost predicate TrueCopy(sv: Server, l: Lease)
  {
    l.version < sv.next && (sv.lease.Some? && sv.lease.value.version == l.version ==> sv.lease.value == l)
  }

  /** What an outstanding request may assume if it is carried out successfully. */
  ghost predicate RequestOk(sv: Server, req: Request)
  {
    match req
    case Create(_, _) => true
    case Get(_) => true
    case Update(p, l, Renewal) =>
      && l.version < sv.next && l.holder == p
      && (sv.lease.Some? && sv.lease.value.version == l.version ==> sv.lease.value.holder == p)
    case Update(p, l, Steal(_)) => l.version < sv.next && l.holder == p
    case Delete(p, _, v) =>
      v < sv.next && (sv.lease.Some? && sv.lease.value.version == v ==> sv.lease.value.holder == p)
  }

  ghost predicate AnswerOk(sv: Server, ans: Answer)
  {
    ans.Read? && ans.read.Found? ==> TrueCopy(sv, ans.read.lease)
  }

  /** Requests that can put an identity into the Lease that is not there yet. */
  ghost predicate Introduces(req: Request, p: Identity)
  {
    req.caller == p && (req.Create? || (req.Update? && req.purpose.Steal?))
  }

  /** A run that has not yet sent the one request that could make it the holder. */
  ghost predicate BeforeClaim(t: Task)
  {
    t.Fresh? || t.FirstRead? || t.Watching? || t.SecondRead?
  }

  /** The identity may still enter the Lease. */
  ghost predicate MayEnter(s: System, p: Identity)
  {
    (p in s.runs && BeforeClaim(s.runs[p].task)) || exists c :: c in s.net && Introduces(s.net[c], p)
  }

  /** What a task may be holding on to. */
  ghost predicate TaskOk(s: System, p: Identity, t: Task)
  {
    && (t.Watching? || t.SecondRead? ==> TrueCopy(s.server, t.first))
    && (BeforeClaim(t) ==> forall c :: c in s.net ==> !Introduces(s.net[c], p))
  }

  /** Each identity enters by one request only. */
  ghost predicate OneEntry(net: map<nat, Request>)
  {
    forall c, d, p :: c in net && d in net && Introduces(net[c], p) && Introduces(net[d], p) ==> c == d
  }

  ghost predicate NumbersFresh(s: System)
  {
    forall c :: c in s.net || c in s.replies ==> c < s.nextCall
  }

  ghost predicate Inv(s: System)
  {
    && (s.server.lease.Some? ==> s.server.lease.value.version < s.server.next)
    && (s.server.lease.Some? ==> !MayEnter(s, s.server.lease.value.holder))
    && (forall c :: c in s.net ==> RequestOk(s.server, s.net[c]))
    && (forall c :: c in s.net ==> s.net[c].caller in s.runs)
    && (forall c :: c in s.replies ==> AnswerOk(s.server, s.replies[c]))
    && (forall p :: p in s.runs ==> TaskOk(s, p, s.runs[p].task))
    && OneEntry(s.net)
    && NumbersFresh(s)
  }

  lemma InitInv(s: System)
    requires Init(s)
    ensures Inv(s)
  {
  }

  // ---- the server moves: copies stay true, requests stay well founded ----

  lemma ServerMoves(s: System, s': System)
    requires Inv(s) && ServerStep(s.server, s'.server)
    requires s'.runs == s.runs && s'.net.Keys <= s.net.Keys && s'.nextCall == s.nextCall
    requires forall c :: c in s'.net ==> s'.net[c] == s.net[c]
    requires forall c :: c in s'.replies ==>
               (c in s.replies && s'.replies[c] == s.replies[c]) || (c in s.net && AnswerOk(s'.server, s'.replies[c]))
    requires s'.server.lease.Some? ==> !MayEnter(s', s'.server.lease.value.holder)
    ensures Inv(s')
  {
    forall c | c in s'.replies
      ensures AnswerOk(s'.server, s'.replies[c])
    {
      if c in s.replies && s'.replies[c] == s.replies[c] {
        assert AnswerOk(s.server, s.replies[c]);
      }
    }
    forall c | c in s'.net
      ensures RequestOk(s'.server, s'.net[c])
    {
      assert RequestOk(s.server, s.net[c]);
    }
    forall p | p in s'.runs
      ensures TaskOk(s', p, s'.runs[p].task)
    {
      assert TaskOk(s, p, s.runs[p].task);
    }
  }

  lemma CarryInv(s: System, c: nat)
    requires Inv(s) && c in s.net
    ensures Inv(CarryOut(s, c))
  {
    var s' := CarryOut(s, c);
    var req := s.net[c];
    var h := s'.server.lease;
    assert RequestOk(s.server, req);
    if h.Some? {
      var p := h.value.holder;
      if p in s.runs {
        assert TaskOk(s, p, s.runs[p].task);
      }
      assert s'.server == s.server || Introduces(req, p) || s.server.Names(p);
      assert !MayEnter(s', p);
    }
    ServerMoves(s, s');
  }

  lemma OutsiderInv(s: System, a: Action)
    requires Inv(s) && Enabled(s, a) && (a.OutsiderTouches? || a.OutsiderDeletes?)
    ensures Inv(Apply(s, a))
  {
    ServerMoves(s, Apply(s, a));
  }

  // ---- a run moves on ----

  /** A run may move anywhere that does not turn it back into one that may still enter. */
  lemma RunMoves(s: System, p: Identity, r: Run)
    requires Inv(s) && p in s.runs
    requires MovesOn(s, p, r)
    ensures Inv(SetRun(s, p, r))
  {
    var s' := SetRun(s, p, r);
    forall q | q in s'.runs
      ensures TaskOk(s', q, s'.runs[q].task)
    {
      assert TaskOk(s, q, s.runs[q].task);
    }
    if s'.server.lease.Some? {
      assert MayEnter(s', s'.server.lease.value.holder) ==> MayEnter(s, s.server.lease.value.holder);
    }
  }

  lemma SendInv(s: System, p: Identity, r: Run, req: Request)
    requires Inv(s) && p in s.runs && req.caller == p && RequestOk(s.server, req)
    requires MovesOn(s, p, r)
    requires Introduces(req, p) ==> BeforeClaim(s.runs[p].task) && !BeforeClaim(r.task)
    ensures Inv(Send(s, p, r, req))
  {
    var m := SetRun(s, p, r);
    RunMoves(s, p, r);
    var s' := Send(s, p, r, req);
    assert TaskOk(s, p, s.runs[p].task);
    forall q | q in s'.runs
      ensures TaskOk(s', q, s'.runs[q].task)
    {
      assert TaskOk(m, q, m.runs[q].task);
    }
    if s.server.lease.Some? {
      var h := s.server.lease.value.holder;
      if MayEnter(s', h) && !MayEnter(m, h) {
        assert h == p && MayEnter(s, p);
        assert false;
      }
    }
  }

  /** A run moves to `r`, which is no closer to entering the Lease than before. */
  ghost predicate MovesOn(s: System, p: Identity, r: Run)
    requires p in s.runs
  {
    && (r.task.Watching? || r.task.SecondRead? ==> TrueCopy(s.server, r.task.first))
    && (BeforeClaim(r.task) ==> BeforeClaim(s.runs[p].task))
  }

  lemma TaskAnswerSends(s: System, p: Identity, ans: Answer) returns (r: Run, req: Request)
    requires p in s.runs && AnswerOk(s.server, ans)
    requires s.runs[p].task.SecondRead? || s.runs[p].task.ReleaseRead?
    requires OnTaskAnswer(s, p, ans).net != s.net
    ensures OnTaskAnswer(s, p, ans) == Send(s, p, r, req)
    ensures MovesOn(s, p, r) && req.caller == p && RequestOk(s.server, req)
    ensures Introduces(req, p) ==> BeforeClaim(s.runs[p].task) && !BeforeClaim(r.task)
  {
    var was := s.runs[p];
    if was.task.SecondRead? {
      r := was.(task := Stealing(s.nextCall, s.now));
      req := Update(p, Stolen(ans.read.lease, p, s.now + was.skew), Steal(was.task.readAt));
    } else {
      r := was.(task := Deleting(s.nextCall));
      req := Delete(p, ans.read.lease.uid, ans.read.lease.version);
    }
  }

  lemma TaskAnswerMoves(s: System, p: Identity, ans: Answer) returns (r: Run)
    requires p in s.runs && AnswerOk(s.server, ans)
    requires OnTaskAnswer(s, p, ans).net == s.net && s.nextCall !in s.net
    ensures OnTaskAnswer(s, p, ans) == SetRun(s, p, r) && MovesOn(s, p, r)
  {
    r := OnTaskAnswer(s, p, ans).runs[p];
  }

  lemma TaskAnswerInv(s: System, p: Identity, ans: Answer)
    requires Inv(s) && p in s.runs && AnswerOk(s.server, ans)
    ensures Inv(OnTaskAnswer(s, p, ans))
  {
    if OnTaskAnswer(s, p, ans).net == s.net {
      var r := TaskAnswerMoves(s, p, ans);
      RunMoves(s, p, r);
    } else {
      var r, req := TaskAnswerSends(s, p, ans);
      SendInv(s, p, r, req);
    }
  }

  lemma LoopAnswerInv(s: System, p: Identity, ans: Answer)
    requires Inv(s) && p in s.runs && AnswerOk(s.server, ans)
    ensures Inv(OnLoopAnswer(s, p, ans))
  {
    assert TaskOk(s, p, s.runs[p].task);
    if s.runs[p].loop.RenewRead? && ans.Read? && JudgeRead(p, ans.read).Mine? {
      var r, req := LoopAnswerSends(s, p, ans);
      SendInv(s, p, r, req);
    } else {
      var r' := LoopAnswerMoves(s, p, ans);
      RunMoves(s, p, r');
    }
  }

  lemma LoopAnswerSends(s: System, p: Identity, ans: Answer) returns (r: Run, req: Request)
    requires p in s.runs && AnswerOk(s.server, ans) && TaskOk(s, p, s.runs[p].task)
    requires s.runs[p].loop.RenewRead? && ans.Read? && JudgeRead(p, ans.read).Mine?
    ensures OnLoopAnswer(s, p, ans) == Send(s, p, r, req)
    ensures MovesOn(s, p, r) && r.task == s.runs[p].task
    ensures req.caller == p && RequestOk(s.server, req) && !Introduces(req, p)
  {
    var was := s.runs[p];
    r := was.(loop := RenewWrite(s.nextCall, was.loop.since, was.loop.due));
    req := Update(p, Renewed(ans.read.lease, s.now + was.skew), Renewal);
  }

  lemma LoopAnswerMoves(s: System, p: Identity, ans: Answer) returns (r: Run)
    requires p in s.runs
    requires !(s.runs[p].loop.RenewRead? && ans.Read? && JudgeRead(p, ans.read).Mine?)
    ensures OnLoopAnswer(s, p, ans) == SetRun(s, p, r) && r.task == s.runs[p].task
  {
    r := OnLoopAnswer(s, p, ans).runs[p];
    assert s == SetRun(s, p, s.runs[p]);
  }

  lemma LoopFailureMoves(s: System, p: Identity) returns (r: Run)
    requires p in s.runs
    ensures OnLoopFailure(s, p) == SetRun(s, p, r) && r.task == s.runs[p].task
  {
    r := OnLoopFailure(s, p).runs[p];
    assert s == SetRun(s, p, s.runs[p]);
  }

  /** A step of one run: it may send a request, and touches nothing else but itself. */
  ghost predicate OnlyRun(s: System, s': System, q: Identity)
  {
    && s'.runs.Keys == s.runs.Keys && (forall p :: p in s.runs && p != q ==> s'.runs[p] == s.runs[p])
    && s'.now == s.now && s'.server == s.server && s'.replies == s.replies && s'.wroteAt == s.wroteAt
    && s.nextCall <= s'.nextCall
    && (forall c :: c in s.net ==> c in s'.net)
    && (forall c :: c in s'.net ==> (c in s.net && s'.net[c] == s.net[c]) || (c == s.nextCall && c < s'.nextCall))
  }

  lemma SendIsOnlyRun(s: System, q: Identity, r: Run, req: Request)
    requires q in s.runs && NumbersFresh(s)
    ensures OnlyRun(s, Send(s, q, r, req), q)
  {
  }

  lemma MoveIsOnlyRun(s: System, q: Identity, r: Run)
    requires q in s.runs
    ensures OnlyRun(s, SetRun(s, q, r), q)
  {
  }

  /** Every answer to a main task is a step of its run alone. */
  lemma TaskAnswerIsOnlyRun(s: System, q: Identity, ans: Answer)
    requires q in s.runs && NumbersFresh(s)
    ensures OnlyRun(s, OnTaskAnswer(s, q, ans), q)
  {
    var s' := OnTaskAnswer(s, q, ans);
    if s.nextCall in s'.net {
      assert s' == Send(s, q, s'.runs[q], s'.net[s.nextCall]);
      SendIsOnlyRun(s, q, s'.runs[q], s'.net[s.nextCall]);
    } else {
      assert s' == SetRun(s, q, s'.runs[q]);
      MoveIsOnlyRun(s, q, s'.runs[q]);
    }
  }

  lemma LoopAnswerIsOnlyRun(s: System, q: Identity, ans: Answer)
    requires q in s.runs && NumbersFresh(s)
    ensures OnlyRun(s, OnLoopAnswer(s, q, ans), q)
  {
    if s.runs[q].loop.RenewRead? && ans.Read? && JudgeRead(q, ans.read).Mine? {
      var s' := OnLoopAnswer(s, q, ans);
      assert s' == Send(s, q, s'.runs[q], s'.net[s.nextCall]);
      SendIsOnlyRun(s, q, s'.runs[q], s'.net[s.nextCall]);
    } else {
      var r := LoopAnswerMoves(s, q, ans);
      MoveIsOnlyRun(s, q, r);
    }
  }

  /** The steps in which a run only sends a request. */
  ghost predicate JustSends(a: Action)
  {
    a.BeginAcquire? || a.BeginReclaim? || a.WakeUp? || a.RenewTick? || a.BeginCheck? || a.Joined?
  }

  lemma SendingStep(s: System, a: Action) returns (r: Run, req: Request)
    requires Enabled(s, a) && JustSends(a)
    requires TaskOk(s, a.p, s.runs[a.p].task)
    ensures Apply(s, a) == Send(s, a.p, r, req)
    ensures MovesOn(s, a.p, r) && req.caller == a.p && RequestOk(s.server, req)
    ensures Introduces(req, a.p) ==> BeforeClaim(s.runs[a.p].task) && !BeforeClaim(r.task)
  {
    r := Apply(s, a).runs[a.p];
    req := if a.BeginAcquire? then Create(a.p, s.now + s.runs[a.p].skew) else Get(a.p);
  }

  /** The steps in which a run changes without asking anything. */
  ghost predicate JustMoves(a: Action)
  {
    a.TaskFailed? || a.LoopFailed? || a.LoopStops? || a.BeginRelease? || a.Dies?
  }

  lemma MovingStep(s: System, a: Action) returns (r: Run)
    requires Enabled(s, a) && JustMoves(a)
    requires TaskOk(s, a.p, s.runs[a.p].task)
    ensures Apply(s, a) == SetRun(s, a.p, r) && MovesOn(s, a.p, r)
    ensures BeforeClaim(r.task) ==> r.task == s.runs[a.p].task
  {
    if a.LoopFailed? {
      r := LoopFailureMoves(s, a.p);
    } else {
      r := Apply(s, a).runs[a.p];
    }
  }

  lemma StepInv(s: System, a: Action, s': System)
    requires Inv(s) && Step(s, a, s')
    ensures Inv(s')
  {
    if JustSends(a) {
      var r, req := SendingStep(s, a);
      SendInv(s, a.p, r, req);
    } else if JustMoves(a) {
      var r := MovingStep(s, a);
      RunMoves(s, a.p, r);
    } else {
      match a
      case Pass(_) => PassInv(s, s');
      case Carry(c) => CarryInv(s, c);
      case TaskAnswered(p) => TaskAnswerInv(s, p, s.replies[TaskCall(s.runs[p].task).value]);
      case LoopAnswered(p) => LoopAnswerInv(s, p, s.replies[LoopCall(s.runs[p].loop).value]);
      case OutsiderTouches => OutsiderInv(s, a);
      case OutsiderDeletes => OutsiderInv(s, a);
    }
  }

  lemma PassInv(s: System, s': System)
    requires Inv(s) && s' == s.(now := s'.now)
    ensures Inv(s')
  {
    forall p | p in s'.runs
      ensures TaskOk(s', p, s'.runs[p].task)
    {
      assert TaskOk(s, p, s.runs[p].task);
    }
    if s.server.lease.Some? {
      assert MayEnter(s', s.server.lease.value.holder) ==> MayEnter(s, s.server.lease.value.holder);
    }
  }

  /** The invariant holds in every state of every history. */
  lemma {:induction false} InvAlways(h: History, i: nat)
    requires h.Valid() && i < |h.states|
    ensures Inv(h.states[i])
  {
    if i == 0 {
      InitInv(h.states[0]);
    } else {
      InvAlways(h, i - 1);
      StepInv(h.states[i - 1], h.actions[i - 1], h.states[i]);
    }
  }
}
