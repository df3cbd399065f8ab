/**
 What the lock promises over every history of any number of runs, with no
 assumption about timing: an identity that left the Lease never comes back, and
 nothing its run still has on its way can change the Lease.
 */
module ClaimSafety {
  import opened Wrappers
  import opened ClaimTypes
  import opened ClaimProtocol
  import opened ClaimInvariant

  /** In state `i` the Lease names `p`. */
  ghost predicate NamedAt(h: History, i: nat, p: Identity)
    requires i < |h.states|
  {
    h.states[i].server.Names(p)
  }

  /** `p` held the Lease in state `i` and no longer does in the later state `j`. */
  ghost predicate Replaced(h: History, i: nat, j: nat, p: Identity)
    requires h.Valid()
  {
    i < j < |h.states| && NamedAt(h, i, p) && !NamedAt(h, j, p)
  }

  /** In step `k` the API server carries out `req`. */
  ghost predicate Serves(h: History, k: nat, req: Request)
    requires h.Valid()
  {
    && k < |h.actions| && h.actions[k].Carry?
    && h.actions[k].call in h.states[k].net
    && h.states[k].net[h.actions[k].call] == req
  }

  /** The answer the API server gives in step `k`. */
  ghost function AnswerGiven(h: History, k: nat, req: Request): Answer
    requires h.Valid() && Serves(h, k, req)
  {
    assert Step(h.states[k], h.actions[k], h.states[k + 1]);
    h.states[k + 1].replies[h.actions[k].call]
  }

  /** The API server tells `p` that the Lease is its own. */
  ghost predicate ToldItsOwn(p: Identity, ans: Answer)
  {
    ans.Read? && JudgeRead(p, ans.read).Mine?
  }

  // ---- an identity that may no longer enter ----

  lemma SentRequestsDoNotReopen(s: System, s': System, p: Identity)
    requires !MayEnter(s, p)
    requires s'.runs.Keys == s.runs.Keys
    requires forall q :: q in s.runs && BeforeClaim(s'.runs[q].task) ==> BeforeClaim(s.runs[q].task)
    requires forall c :: c in s'.net && Introduces(s'.net[c], p) ==>
               (c in s.net && s.net[c] == s'.net[c]) || (p in s.runs && BeforeClaim(s.runs[p].task))
    ensures !MayEnter(s', p)
  {
  }

  lemma EntryStaysClosed(s: System, a: Action, s': System, p: Identity)
    requires Inv(s) && Step(s, a, s') && !MayEnter(s, p)
    ensures !MayEnter(s', p)
  {
    if JustSends(a) {
      var r, req := SendingStep(s, a);
      SentRequestsDoNotReopen(s, s', p);
    } else if JustMoves(a) {
      var r := MovingStep(s, a);
      SentRequestsDoNotReopen(s, s', p);
    } else if a.TaskAnswered? {
      TaskAnswerKeepsClosed(s, a.p, s.replies[TaskCall(s.runs[a.p].task).value], p);
    } else if a.LoopAnswered? {
      LoopAnswerKeepsClosed(s, a.p, s.replies[LoopCall(s.runs[a.p].loop).value], p);
    } else {
      SentRequestsDoNotReopen(s, s', p);
    }
  }

  lemma TaskAnswerKeepsClosed(s: System, q: Identity, ans: Answer, p: Identity)
    requires Inv(s) && q in s.runs && AnswerOk(s.server, ans) && !MayEnter(s, p)
    ensures !MayEnter(OnTaskAnswer(s, q, ans), p)
  {
    if OnTaskAnswer(s, q, ans).net == s.net {
      var r := TaskAnswerMoves(s, q, ans);
    } else {
      var r, req := TaskAnswerSends(s, q, ans);
    }
    SentRequestsDoNotReopen(s, OnTaskAnswer(s, q, ans), p);
  }

  lemma LoopAnswerKeepsClosed(s: System, q: Identity, ans: Answer, p: Identity)
    requires Inv(s) && q in s.runs && !MayEnter(s, p)
    ensures !MayEnter(OnLoopAnswer(s, q, ans), p)
  {
    if s.runs[q].loop.RenewRead? && ans.Read? && JudgeRead(q, ans.read).Mine? {
    } else {
      var r := LoopAnswerMoves(s, q, ans);
    }
    SentRequestsDoNotReopen(s, OnLoopAnswer(s, q, ans), p);
  }

  /** Only the API server and outsiders change the Lease. */
  lemma WhoChangesTheLease(s: System, a: Action)
    requires Enabled(s, a)
    requires !a.Carry? && !a.OutsiderTouches? && !a.OutsiderDeletes?
    ensures Apply(s, a).server == s.server
  {
  }

  /** No request of a run that cannot enter any more, and does not hold the Lease, has any effect on it. */
  lemma InertRequest(s: System, c: nat, p: Identity)
    requires Inv(s) && c in s.net && s.net[c].caller == p
    requires !MayEnter(s, p) && !s.server.Names(p)
    ensures CarryOut(s, c).server == s.server
  {
    assert RequestOk(s.server, s.net[c]);
    assert !Introduces(s.net[c], p);
  }

  lemma StaysOut(s: System, a: Action, s': System, p: Identity)
    requires Inv(s) && Step(s, a, s') && !MayEnter(s, p) && !s.server.Names(p)
    ensures !MayEnter(s', p) && !s'.server.Names(p)
  {
    EntryStaysClosed(s, a, s', p);
    if a.Carry? {
      if s.net[a.call].caller == p {
        InertRequest(s, a.call, p);
      } else {
        assert RequestOk(s.server, s.net[a.call]);
      }
    } else if !a.OutsiderTouches? && !a.OutsiderDeletes? {
      WhoChangesTheLease(s, a);
    }
  }

  lemma {:induction false} ClosedFrom(h: History, i: nat, j: nat, p: Identity)
    requires h.Valid() && i <= j < |h.states|
    requires !MayEnter(h.states[i], p)
    ensures !MayEnter(h.states[j], p)
  {
    if i < j {
      ClosedFrom(h, i, j - 1, p);
      InvAlways(h, j - 1);
      EntryStaysClosed(h.states[j - 1], h.actions[j - 1], h.states[j], p);
    }
  }

  lemma {:induction false} OutFrom(h: History, j: nat, k: nat, p: Identity)
    requires h.Valid() && j <= k < |h.states|
    requires !MayEnter(h.states[j], p) && !NamedAt(h, j, p)
    ensures !MayEnter(h.states[k], p) && !NamedAt(h, k, p)
  {
    if j < k {
      OutFrom(h, j, k - 1, p);
      InvAlways(h, k - 1);
      StaysOut(h.states[k - 1], h.actions[k - 1], h.states[k], p);
    }
  }

  /**
   Once an identity has been replaced, or its Lease deleted, it never appears in the
   Lease again.
   */
  lemma IdentityNeverReturns(h: History, i: nat, j: nat, k: nat, p: Identity)
    requires h.Valid() && Replaced(h, i, j, p) && j <= k < |h.states|
    ensures !NamedAt(h, k, p)
  {
    InvAlways(h, i);
    ClosedFrom(h, i, j, p);
    OutFrom(h, j, k, p);
  }

  /**
   Whatever a replaced holder still has on its way (a renewal, a release, a reclaim)
   leaves the Lease exactly as it is, however late it is carried out.
   */
  lemma LateRequestsAreInert(h: History, i: nat, j: nat, k: nat, p: Identity, req: Request)
    requires h.Valid() && Replaced(h, i, j, p) && j <= k && Serves(h, k, req) && req.caller == p
    ensures h.states[k + 1].server == h.states[k].server
  {
    InvAlways(h, i);
    ClosedFrom(h, i, j, p);
    OutFrom(h, j, k, p);
    InvAlways(h, k);
    InertRequest(h.states[k], h.actions[k].call, p);
  }

  /** A replaced holder that asks the API server is never told the Lease is its own. */
  lemma NoPositiveAnswerAfterLoss(h: History, i: nat, j: nat, k: nat, p: Identity)
    requires h.Valid() && Replaced(h, i, j, p) && j <= k && Serves(h, k, Get(p))
    ensures !ToldItsOwn(p, AnswerGiven(h, k, Get(p)))
  {
    IdentityNeverReturns(h, i, j, k, p);
    assert Step(h.states[k], h.actions[k], h.states[k + 1]);
  }

  /** In step `k` the API server tells `q` that it is the holder: by a read, or by applying a write of its own. */
  ghost predicate ToldHolder(h: History, k: nat, q: Identity, req: Request)
    requires h.Valid()
  {
    && Serves(h, k, req) && req.caller == q
    && (ToldItsOwn(q, AnswerGiven(h, k, req)) || (!req.Delete? && AnswerGiven(h, k, req) == Written(Applied)))
  }

  lemma ToldMeansNamed(h: History, k: nat, q: Identity, req: Request)
    requires h.Valid() && ToldHolder(h, k, q, req)
    ensures NamedAt(h, k + 1, q)
  {
    InvAlways(h, k);
    assert RequestOk(h.states[k].server, req);
    assert Step(h.states[k], h.actions[k], h.states[k + 1]);
  }

  /**
   Once one run has been told that it is the holder, by a read or by its own Create,
   steal or renewal being applied, after another has held the Lease, the earlier holder
   is never told so again.
   */
  lemma NewHolderFencesOld(h: History, i: nat, j: nat, k: nat, p: Identity, q: Identity, req: Request, later: Request)
    requires h.Valid() && i <= j < k && p != q && j < |h.actions| && NamedAt(h, i, p)
    requires ToldHolder(h, j, q, req) && Serves(h, k, later) && later.caller == p
    ensures !ToldHolder(h, k, p, later)
  {
    ToldMeansNamed(h, j, q, req);
    IdentityNeverReturns(h, i, j + 1, k + 1, p);
    if ToldHolder(h, k, p, later) {
      ToldMeansNamed(h, k, p, later);
    }
  }

  /** A release only ever deletes a Lease that names the run releasing it. */
  lemma ReleaseDeletesOnlyItsOwn(h: History, k: nat, req: Request)
    requires h.Valid() && Serves(h, k, req) && req.Delete?
    requires h.states[k + 1].server != h.states[k].server
    ensures NamedAt(h, k, req.caller) && h.states[k + 1].server.lease.None?
  {
    InvAlways(h, k);
    assert RequestOk(h.states[k].server, req);
    assert Step(h.states[k], h.actions[k], h.states[k + 1]);
  }

  // ---- lost is sticky ----

  lemma LossKept(s: System, a: Action, s': System, p: Identity)
    requires NumbersFresh(s) && Step(s, a, s') && p in s.runs
    ensures p in s'.runs && (s.runs[p].lost.Some? ==> s'.runs[p].lost == s.runs[p].lost)
  {
    if a.TaskAnswered? {
      var ans := s.replies[TaskCall(s.runs[a.p].task).value];
      TaskAnswerIsOnlyRun(s, a.p, ans);
      if s.runs[a.p].lost.Some? {
        TaskAnswerKeepsLoss(s, a.p, ans);
      }
    } else if a.LoopAnswered? {
      var ans := s.replies[LoopCall(s.runs[a.p].loop).value];
      LoopAnswerIsOnlyRun(s, a.p, ans);
      if s.runs[a.p].lost.Some? {
        LoopAnswerKeepsLoss(s, a.p, ans);
      }
    }
  }

  lemma TaskAnswerKeepsLoss(s: System, q: Identity, ans: Answer)
    requires q in s.runs && s.runs[q].lost.Some?
    ensures OnTaskAnswer(s, q, ans).runs[q].lost == s.runs[q].lost
  {
  }

  lemma LoopAnswerKeepsLoss(s: System, q: Identity, ans: Answer)
    requires q in s.runs && s.runs[q].lost.Some?
    ensures OnLoopAnswer(s, q, ans).runs[q].lost == s.runs[q].lost
  {
  }

  /** A run once fenced stays fenced, for the reason first given. */
  lemma {:induction false} LostIsSticky(h: History, i: nat, j: nat, p: Identity)
    requires h.Valid() && i <= j < |h.states|
    requires p in h.states[i].runs && h.states[i].runs[p].lost.Some?
    ensures p in h.states[j].runs && h.states[j].runs[p].lost == h.states[i].runs[p].lost
  {
    if i < j {
      LostIsSticky(h, i, j - 1, p);
      InvAlways(h, j - 1);
      LossKept(h.states[j - 1], h.actions[j - 1], h.states[j], p);
    }
  }
}
