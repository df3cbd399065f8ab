/**
 What a reclaim promises over every history: it takes effect only over a Lease nobody
 wrote to from its first read onwards, at least a lease duration later, and every steal
 has such a first read.
 */
module ClaimReclaim {
  import opened Wrappers
  import opened ClaimTypes
  import opened ClaimProtocol
  import opened ClaimInvariant
  import opened ClaimSafety

  // ---- a reclaim takes effect only over an untouched Lease ----

  lemma VersionsOnlyGrow(s: System, a: Action, s': System)
    requires Step(s, a, s')
    ensures ServerStep(s.server, s'.server)
  {
    if !a.Carry? && !a.OutsiderTouches? && !a.OutsiderDeletes? {
      WhoChangesTheLease(s, a);
    }
  }

  lemma {:induction false} VersionNeverFalls(h: History, i: nat, j: nat)
    requires h.Valid() && i <= j < |h.states|
    ensures h.states[i].server.next <= h.states[j].server.next
  {
    if i < j {
      VersionNeverFalls(h, i, j - 1);
      VersionsOnlyGrow(h.states[j - 1], h.actions[j - 1], h.states[j]);
    }
  }

  /** A Lease whose version was already assigned in state `i` has not been touched since. */
  lemma {:induction false} OldVersionMeansUntouched(h: History, i: nat, j: nat, l: Lease)
    requires h.Valid() && i <= j < |h.states|
    requires h.states[j].server.lease == Some(l) && l.version < h.states[i].server.next
    ensures forall k :: i <= k <= j ==> h.states[k].server.lease == Some(l)
  {
    if i < j {
      VersionsOnlyGrow(h.states[j - 1], h.actions[j - 1], h.states[j]);
      VersionNeverFalls(h, i, j - 1);
      OldVersionMeansUntouched(h, i, j - 1, l);
    }
  }

  /** A task that carries `l` forward: the answer of call `c`, read at `t`, waiting a full lease duration. */
  ghost predicate TaskRemembers(s: System, task: Task, c: nat, l: Lease, t: int)
  {
    && !task.Fresh?
    && (task.FirstRead? ==> task.call == c && c in s.replies && s.replies[c] == Read(Found(l)))
    && (task.Watching? || task.SecondRead? ==> task.first == l && task.readAt >= t)
    && (task.SecondRead? ==> s.now >= task.readAt + LEASE_DURATION)
  }

  /** A steal on its way carries the version of `l`, a lease duration after `t`. */
  ghost predicate StealRemembers(s: System, req: Request, l: Lease, t: int)
  {
    req.Update? && req.lease.version == l.version && s.now >= t + LEASE_DURATION
  }

  /**
   What run `p` knows, from the moment its first read (call `c`) was answered with
   `l` at time `t`: it carries exactly that version forward, and waits a full lease
   duration before it sends a steal.
   */
  ghost predicate Remembers(s: System, p: Identity, c: nat, l: Lease, t: int)
  {
    && p in s.runs && c < s.nextCall && c !in s.net && t <= s.now
    && TaskRemembers(s, s.runs[p].task, c, l, t)
    && (forall d :: d in s.net && Introduces(s.net[d], p) ==> StealRemembers(s, s.net[d], l, t))
  }

  /** A step of one run keeps what `p` knows if its own task does, and any steal it sends carries it. */
  lemma RememberOnlyRun(s: System, s': System, q: Identity, p: Identity, c: nat, l: Lease, t: int)
    requires Remembers(s, p, c, l, t) && OnlyRun(s, s', q)
    requires p == q ==> TaskRemembers(s', s'.runs[p].task, c, l, t)
    requires s.nextCall in s'.net && Introduces(s'.net[s.nextCall], p) ==> StealRemembers(s', s'.net[s.nextCall], l, t)
    ensures Remembers(s', p, c, l, t)
  {
  }

  lemma RememberTaskAnswer(s: System, q: Identity, ans: Answer, p: Identity, c: nat, l: Lease, t: int)
    requires Inv(s) && Remembers(s, p, c, l, t) && q in s.runs
    requires TaskCall(s.runs[q].task).Some? && TaskCall(s.runs[q].task).value in s.replies
    requires ans == s.replies[TaskCall(s.runs[q].task).value]
    ensures Remembers(OnTaskAnswer(s, q, ans), p, c, l, t)
  {
    var s' := OnTaskAnswer(s, q, ans);
    TaskAnswerIsOnlyRun(s, q, ans);
    OwnRequest(s, q, ans);
    if p == q {
      RememberOwnAnswer(s, p, ans, c, l, t);
    }
    RememberOnlyRun(s, s', q, p, c, l, t);
  }

  /** What an answer makes a main task send is its own run's. */
  lemma OwnRequest(s: System, q: Identity, ans: Answer)
    requires q in s.runs && NumbersFresh(s)
    ensures var s' := OnTaskAnswer(s, q, ans);
            s.nextCall in s'.net ==> s'.net[s.nextCall].caller == q
  {
  }

  lemma RememberOwnAnswer(s: System, p: Identity, ans: Answer, c: nat, l: Lease, t: int)
    requires NumbersFresh(s) && Remembers(s, p, c, l, t)
    requires TaskCall(s.runs[p].task).Some? && TaskCall(s.runs[p].task).value in s.replies
    requires ans == s.replies[TaskCall(s.runs[p].task).value]
    ensures var s' := OnTaskAnswer(s, p, ans);
            && TaskRemembers(s', s'.runs[p].task, c, l, t)
            && (s.nextCall in s'.net && Introduces(s'.net[s.nextCall], p) ==> StealRemembers(s', s'.net[s.nextCall], l, t))
  {
  }

  lemma RememberLoopAnswer(s: System, q: Identity, ans: Answer, p: Identity, c: nat, l: Lease, t: int)
    requires Inv(s) && Remembers(s, p, c, l, t) && q in s.runs
    ensures Remembers(OnLoopAnswer(s, q, ans), p, c, l, t)
  {
    LoopAnswerIsOnlyRun(s, q, ans);
    if s.runs[q].loop.RenewRead? && ans.Read? && JudgeRead(q, ans.read).Mine? {
    } else {
      var r := LoopAnswerMoves(s, q, ans);
    }
    RememberOnlyRun(s, OnLoopAnswer(s, q, ans), q, p, c, l, t);
  }

  lemma RememberSend(s: System, a: Action, p: Identity, c: nat, l: Lease, t: int)
    requires Inv(s) && Enabled(s, a) && JustSends(a) && Remembers(s, p, c, l, t)
    ensures Remembers(Apply(s, a), p, c, l, t)
  {
    var r, req := SendingStep(s, a);
    SendIsOnlyRun(s, a.p, r, req);
    if p == a.p {
      RememberOwnSend(s, a, c, l, t);
    }
    RememberOnlyRun(s, Apply(s, a), a.p, p, c, l, t);
  }

  lemma RememberOwnSend(s: System, a: Action, c: nat, l: Lease, t: int)
    requires NumbersFresh(s) && Enabled(s, a) && JustSends(a) && Remembers(s, a.p, c, l, t)
    ensures var s' := Apply(s, a);
            TaskRemembers(s', s'.runs[a.p].task, c, l, t) && !Introduces(s'.net[s.nextCall], a.p)
  {
  }

  lemma RememberMove(s: System, a: Action, p: Identity, c: nat, l: Lease, t: int)
    requires Inv(s) && Enabled(s, a) && JustMoves(a) && Remembers(s, p, c, l, t)
    ensures Remembers(Apply(s, a), p, c, l, t)
  {
    var r := MovingStep(s, a);
    MoveIsOnlyRun(s, a.p, r);
    assert s.nextCall !in s.net;
    RememberOnlyRun(s, Apply(s, a), a.p, p, c, l, t);
  }

  lemma RememberRest(s: System, a: Action, p: Identity, c: nat, l: Lease, t: int)
    requires Inv(s) && Enabled(s, a) && Remembers(s, p, c, l, t)
    requires a.Pass? || a.Carry? || a.OutsiderTouches? || a.OutsiderDeletes?
    ensures Remembers(Apply(s, a), p, c, l, t)
  {
  }

  lemma RememberStep(s: System, a: Action, s': System, p: Identity, c: nat, l: Lease, t: int)
    requires Inv(s) && Step(s, a, s') && Remembers(s, p, c, l, t)
    ensures Remembers(s', p, c, l, t)
  {
    if JustSends(a) {
      RememberSend(s, a, p, c, l, t);
    } else if JustMoves(a) {
      RememberMove(s, a, p, c, l, t);
    } else if a.TaskAnswered? {
      RememberTaskAnswer(s, a.p, s.replies[TaskCall(s.runs[a.p].task).value], p, c, l, t);
    } else if a.LoopAnswered? {
      RememberLoopAnswer(s, a.p, s.replies[LoopCall(s.runs[a.p].loop).value], p, c, l, t);
    } else {
      RememberRest(s, a, p, c, l, t);
    }
  }

  lemma {:induction false} RemembersFrom(h: History, i: nat, j: nat, p: Identity, c: nat, l: Lease, t: int)
    requires h.Valid() && i <= j < |h.states| && Remembers(h.states[i], p, c, l, t)
    ensures Remembers(h.states[j], p, c, l, t)
  {
    if i < j {
      RemembersFrom(h, i, j - 1, p, c, l, t);
      RemembersNext(h, j - 1, p, c, l, t);
    }
  }

  lemma RemembersNext(h: History, j: nat, p: Identity, c: nat, l: Lease, t: int)
    requires h.Valid() && j < |h.actions| && Remembers(h.states[j], p, c, l, t)
    ensures Remembers(h.states[j + 1], p, c, l, t)
  {
    InvAlways(h, j);
    RememberStep(h.states[j], h.actions[j], h.states[j + 1], p, c, l, t);
  }

  /** In step `i` the API server answers the first read of a reclaim by `p`. */
  ghost predicate FirstReadServed(h: History, i: nat, p: Identity)
    requires h.Valid()
  {
    && Serves(h, i, Get(p))
    && p in h.states[i].runs && h.states[i].runs[p].task == FirstRead(h.actions[i].call)
  }

  /**
   A steal that changes the Lease means that nothing at all wrote to it from the
   moment the reclaim's first read was answered to the steal itself, and that this
   span is at least a lease duration long. Equivalently: any write in between, a
   renewal included and the gap between confirmation and Update included, makes the
   steal fail.
   */
  lemma StealMeansUntouched(h: History, i: nat, j: nat, p: Identity, steal: Request)
    requires h.Valid() && i < j && FirstReadServed(h, i, p)
    requires Serves(h, j, steal) && steal.Update? && Introduces(steal, p)
    requires h.states[j + 1].server != h.states[j].server
    ensures h.states[i].server.lease.Some?
    ensures forall k :: i <= k <= j ==> h.states[k].server.lease == h.states[i].server.lease
    ensures h.states[j].now >= h.states[i].now + 60_000_000_000
    ensures NamedAt(h, j + 1, p)
  {
    var c := h.actions[i].call;
    var s, s' := h.states[i], h.states[i + 1];
    assert Step(s, h.actions[i], s');
    InvAlways(h, i);
    InvAlways(h, j);
    assert Step(h.states[j], h.actions[j], h.states[j + 1]);
    assert RequestOk(h.states[j].server, steal);
    assert TaskOk(s, p, s.runs[p].task);
    if s.server.lease.Some? {
      var l := s.server.lease.value;
      assert Remembers(s', p, c, l, s.now);
      RemembersFrom(h, i + 1, j, p, c, l, s.now);
      OldVersionMeansUntouched(h, i, j, h.states[j].server.lease.value);
    } else {
      NothingToSteal(h, i + 1, j, p, c);
    }
  }

  /** A reclaim whose first read found no Lease sends no steal. */
  ghost predicate FoundNothing(s: System, p: Identity, c: nat)
  {
    && p in s.runs && c < s.nextCall && c !in s.net
    && (BeforeClaim(s.runs[p].task) ==>
          s.runs[p].task == FirstRead(c) && c in s.replies && s.replies[c] == Read(NotFound))
    && (forall d :: d in s.net ==> !Introduces(s.net[d], p))
  }

  /** A step of one run keeps that, if its own task does and it sends no steal. */
  lemma FoundNothingOnlyRun(s: System, s': System, q: Identity, p: Identity, c: nat)
    requires FoundNothing(s, p, c) && OnlyRun(s, s', q)
    requires p == q && BeforeClaim(s'.runs[p].task) ==> s'.runs[p].task == s.runs[p].task == FirstRead(c)
    requires s.nextCall in s'.net ==> !Introduces(s'.net[s.nextCall], p)
    ensures FoundNothing(s', p, c)
  {
  }

  lemma FoundNothingOwn(s: System, a: Action, p: Identity, c: nat)
    requires Inv(s) && Enabled(s, a) && (JustSends(a) || JustMoves(a)) && FoundNothing(s, p, c)
    ensures FoundNothing(Apply(s, a), p, c)
  {
    assert TaskOk(s, a.p, s.runs[a.p].task);
    assert s.nextCall !in s.net;
    if JustSends(a) {
      var r, req := SendingStep(s, a);
      SendIsOnlyRun(s, a.p, r, req);
      if p == a.p {
        FoundNothingSends(s, a, c);
      }
    } else {
      var r := MovingStep(s, a);
      MoveIsOnlyRun(s, a.p, r);
    }
    FoundNothingOnlyRun(s, Apply(s, a), a.p, p, c);
  }

  lemma FoundNothingSends(s: System, a: Action, c: nat)
    requires NumbersFresh(s) && Enabled(s, a) && JustSends(a) && FoundNothing(s, a.p, c)
    ensures var s' := Apply(s, a);
            && (BeforeClaim(s'.runs[a.p].task) ==> s'.runs[a.p].task == s.runs[a.p].task)
            && !Introduces(s'.net[s.nextCall], a.p)
  {
  }

  lemma FoundNothingLoop(s: System, q: Identity, ans: Answer, p: Identity, c: nat)
    requires Inv(s) && FoundNothing(s, p, c) && q in s.runs && AnswerOk(s.server, ans)
    ensures FoundNothing(OnLoopAnswer(s, q, ans), p, c)
  {
    assert TaskOk(s, q, s.runs[q].task);
    if s.runs[q].loop.RenewRead? && ans.Read? && JudgeRead(q, ans.read).Mine? {
      var r, req := LoopAnswerSends(s, q, ans);
    } else {
      var r := LoopAnswerMoves(s, q, ans);
    }
  }

  lemma FoundNothingStep(s: System, a: Action, s': System, p: Identity, c: nat)
    requires Inv(s) && Step(s, a, s') && FoundNothing(s, p, c)
    ensures FoundNothing(s', p, c)
  {
    if JustSends(a) || JustMoves(a) {
      FoundNothingOwn(s, a, p, c);
    } else if a.TaskAnswered? {
      FoundNothingAnswer(s, a.p, s.replies[TaskCall(s.runs[a.p].task).value], p, c);
    } else if a.LoopAnswered? {
      FoundNothingLoop(s, a.p, s.replies[LoopCall(s.runs[a.p].loop).value], p, c);
    }
  }

  lemma FoundNothingAnswer(s: System, q: Identity, ans: Answer, p: Identity, c: nat)
    requires Inv(s) && FoundNothing(s, p, c) && q in s.runs && AnswerOk(s.server, ans)
    requires TaskCall(s.runs[q].task).Some? && TaskCall(s.runs[q].task).value in s.replies
    requires ans == s.replies[TaskCall(s.runs[q].task).value]
    ensures FoundNothing(OnTaskAnswer(s, q, ans), p, c)
  {
    if OnTaskAnswer(s, q, ans).net == s.net {
      var r := TaskAnswerMoves(s, q, ans);
    } else {
      var r, req := TaskAnswerSends(s, q, ans);
    }
  }

  lemma {:induction false} NothingToSteal(h: History, i: nat, j: nat, p: Identity, c: nat)
    requires h.Valid() && i <= j < |h.states| && FoundNothing(h.states[i], p, c)
    ensures FoundNothing(h.states[j], p, c)
  {
    if i < j {
      NothingToSteal(h, i, j - 1, p, c);
      InvAlways(h, j - 1);
      FoundNothingStep(h.states[j - 1], h.actions[j - 1], h.states[j], p, c);
    }
  }

  // ---- every steal was preceded by its reads ----

  /** The first read a run waits for is a read of its own. */
  ghost predicate FirstReadOk(s: System, p: Identity)
  {
    p in s.runs && s.runs[p].task.FirstRead? ==>
      && s.runs[p].task.call < s.nextCall
      && (s.runs[p].task.call in s.net ==> s.net[s.runs[p].task.call] == Get(p))
  }

  /** The run has had its first read answered, and may steal by it. */
  ghost predicate HasRead(s: System, p: Identity)
  {
    || (p in s.runs && s.runs[p].task.FirstRead? && s.runs[p].task.call in s.replies)
    || (p in s.runs && (s.runs[p].task.Watching? || s.runs[p].task.SecondRead?))
    || exists c :: c in s.net && s.net[c].Update? && Introduces(s.net[c], p)
  }

  /** In this step the API server answers the first read of `p`. */
  ghost predicate AnswersFirstRead(s: System, a: Action, p: Identity)
  {
    && a.Carry? && a.call in s.net && s.net[a.call] == Get(p)
    && p in s.runs && s.runs[p].task == FirstRead(a.call)
  }

  lemma FirstReadOnlyRun(s: System, s': System, q: Identity, p: Identity)
    requires FirstReadOk(s, p) && NumbersFresh(s) && OnlyRun(s, s', q)
    requires p == q && p in s.runs && s'.runs[p].task.FirstRead? ==>
               || s'.runs[p].task == s.runs[p].task
               || (s'.runs[p].task.call == s.nextCall < s'.nextCall && s.nextCall in s'.net && s'.net[s.nextCall] == Get(p))
    ensures FirstReadOk(s', p)
  {
  }

  lemma HasReadOnlyRun(s: System, s': System, q: Identity, p: Identity)
    requires NumbersFresh(s) && OnlyRun(s, s', q) && !HasRead(s, p)
    requires p == q && p in s.runs ==>
               && !s'.runs[p].task.Watching? && !s'.runs[p].task.SecondRead?
               && (s'.runs[p].task.FirstRead? ==>
                     s'.runs[p].task == s.runs[p].task || s'.runs[p].task.call == s.nextCall)
    requires s.nextCall in s'.net && s'.net[s.nextCall].Update? ==> !Introduces(s'.net[s.nextCall], p)
    ensures !HasRead(s', p)
  {
  }

  lemma OwnSendsFirstRead(s: System, a: Action)
    requires NumbersFresh(s) && Enabled(s, a) && JustSends(a)
    ensures var s' := Apply(s, a);
            && s.nextCall in s'.net && !s'.net[s.nextCall].Update?
            && (s'.runs[a.p].task.FirstRead? ==>
                  || s'.runs[a.p].task == s.runs[a.p].task
                  || (s'.runs[a.p].task.call == s.nextCall < s'.nextCall && s'.net[s.nextCall] == Get(a.p)))
            && (s'.runs[a.p].task.Watching? || s'.runs[a.p].task.SecondRead? ==>
                  s.runs[a.p].task.Watching? || s.runs[a.p].task.SecondRead?)
  {
  }

  lemma AnswerNeedsRead(s: System, p: Identity, ans: Answer)
    requires NumbersFresh(s) && p in s.runs && !HasRead(s, p)
    requires TaskCall(s.runs[p].task).Some? && TaskCall(s.runs[p].task).value in s.replies
    ensures var s' := OnTaskAnswer(s, p, ans);
            && !s'.runs[p].task.FirstRead? && !s'.runs[p].task.Watching? && !s'.runs[p].task.SecondRead?
            && (s.nextCall in s'.net ==> !s'.net[s.nextCall].Update?)
  {
  }

  lemma AnswerEndsFirstRead(s: System, p: Identity, ans: Answer)
    requires p in s.runs && TaskCall(s.runs[p].task).Some?
    ensures !OnTaskAnswer(s, p, ans).runs[p].task.FirstRead?
  {
  }

  lemma FirstReadStep(s: System, a: Action, s': System, p: Identity)
    requires Inv(s) && Step(s, a, s') && FirstReadOk(s, p)
    ensures FirstReadOk(s', p)
  {
    if JustSends(a) {
      assert TaskOk(s, a.p, s.runs[a.p].task);
      var r, req := SendingStep(s, a);
      SendIsOnlyRun(s, a.p, r, req);
      OwnSendsFirstRead(s, a);
      FirstReadOnlyRun(s, s', a.p, p);
    } else if JustMoves(a) {
      assert TaskOk(s, a.p, s.runs[a.p].task);
      var r := MovingStep(s, a);
      MoveIsOnlyRun(s, a.p, r);
      FirstReadOnlyRun(s, s', a.p, p);
    } else if a.TaskAnswered? {
      var ans := s.replies[TaskCall(s.runs[a.p].task).value];
      TaskAnswerIsOnlyRun(s, a.p, ans);
      AnswerEndsFirstRead(s, a.p, ans);
      FirstReadOnlyRun(s, s', a.p, p);
    } else if a.LoopAnswered? {
      var ans := s.replies[LoopCall(s.runs[a.p].loop).value];
      LoopAnswerIsOnlyRun(s, a.p, ans);
      LoopKeepsTask(s, a.p, ans);
      FirstReadOnlyRun(s, s', a.p, p);
    }
  }

  /** An answer to the renewal loop leaves the main task where it is, and sends no steal. */
  lemma LoopKeepsTask(s: System, q: Identity, ans: Answer)
    requires q in s.runs && NumbersFresh(s)
    ensures var s' := OnLoopAnswer(s, q, ans);
            && s'.runs[q].task == s.runs[q].task
            && (s.nextCall in s'.net ==> s'.net[s.nextCall].caller == q && !Introduces(s'.net[s.nextCall], q))
  {
    if s.runs[q].loop.RenewRead? && ans.Read? && JudgeRead(q, ans.read).Mine? {
    } else {
      var r := LoopAnswerMoves(s, q, ans);
    }
  }

  /** A run comes to have read only when the API server answers its first read. */
  lemma HasReadStep(s: System, a: Action, s': System, p: Identity)
    requires Inv(s) && Step(s, a, s') && FirstReadOk(s, p) && !HasRead(s, p) && !AnswersFirstRead(s, a, p)
    ensures !HasRead(s', p)
  {
    if JustSends(a) {
      assert TaskOk(s, a.p, s.runs[a.p].task);
      var r, req := SendingStep(s, a);
      SendIsOnlyRun(s, a.p, r, req);
      OwnSendsFirstRead(s, a);
      HasReadOnlyRun(s, s', a.p, p);
    } else if JustMoves(a) {
      assert TaskOk(s, a.p, s.runs[a.p].task);
      var r := MovingStep(s, a);
      MoveIsOnlyRun(s, a.p, r);
      HasReadOnlyRun(s, s', a.p, p);
    } else if a.TaskAnswered? {
      var ans := s.replies[TaskCall(s.runs[a.p].task).value];
      TaskAnswerIsOnlyRun(s, a.p, ans);
      OwnRequest(s, a.p, ans);
      if a.p == p {
        AnswerNeedsRead(s, p, ans);
      }
      HasReadOnlyRun(s, s', a.p, p);
    } else if a.LoopAnswered? {
      var ans := s.replies[LoopCall(s.runs[a.p].loop).value];
      LoopAnswerIsOnlyRun(s, a.p, ans);
      LoopKeepsTask(s, a.p, ans);
      HasReadOnlyRun(s, s', a.p, p);
    }
  }

  lemma {:induction false} FirstReadAlways(h: History, i: nat, p: Identity)
    requires h.Valid() && i < |h.states|
    ensures FirstReadOk(h.states[i], p)
  {
    if i > 0 {
      FirstReadAlways(h, i - 1, p);
      InvAlways(h, i - 1);
      FirstReadStep(h.states[i - 1], h.actions[i - 1], h.states[i], p);
    }
  }

  /** A run that has read has had its first read answered in an earlier step. */
  lemma {:induction false} ReadWasServed(h: History, k: nat, p: Identity) returns (i: nat)
    requires h.Valid() && k < |h.states| && HasRead(h.states[k], p)
    ensures i < k && FirstReadServed(h, i, p)
  {
    if k == 0 {
      NothingReadYet(h.states[0], p);
    } else if HasRead(h.states[k - 1], p) {
      i := ReadWasServed(h, k - 1, p);
    } else {
      i := k - 1;
      ReadIsNew(h, i, p);
    }
  }

  /** A run that has not read, and has after step `i`, had its first read answered in it. */
  lemma ReadIsNew(h: History, i: nat, p: Identity)
    requires h.Valid() && i < |h.actions| && !HasRead(h.states[i], p) && HasRead(h.states[i + 1], p)
    ensures FirstReadServed(h, i, p)
  {
    InvAlways(h, i);
    FirstReadAlways(h, i, p);
    NewRead(h.states[i], h.actions[i], h.states[i + 1], p);
  }

  lemma NothingReadYet(s: System, p: Identity)
    requires Init(s)
    ensures !HasRead(s, p)
  {
  }

  lemma NewRead(s: System, a: Action, s': System, p: Identity)
    requires Inv(s) && Step(s, a, s') && FirstReadOk(s, p) && HasRead(s', p)
    ensures HasRead(s, p) || AnswersFirstRead(s, a, p)
  {
    if !HasRead(s, p) && !AnswersFirstRead(s, a, p) {
      HasReadStep(s, a, s', p);
    }
  }

  /**
   Every steal that takes effect was watched for: it has a first read, answered at least a
   lease duration earlier, and from that answer up to the steal nothing at all wrote to the
   Lease.
   */
  lemma EveryStealWasWatched(h: History, j: nat, p: Identity, steal: Request) returns (i: nat)
    requires h.Valid() && Serves(h, j, steal) && steal.Update? && Introduces(steal, p)
    requires h.states[j + 1].server != h.states[j].server
    ensures i < j && FirstReadServed(h, i, p) && h.states[i].server.lease.Some?
    ensures forall k :: i <= k <= j ==> h.states[k].server.lease == h.states[i].server.lease
    ensures h.states[j].now >= h.states[i].now + 60_000_000_000
  {
    assert HasRead(h.states[j], p);
    i := ReadWasServed(h, j, p);
    StealMeansUntouched(h, i, j, p, steal);
  }
}
