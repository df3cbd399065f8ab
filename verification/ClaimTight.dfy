/**
 The bound on the overlap is reached: for every bound of at least a renewal interval on
 the call that takes a claim there is a timely history in which a run that was stolen
 from goes on working, unfenced, for exactly two intervals and that bound. Run 0 creates
 the Lease and hears of it only after the bound; run 1 reads it at once, watches it for a
 lease duration and steals it; every renewal of run 0 fails.
 */
module ClaimTight {
  import opened Wrappers
  import opened ClaimTypes
  import opened ClaimProtocol
  import opened ClaimInvariant
  import opened ClaimSafety
  import opened ClaimTiming

  // ---- building a history step by step ----

  ghost predicate Sound(h: History, bound: nat)
  {
    h.Valid() && Timely(h, bound)
  }

  ghost function Last(h: History): System
    requires h.states != []
  {
    h.states[|h.states| - 1]
  }

  ghost predicate Continues(h: History, g: History)
  {
    h.states <= g.states && h.actions <= g.actions
  }

  lemma TakeStep(h: History, a: Action, bound: nat) returns (g: History)
    requires Sound(h, bound) && Enabled(Last(h), a)
    requires a.Pass? ==> forall p :: p in Last(h).runs ==> InTime(Last(h).runs[p], Last(h).now + a.elapsed, bound)
    ensures Sound(g, bound) && Continues(h, g) && Last(g) == Apply(Last(h), a)
    ensures |g.actions| == |h.actions| + 1 && g.actions[|h.actions|] == a
  {
    g := History(h.states + [Apply(Last(h), a)], h.actions + [a]);
    StepValid(h, a, g);
    StepTimely(h, a, g, bound);
  }

  lemma StepValid(h: History, a: Action, g: History)
    requires h.Valid() && Enabled(Last(h), a)
    requires g == History(h.states + [Apply(Last(h), a)], h.actions + [a])
    ensures g.Valid()
  {
    forall i | 0 <= i < |g.actions|
      ensures Step(g.states[i], g.actions[i], g.states[i + 1])
    {
      if i < |h.actions| {
        assert Step(h.states[i], h.actions[i], h.states[i + 1]);
      }
    }
  }

  lemma StepTimely(h: History, a: Action, g: History, bound: nat)
    requires Sound(h, bound) && Enabled(Last(h), a) && g.Valid()
    requires g == History(h.states + [Apply(Last(h), a)], h.actions + [a])
    requires a.Pass? ==> forall p :: p in Last(h).runs ==> InTime(Last(h).runs[p], Last(h).now + a.elapsed, bound)
    ensures Timely(g, bound)
  {
    forall i, p | 0 <= i < |g.actions| && g.actions[i].Pass? && g.actions[i].elapsed > 0 && p in g.states[i].runs
      ensures InTime(g.states[i].runs[p], g.states[i].now + g.actions[i].elapsed, bound)
    {
      if i < |h.actions| {
        assert g.states[i] == h.states[i] && g.actions[i] == h.actions[i];
      } else {
        assert g.states[i] == Last(h);
      }
    }
  }

  // ---- the two runs ----

  const NEW := Run(Fresh, Unstarted, None, 0, 0)
  const DEAD := Run(Over, Stopped, None, 0, 0)
  const TAKING := Run(Creating(0, 0), Unstarted, None, 0, 0)

  /** Run 0 under its claim, heard of at `heard`, its ticker due at `due`. */
  ghost function Holding(heard: int, due: int): Run
  {
    Run(Working, Waiting(due), None, heard, 0)
  }

  ghost function Observing(l: Lease): Run
  {
    Run(Watching(l, 0), Unstarted, None, 0, 0)
  }

  ghost predicate Both(s: System, first: Run, thief: Run)
  {
    s.runs == map[0 := first, 1 := thief]
  }

  /** A run no deadline binds. */
  ghost predicate Idle(r: Run)
  {
    (r.loop.Unstarted? || r.loop.Stopped?) && !r.task.Creating? && !r.task.Stealing?
  }

  /** The server and the answers it gave are as they were. */
  ghost predicate Undisturbed(s: System, s': System)
  {
    s'.server == s.server && s'.replies == s.replies
  }

  lemma Wait(h: History, d: nat, first: Run, thief: Run, bound: nat) returns (g: History)
    requires Sound(h, bound) && Both(Last(h), first, thief) && Idle(thief) && InTime(first, Last(h).now + d, bound)
    ensures Sound(g, bound) && Continues(h, g)
    ensures Last(g) == Last(h).(now := Last(h).now + d)
  {
    g := TakeStep(h, Pass(d), bound);
  }

  // ---- run 0 creates the Lease and run 1 reads it ----

  lemma Created(bound: nat) returns (h: History, l: Lease)
    ensures Sound(h, bound) && Last(h).now == 0 && Both(Last(h), TAKING, NEW)
    ensures Last(h).server.lease == Some(l) && l.holder == 0
    ensures Last(h).replies == map[0 := Written(Applied)] && Last(h).net == map[] && Last(h).nextCall == 1
  {
    var s := System(0, Server(None, 0), map[], map[], 0, map[0 := NEW, 1 := NEW], map[]);
    h := History([s], []);
    h := TakeStep(h, BeginAcquire(0), bound);
    assert Last(h).net == map[0 := Create(0, 0)];
    h := TakeStep(h, Carry(0), bound);
    l := Lease(0, 0, 0, 0, 0);
  }

  lemma Asked(h: History, l: Lease, bound: nat) returns (g: History)
    requires Sound(h, bound) && Last(h).now == 0 && Both(Last(h), TAKING, NEW)
    requires Last(h).server.lease == Some(l)
    requires Last(h).replies == map[0 := Written(Applied)] && Last(h).net == map[] && Last(h).nextCall == 1
    ensures Sound(g, bound) && Last(g).now == 0 && Last(g).server == Last(h).server
    ensures Both(Last(g), TAKING, Run(FirstRead(1), Unstarted, None, 0, 0))
    ensures Last(g).replies == map[0 := Written(Applied), 1 := Read(Found(l))]
  {
    var asked := TakeStep(h, BeginReclaim(1), bound);
    assert Last(asked).net == map[1 := Get(1)];
    g := TakeStep(asked, Carry(1), bound);
  }

  lemma ReadOnce(h: History, l: Lease, bound: nat) returns (g: History)
    requires Sound(h, bound) && Last(h).now == 0 && Both(Last(h), TAKING, NEW)
    requires Last(h).server.lease == Some(l)
    requires Last(h).replies == map[0 := Written(Applied)] && Last(h).net == map[] && Last(h).nextCall == 1
    ensures Sound(g, bound) && Last(g).now == 0 && Both(Last(g), TAKING, Observing(l))
    ensures Last(g).server.lease == Some(l)
    ensures 0 in Last(g).replies && Last(g).replies[0] == Written(Applied)
  {
    var asked := Asked(h, l, bound);
    g := TakeStep(asked, TaskAnswered(1), bound);
  }

  // ---- run 1 steals ----

  /** The steal has just been carried out in step `i`. */
  ghost predicate StolenAt(h: History, i: nat, now: int)
  {
    && h.Valid() && i < |h.actions| && h.states[i].now == now
    && NamedAt(h, i, 0) && h.states[i + 1].server != h.states[i].server
    && exists steal :: Serves(h, i, steal) && steal.Update? && steal.purpose.Steal?
  }

  lemma StolenLater(h: History, g: History, i: nat, now: int)
    requires StolenAt(h, i, now) && g.Valid() && Continues(h, g)
    ensures StolenAt(g, i, now)
  {
    assert g.states[i] == h.states[i] && g.states[i + 1] == h.states[i + 1] && g.actions[i] == h.actions[i];
    var steal :| Serves(h, i, steal) && steal.Update? && steal.purpose.Steal?;
    assert Serves(g, i, steal);
  }

  lemma LooksAgain(h: History, first: Run, l: Lease, bound: nat) returns (g: History, c: nat)
    requires Sound(h, bound) && Both(Last(h), first, Observing(l))
    requires Last(h).now >= LEASE_DURATION && Last(h).server.lease == Some(l)
    requires 0 in Last(h).replies && Last(h).replies[0] == Written(Applied)
    ensures Sound(g, bound) && Continues(h, g)
    ensures Last(g).now == Last(h).now && Last(g).server == Last(h).server
    ensures Both(Last(g), first, Run(SecondRead(c, l, 0), Unstarted, None, 0, 0))
    ensures c in Last(g).replies && Last(g).replies[c] == Read(Found(l))
    ensures 0 in Last(g).replies && Last(g).replies[0] == Written(Applied)
  {
    InvAlways(h, |h.states| - 1);
    c := Last(h).nextCall;
    g := TakeStep(h, WakeUp(1), bound);
    assert Last(g).net[c] == Get(1);
    g := TakeStep(g, Carry(c), bound);
  }

  lemma SendsSteal(h: History, first: Run, l: Lease, c: nat, bound: nat) returns (g: History, d: nat)
    requires Sound(h, bound) && Both(Last(h), first, Run(SecondRead(c, l, 0), Unstarted, None, 0, 0))
    requires c in Last(h).replies && Last(h).replies[c] == Read(Found(l))
    requires 0 in Last(h).replies
    ensures Sound(g, bound) && Continues(h, g) && Undisturbed(Last(h), Last(g)) && Last(g).now == Last(h).now
    ensures Both(Last(g), first, Run(Stealing(d, Last(h).now), Unstarted, None, 0, 0)) && d != 0
    ensures d in Last(g).net && Last(g).net[d] == Update(1, Stolen(l, 1, Last(h).now), Steal(0))
  {
    InvAlways(h, |h.states| - 1);
    d := Last(h).nextCall;
    g := TakeStep(h, TaskAnswered(1), bound);
  }

  lemma StealCarried(h: History, first: Run, thief: Run, l: Lease, d: nat, bound: nat) returns (g: History, i: nat)
    requires Sound(h, bound) && Both(Last(h), first, thief)
    requires Last(h).server.lease == Some(l) && l.holder == 0 && d != 0
    requires d in Last(h).net && Last(h).net[d] == Update(1, Stolen(l, 1, Last(h).now), Steal(0))
    requires 0 in Last(h).replies && Last(h).replies[0] == Written(Applied)
    ensures Sound(g, bound) && Continues(h, g)
    ensures Last(g).now == Last(h).now && Both(Last(g), first, thief) && StolenAt(g, i, Last(h).now)
    ensures 0 in Last(g).replies && Last(g).replies[0] == Written(Applied)
  {
    g := TakeStep(h, Carry(d), bound);
    i := |h.actions|;
    assert g.states[i] == Last(h);
    assert Serves(g, i, Update(1, Stolen(l, 1, Last(h).now), Steal(0)));
    TheftShows(g, i, l);
  }

  lemma ThiefDies(h: History, first: Run, thief: Run, i: nat, now: int, bound: nat) returns (g: History)
    requires Sound(h, bound) && Both(Last(h), first, thief) && StolenAt(h, i, now)
    requires thief.lost == None && thief.lastHeld == 0 && thief.skew == 0
    ensures Sound(g, bound) && Continues(h, g) && Undisturbed(Last(h), Last(g)) && Last(g).now == Last(h).now
    ensures Both(Last(g), first, DEAD) && StolenAt(g, i, now)
  {
    g := TakeStep(h, Dies(1), bound);
    StolenLater(h, g, i, now);
  }

  lemma Steals(h: History, first: Run, l: Lease, c: nat, bound: nat) returns (g: History, i: nat)
    requires Sound(h, bound) && Both(Last(h), first, Run(SecondRead(c, l, 0), Unstarted, None, 0, 0))
    requires Last(h).server.lease == Some(l) && l.holder == 0
    requires c in Last(h).replies && Last(h).replies[c] == Read(Found(l))
    requires 0 in Last(h).replies && Last(h).replies[0] == Written(Applied)
    ensures Sound(g, bound) && Continues(h, g)
    ensures Last(g).now == Last(h).now && Both(Last(g), first, DEAD) && StolenAt(g, i, Last(h).now)
    ensures 0 in Last(g).replies && Last(g).replies[0] == Written(Applied)
  {
    var sent, d := SendsSteal(h, first, l, c, bound);
    var thief := Run(Stealing(d, Last(h).now), Unstarted, None, 0, 0);
    var done;
    done, i := StealCarried(sent, first, thief, l, d, bound);
    g := ThiefDies(done, first, thief, i, Last(h).now, bound);
  }

  /** A steal of the version the Lease has is carried out. */
  lemma TheftShows(h: History, i: nat, l: Lease)
    requires h.Valid() && i < |h.actions| && h.states[i].server.lease == Some(l) && l.holder == 0
    requires exists now :: Serves(h, i, Update(1, Stolen(l, 1, now), Steal(0)))
    ensures StolenAt(h, i, h.states[i].now)
  {
    var now :| Serves(h, i, Update(1, Stolen(l, 1, now), Steal(0)));
    assert Step(h.states[i], h.actions[i], h.states[i + 1]);
  }

  // ---- run 0 goes on ----

  /** Run 0 hears of its Create. */
  lemma Hears(h: History, thief: Run, bound: nat) returns (g: History)
    requires Sound(h, bound) && Both(Last(h), TAKING, thief)
    requires 0 in Last(h).replies && Last(h).replies[0] == Written(Applied)
    ensures Sound(g, bound) && Continues(h, g) && Undisturbed(Last(h), Last(g)) && Last(g).now == Last(h).now
    ensures Both(Last(g), Holding(Last(h).now, Last(h).now + RENEW_INTERVAL), thief)
  {
    g := TakeStep(h, TaskAnswered(0), bound);
  }

  /** A renewal that fails at once, while the claim is not yet a lease duration old. */
  lemma FailsOnce(h: History, heard: int, due: int, thief: Run, bound: nat) returns (g: History)
    requires Sound(h, bound) && Both(Last(h), Holding(heard, due), thief)
    requires Last(h).now == due <= heard + LEASE_DURATION
    ensures Sound(g, bound) && Continues(h, g) && Undisturbed(Last(h), Last(g)) && Last(g).now == Last(h).now
    ensures Both(Last(g), Holding(heard, due + RENEW_INTERVAL), thief)
  {
    var c := Last(h).nextCall;
    g := TakeStep(h, RenewTick(0, due + RENEW_INTERVAL), bound);
    assert Both(Last(g), Run(Working, RenewRead(c, due, due + RENEW_INTERVAL), None, heard, 0), thief);
    g := TakeStep(g, LoopFailed(0), bound);
  }

  /** Run 0 lives on, its renewals failing, up to time `t`. */
  lemma {:induction false} LivesOn(h: History, heard: int, m: nat, thief: Run, t: int, bound: nat)
    returns (g: History, n: nat)
    requires Sound(h, bound) && Both(Last(h), Holding(heard, heard + m * RENEW_INTERVAL), thief) && Idle(thief)
    requires Last(h).now <= t <= heard + LEASE_DURATION && Last(h).now <= heard + m * RENEW_INTERVAL
    ensures Sound(g, bound) && Continues(h, g) && Undisturbed(Last(h), Last(g)) && Last(g).now == t
    ensures Both(Last(g), Holding(heard, heard + n * RENEW_INTERVAL), thief) && t <= heard + n * RENEW_INTERVAL
    ensures n == m || heard + n * RENEW_INTERVAL < t + RENEW_INTERVAL
    ensures heard + m * RENEW_INTERVAL < t ==> n != m
    decreases if t > heard + m * RENEW_INTERVAL then t - heard - m * RENEW_INTERVAL else 0
  {
    var due := heard + m * RENEW_INTERVAL;
    if t <= due {
      g := Wait(h, t - Last(h).now, Holding(heard, due), thief, bound);
      n := m;
    } else {
      var there := Wait(h, due - Last(h).now, Holding(heard, due), thief, bound);
      var failed := FailsOnce(there, heard, due, thief, bound);
      g, n := LivesOn(failed, heard, m + 1, thief, t, bound);
    }
  }

  /** Its claim a lease duration old, run 0 still has two intervals: one to its next tick, one for the call. */
  lemma LastGasp(h: History, heard: int, thief: Run, bound: nat) returns (g: History)
    requires Sound(h, bound) && Both(Last(h), Holding(heard, heard + LEASE_DURATION), thief) && Idle(thief)
    requires Last(h).now == heard + LEASE_DURATION
    ensures Sound(g, bound) && Continues(h, g)
    ensures Last(g).now == heard + LEASE_DURATION + 2 * RENEW_INTERVAL
    ensures 0 in Last(g).runs && Live(Last(g).runs[0])
  {
    var due := heard + LEASE_DURATION + RENEW_INTERVAL;
    var failed := FailsOnce(h, heard, heard + LEASE_DURATION, thief, bound);
    var ticked := Wait(failed, RENEW_INTERVAL, Holding(heard, due), thief, bound);
    g := LastCall(ticked, heard, due, thief, bound);
  }

  lemma LastCall(h: History, heard: int, due: int, thief: Run, bound: nat) returns (g: History)
    requires Sound(h, bound) && Both(Last(h), Holding(heard, due), thief) && Idle(thief) && Last(h).now == due
    ensures Sound(g, bound) && Continues(h, g) && Last(g).now == due + RENEW_INTERVAL
    ensures 0 in Last(g).runs && Live(Last(g).runs[0])
  {
    var c := Last(h).nextCall;
    var asked := TakeStep(h, RenewTick(0, due + RENEW_INTERVAL), bound);
    g := Wait(asked, RENEW_INTERVAL, Run(Working, RenewRead(c, due, due + RENEW_INTERVAL), None, heard, 0), thief, bound);
  }

  /** From the moment it hears, whatever has become of the Lease. */
  lemma ToTheEnd(h: History, heard: int, m: nat, thief: Run, bound: nat) returns (g: History)
    requires Sound(h, bound) && Both(Last(h), Holding(heard, heard + m * RENEW_INTERVAL), thief) && Idle(thief)
    requires Last(h).now <= heard + m * RENEW_INTERVAL && Last(h).now < heard + LEASE_DURATION
    requires m <= 6
    ensures Sound(g, bound) && Continues(h, g)
    ensures Last(g).now == heard + LEASE_DURATION + 2 * RENEW_INTERVAL
    ensures 0 in Last(g).runs && Live(Last(g).runs[0])
  {
    var on, n := LivesOn(h, heard, m, thief, heard + LEASE_DURATION, bound);
    assert n == 6;
    g := LastGasp(on, heard, thief, bound);
  }

  // ---- the witness ----

  lemma WatchedAndHeard(bound: nat) returns (g: History, l: Lease)
    requires RENEW_INTERVAL <= bound <= LEASE_DURATION
    ensures Sound(g, bound) && Last(g).now == bound && Last(g).server.lease == Some(l) && l.holder == 0
    ensures Both(Last(g), Holding(bound, bound + 1 * RENEW_INTERVAL), Observing(l))
    ensures 0 in Last(g).replies && Last(g).replies[0] == Written(Applied)
  {
    var h;
    h, l := Created(bound);
    h := ReadOnce(h, l, bound);
    h := Wait(h, bound, TAKING, Observing(l), bound);
    g := Hears(h, Observing(l), bound);
  }

  /** The call is answered before the steal. */
  lemma HeardBefore(bound: nat) returns (g: History, i: nat)
    requires RENEW_INTERVAL <= bound <= LEASE_DURATION
    ensures Sound(g, bound) && StolenAt(g, i, LEASE_DURATION) && i + 1 < |g.states|
    ensures Last(g).now == bound + LEASE_DURATION + 2 * RENEW_INTERVAL
    ensures 0 in Last(g).runs && Live(Last(g).runs[0])
  {
    var h, l := WatchedAndHeard(bound);
    var at, n := LivesOn(h, bound, 1, Observing(l), LEASE_DURATION, bound);
    var holding := Holding(bound, bound + n * RENEW_INTERVAL);
    var looked, c := LooksAgain(at, holding, l, bound);
    var stolen;
    stolen, i := Steals(looked, holding, l, c, bound);
    g := ToTheEnd(stolen, bound, n, DEAD, bound);
    StolenLater(stolen, g, i, LEASE_DURATION);
  }

  lemma StolenUnheard(bound: nat) returns (g: History, i: nat)
    requires bound > LEASE_DURATION
    ensures Sound(g, bound) && StolenAt(g, i, LEASE_DURATION) && Last(g).now == LEASE_DURATION
    ensures Both(Last(g), TAKING, DEAD) && 0 in Last(g).replies && Last(g).replies[0] == Written(Applied)
  {
    var h, l := Created(bound);
    h := ReadOnce(h, l, bound);
    h := Wait(h, LEASE_DURATION, TAKING, Observing(l), bound);
    var looked, c := LooksAgain(h, TAKING, l, bound);
    g, i := Steals(looked, TAKING, l, c, bound);
  }

  /** The call is answered after the steal. */
  lemma HeardAfter(bound: nat) returns (g: History, i: nat)
    requires bound > LEASE_DURATION
    ensures Sound(g, bound) && StolenAt(g, i, LEASE_DURATION) && i + 1 < |g.states|
    ensures Last(g).now == bound + LEASE_DURATION + 2 * RENEW_INTERVAL
    ensures 0 in Last(g).runs && Live(Last(g).runs[0])
  {
    var stolen;
    stolen, i := StolenUnheard(bound);
    var late := Wait(stolen, bound - LEASE_DURATION, TAKING, DEAD, bound);
    var heard := Hears(late, DEAD, bound);
    g := ToTheEnd(heard, bound, 1, DEAD, bound);
    StolenLater(stolen, g, i, LEASE_DURATION);
  }

  /**
   No smaller bound on the overlap holds: for every bound on the call that takes a claim,
   of at least an interval, some timely history has a run live exactly two intervals and
   that bound after it was stolen from. In particular three intervals are exceeded as soon
   as that call may take longer than one.
   */
  lemma OverlapIsTight(bound: nat) returns (h: History, i: nat, k: nat, steal: Request)
    requires bound >= RENEW_INTERVAL
    ensures h.Valid() && Timely(h, bound)
    ensures Serves(h, i, steal) && steal.Update? && steal.purpose.Steal?
    ensures NamedAt(h, i, 0) && h.states[i + 1].server != h.states[i].server
    ensures i < k < |h.states| && 0 in h.states[k].runs && Live(h.states[k].runs[0])
    ensures h.states[k].now == h.states[i].now + 2 * RENEW_INTERVAL + Max(bound, RENEW_INTERVAL)
  {
    if bound <= LEASE_DURATION {
      h, i := HeardBefore(bound);
    } else {
      h, i := HeardAfter(bound);
    }
    k := |h.states| - 1;
    steal :| Serves(h, i, steal) && steal.Update? && steal.purpose.Steal?;
  }
}
