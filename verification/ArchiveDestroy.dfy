/**
 A destroy as a sequence of steps that may stop anywhere and be run again: plan,
 write the plan down, remove the instance from the cluster, settle the archive,
 remove the local state. What the first run settled on is what every later run acts
 on, and the record of it outlives anything but a settled archive.
 */
module ArchiveDestroy {
  import opened Wrappers
  import opened ArchivePaths
  import opened ArchivePlan
  import opened ArchiveRemoval
  import Text

  /** The cluster and the disk, as far as the archive goes. */
  datatype World = World(
    eventStore: Option<Archiver>, namespace: bool, install: InstallRecord, file: File, objects: Objects)

  /** What the caller asked for, and which of the reads a run begins with succeed. */
  datatype Reads = Reads(keep: bool, record: bool, live: bool, store: bool, file: bool)

  datatype Stage = Planned | Changing | Cleared | Settled(left: bool, interrupted: bool)

  datatype Session = NoRun | Running(plan: Plan, access: Reads, stage: Stage) | Finished

  datatype Write = Complete | Refused | Torn

  datatype Action =
    | Begin(access: Reads)
    | WriteRecord(write: Write)
    | LoseEventStore
    | LoseNamespace
    | ClearNamespace(deleted: bool)
    | SettleArchive(weather: Weather)
    | RemoveState
    | Stop

  datatype State = State(world: World, session: Session)

  /** readArchivePlan's facts: the recorded archive is consulted only when the event store is gone. */
  function Gather(instance: string, w: World, r: Reads): Facts
  {
    Facts(
      r.keep,
      if r.record then Reading.Found(w.install) else Failed,
      if r.live then Reading.Found(w.eventStore) else Failed,
      if r.live && r.store && w.eventStore.Some? && w.eventStore.value.store.Some?
        then ReadStore(w.eventStore.value.store.value) else Failed,
      if !r.live || w.eventStore.Some? then Reading.Found(None)
      else if r.file then ReadFile(instance, w.file) else Failed)
  }

  function PlanNow(parse: UrlParser, instance: string, w: World, r: Reads): Plan
  {
    PlanRemoval(parse, instance, Gather(instance, w, r))
  }

  predicate Enabled(s: State, a: Action)
  {
    match a
    case Begin(_) => s.session.NoRun?
    case WriteRecord(_) => s.session.Running? && s.session.stage.Planned?
    case LoseEventStore => true
    case LoseNamespace => true
    case ClearNamespace(_) => s.session.Running? && s.session.stage.Changing?
    case SettleArchive(_) => s.session.Running? && s.session.stage.Cleared?
    case RemoveState => s.session.Running? && s.session.stage.Settled?
    case Stop => s.session.Running?
  }

  function Apply(parse: UrlParser, instance: string, s: State, a: Action): State
    requires Enabled(s, a)
  {
    var w := s.world;
    match a
    case Begin(access) => State(w, Running(PlanNow(parse, instance, w, access), access, Planned))
    case WriteRecord(write) =>
      var p := s.session.plan;
      State(if p.Remove? && !p.fromRecorded && !write.Refused?
              then w.(file := if write.Torn? then Garbled else WriteDown(instance, p)) else w,
            s.session.(stage := Changing))
    // Deletions go on by themselves, inside a run or between two.
    case LoseEventStore => State(w.(eventStore := None), s.session)
    case LoseNamespace => State(w.(namespace := false, eventStore := None), s.session)
    case ClearNamespace(deleted) =>
      // A namespace not labelled as the instance's is left alone, and the step succeeds all the same.
      State(if deleted then w.(namespace := false, eventStore := None) else w, s.session.(stage := Cleared))
    case SettleArchive(weather) =>
      var (objects, left) := Settle(w.objects, s.session.plan, w.eventStore.Some?, w.namespace, weather);
      State(w.(objects := objects),
            if FailsTheDestroy(s.session.plan, left, weather) then NoRun
            else s.session.(stage := Settled(left, weather.interrupted)))
    case RemoveState => State(w.(file := Absent), Finished)
    case Stop => State(w, NoRun)
  }

  /** The runs of one instance's destroy, from before the first. */
  datatype History = History(states: seq<State>, actions: seq<Action>)
  {
    ghost predicate Valid(parse: UrlParser, instance: string)
    {
      && |states| == |actions| + 1
      && states[0].session.NoRun?
      && forall i :: 0 <= i < |actions| ==>
           Enabled(states[i], actions[i]) && states[i + 1] == Apply(parse, instance, states[i], actions[i])
    }
  }

  /** The same bucket, prefix and endpoint. */
  ghost predicate SameRemoval(p: Plan, q: Plan)
  {
    p.Remove? && q.Remove? && p.bucket == q.bucket && p.prefix == q.prefix && p.endpoint == q.endpoint
  }

  /** The plan `p` came from this live event store. */
  ghost predicate PlannedFrom(parse: UrlParser, instance: string, install: InstallRecord, e: Archiver, p: Plan)
  {
    && p.Remove? && !p.fromRecorded && e.store.Some?
    && ReadStore(e.store.value).Found? && Judge(instance, e.path).Accepted?
    && p.prefix == e.path + "/"
    && p.bucket == ReadStore(e.store.value).value.bucket == install.bucket
    && p.endpoint == e.store.value.endpoint == install.endpoint
    && install.backups && !install.external
    && InClusterService(parse, p.endpoint).Some?
  }

  lemma LivePlanFrom(parse: UrlParser, instance: string, w: World, r: Reads)
    requires PlanNow(parse, instance, w, r).Remove? && !PlanNow(parse, instance, w, r).fromRecorded
    ensures w.eventStore.Some?
    ensures PlannedFrom(parse, instance, w.install, w.eventStore.value, PlanNow(parse, instance, w, r))
  {
  }

  /** The plan in hand was read from a live event store and is still to be written down. */
  ghost predicate Unwritten(s: State)
  {
    s.session.Running? && s.session.stage.Planned? && s.session.plan.Remove? && !s.session.plan.fromRecorded
  }

  /** No event store but `e` is there. */
  ghost predicate OnlyStore(w: World, e: Archiver)
  {
    w.eventStore == None || w.eventStore == Some(e)
  }

  /** A plan still to be written down came from the event store of this world, which may have gone since. */
  ghost predicate HasOrigin(parse: UrlParser, instance: string, s: State)
  {
    Unwritten(s) ==> exists e :: PlannedFrom(parse, instance, s.world.install, e, s.session.plan) && OnlyStore(s.world, e)
  }

  lemma OriginStep(parse: UrlParser, instance: string, s: State, a: Action)
    requires Enabled(s, a) && HasOrigin(parse, instance, s)
    ensures HasOrigin(parse, instance, Apply(parse, instance, s, a))
  {
    var s' := Apply(parse, instance, s, a);
    if Unwritten(s') {
      if a.Begin? {
        LivePlanFrom(parse, instance, s.world, a.access);
      } else {
        var e :| PlannedFrom(parse, instance, s.world.install, e, s.session.plan) && OnlyStore(s.world, e);
        assert PlannedFrom(parse, instance, s'.world.install, e, s'.session.plan) && OnlyStore(s'.world, e);
      }
    }
  }

  lemma {:induction false} OriginAlways(parse: UrlParser, instance: string, h: History, i: nat)
    requires h.Valid(parse, instance) && i < |h.states|
    ensures HasOrigin(parse, instance, h.states[i])
  {
    if i > 0 {
      OriginAlways(parse, instance, h, i - 1);
      OriginStep(parse, instance, h.states[i - 1], h.actions[i - 1]);
    }
  }

  /**
   The plan `p`, taken from event store `e`, has been written down, and nothing
   contradicts it since; a later write of it may have been torn.
   */
  ghost predicate WrittenDown(parse: UrlParser, instance: string, s: State, e: Archiver, p: Plan)
  {
    s.session.Finished? ||
    (&& PlannedFrom(parse, instance, s.world.install, e, p)
     && (s.world.file == WriteDown(instance, p) || s.world.file == Garbled)
     && OnlyStore(s.world, e)
     && (Unwritten(s) ==> PlannedFrom(parse, instance, s.world.install, e, s.session.plan)))
  }

  /** Everything this re-run needs to read, it can read. */
  ghost predicate ReadsSuffice(w: World, r: Reads)
  {
    !r.keep && r.record && r.live && (if w.eventStore.Some? then r.store else r.file)
  }

  /** While the plan is written down, a run plans the same removal exactly when it can read what it needs. */
  lemma PlansTheSame(parse: UrlParser, instance: string, w: World, e: Archiver, p: Plan, r: Reads)
    requires PlannedFrom(parse, instance, w.install, e, p) && p.endpoint != ""
    requires (w.file == WriteDown(instance, p) || w.file == Garbled) && OnlyStore(w, e)
    ensures SameRemoval(PlanNow(parse, instance, w, r), p)
            <==> ReadsSuffice(w, r) && (w.eventStore.None? ==> !w.file.Garbled?)
  {
    assert p.prefix[|p.prefix| - 1] == '/';
    assert Text.TrimSuffix(p.prefix, '/') == e.path;
  }

  lemma WrittenDownStep(parse: UrlParser, instance: string, s: State, a: Action, e: Archiver, p: Plan)
    requires Enabled(s, a) && WrittenDown(parse, instance, s, e, p)
    ensures WrittenDown(parse, instance, Apply(parse, instance, s, a), e, p)
  {
    if a.Begin? {
      var plan := PlanNow(parse, instance, s.world, a.access);
      if plan.Remove? && !plan.fromRecorded {
        LivePlanFrom(parse, instance, s.world, a.access);
      }
    }
  }

  lemma {:induction false} WrittenDownFrom(
      parse: UrlParser, instance: string, h: History, i: nat, j: nat, e: Archiver, p: Plan)
    requires h.Valid(parse, instance) && i <= j < |h.states|
    requires WrittenDown(parse, instance, h.states[i], e, p)
    ensures WrittenDown(parse, instance, h.states[j], e, p)
  {
    if i < j {
      WrittenDownFrom(parse, instance, h, i, j - 1, e, p);
      WrittenDownStep(parse, instance, h.states[j - 1], h.actions[j - 1], e, p);
    }
  }

  /**
   Once a run has written its removal plan down, every later run before completion
   plans the same bucket, prefix and endpoint, wherever the runs stop and even after the
   event store is gone, exactly when it is not told to keep the backups, can read what it
   needs (the install record, the event store, and then either the store it names or,
   once it is gone, the record), and, once the event store is gone, no re-run in between
   died while writing the record again.
   */
  lemma RerunPlansTheSame(parse: UrlParser, instance: string, h: History, i: nat, j: nat)
    requires InClusterService(parse, "").None?
    requires h.Valid(parse, instance) && i < j < |h.actions|
    requires h.actions[i] == WriteRecord(Complete) && Unwritten(h.states[i])
    requires h.actions[j].Begin?
    ensures h.states[j + 1].session.Running?
    ensures var w := h.states[j].world;
            SameRemoval(h.states[j + 1].session.plan, h.states[i].session.plan)
            <==> ReadsSuffice(w, h.actions[j].access) && (w.eventStore.None? ==> !w.file.Garbled?)
  {
    var p := h.states[i].session.plan;
    OriginAlways(parse, instance, h, i);
    var e :| PlannedFrom(parse, instance, h.states[i].world.install, e, p) && OnlyStore(h.states[i].world, e);
    assert h.states[i + 1] == Apply(parse, instance, h.states[i], h.actions[i]);
    WrittenDownFrom(parse, instance, h, i + 1, j, e, p);
    assert h.states[j + 1] == Apply(parse, instance, h.states[j], h.actions[j]);
    PlansTheSame(parse, instance, h.states[j].world, e, p, h.actions[j].access);
  }

  const ALL_READ := Reads(false, true, true, true, true)

  /**
   That last condition can fail although every read succeeds: a re-run that still sees the
   event store writes the record again, dies halfway, and the event store goes. From any
   world whose archive a destroy would remove, this history leads to a run that does not
   know what to remove.
   */
  lemma TornRewriteLosesThePlan(parse: UrlParser, instance: string, w: World) returns (h: History)
    requires PlanNow(parse, instance, w, ALL_READ).Remove? && !PlanNow(parse, instance, w, ALL_READ).fromRecorded
    ensures h.Valid(parse, instance) && h.states[0] == State(w, NoRun)
    ensures h.actions == [Begin(ALL_READ), WriteRecord(Complete), Stop, Begin(ALL_READ), WriteRecord(Torn), Stop,
                          LoseEventStore, Begin(ALL_READ)]
    ensures h.states[8].session == Running(Unknown(RecordedUnreadable), ALL_READ, Planned)
  {
    var p := PlanNow(parse, instance, w, ALL_READ);
    LivePlanFrom(parse, instance, w, ALL_READ);
    var recorded := w.(file := WriteDown(instance, p));
    var torn := w.(file := Garbled);
    var gone := torn.(eventStore := None);
    assert PlanNow(parse, instance, recorded, ALL_READ) == p;
    assert PlanNow(parse, instance, gone, ALL_READ) == Unknown(RecordedUnreadable);
    h := History(
      [State(w, NoRun), State(w, Running(p, ALL_READ, Planned)), State(recorded, Running(p, ALL_READ, Changing)),
       State(recorded, NoRun), State(recorded, Running(p, ALL_READ, Planned)),
       State(torn, Running(p, ALL_READ, Changing)), State(torn, NoRun), State(gone, NoRun),
       State(gone, Running(Unknown(RecordedUnreadable), ALL_READ, Planned))],
      [Begin(ALL_READ), WriteRecord(Complete), Stop, Begin(ALL_READ), WriteRecord(Torn), Stop, LoseEventStore,
       Begin(ALL_READ)]);
  }

  /**
   A re-run that cannot read the event store, or finds it gone and the record unreadable,
   removes nothing, says so, and does not fail: it goes on to remove the record.
   */
  lemma UnreadableRerunGivesUp(parse: UrlParser, instance: string, w: World, r: Reads)
    requires !r.keep && r.record && w.install.backups && !w.install.external
    requires !r.live || (w.eventStore.None? && (!r.file || w.file.Garbled?))
    ensures PlanNow(parse, instance, w, r).Unknown?
    ensures forall weather :: Settle(w.objects, PlanNow(parse, instance, w, r), false, false, weather)
                              == (w.objects, true)
    ensures forall weather :: !FailsTheDestroy(PlanNow(parse, instance, w, r), true, weather)
  {
  }

  // ---- what is deleted, and when the record may go ----

  /**
   In every history an object disappears only when a removal plan is settled: the
   object is under that plan's prefix in its bucket, and the event store and the
   namespace are gone.
   */
  lemma DeletesOnlyAfterGone(parse: UrlParser, instance: string, h: History, i: nat, k: Key)
    requires h.Valid(parse, instance) && i < |h.actions|
    requires k in h.states[i].world.objects && k !in h.states[i + 1].world.objects
    ensures h.actions[i].SettleArchive? && h.states[i].session.plan.Remove?
    ensures InScope(h.states[i].session.plan, k)
    ensures h.states[i].world.eventStore.None? && !h.states[i].world.namespace
  {
    var s, a := h.states[i], h.actions[i];
    assert h.states[i + 1] == Apply(parse, instance, s, a);
    if a.SettleArchive? {
      SettleIsContained(s.world.objects, s.session.plan, s.world.eventStore.Some?, s.world.namespace, a.weather);
    }
  }

  /** How the archive was settled: something left and interrupted never reaches the removal of the record. */
  ghost predicate SettledWell(s: State)
  {
    s.session.Running? && s.session.stage.Settled? && s.session.plan.Remove? ==>
      if s.session.stage.left then !s.session.stage.interrupted else Scope(s.world.objects, s.session.plan) == {}
  }

  lemma {:induction false} SettledWellAlways(parse: UrlParser, instance: string, h: History, i: nat)
    requires h.Valid(parse, instance) && i < |h.states|
    ensures SettledWell(h.states[i])
  {
    if i > 0 {
      SettledWellAlways(parse, instance, h, i - 1);
      var s, a := h.states[i - 1], h.actions[i - 1];
      assert h.states[i] == Apply(parse, instance, s, a);
      if a.SettleArchive? {
        SettleIsContained(s.world.objects, s.session.plan, s.world.eventStore.Some?, s.world.namespace, a.weather);
      }
    }
  }

  /**
   The record of a removal disappears only with the local state of a finished destroy:
   one that emptied the prefix, or was refused by the store without being interrupted
   (or planned no removal). An interrupt while something is left keeps it.
   */
  lemma RecordOutlivesInterrupts(parse: UrlParser, instance: string, h: History, i: nat)
    requires h.Valid(parse, instance) && i < |h.actions|
    requires !h.states[i].world.file.Absent? && h.states[i + 1].world.file.Absent?
    ensures h.actions[i].RemoveState? && h.states[i].session.stage.Settled?
    ensures var s := h.states[i];
            s.session.plan.Remove? ==>
              if s.session.stage.left then !s.session.stage.interrupted
              else Scope(s.world.objects, s.session.plan) == {}
  {
    assert h.states[i + 1] == Apply(parse, instance, h.states[i], h.actions[i]);
    SettledWellAlways(parse, instance, h, i);
  }

  /** A settlement interrupted with something left ends the run and leaves the record as it is. */
  lemma InterruptKeepsTheRecord(parse: UrlParser, instance: string, h: History, i: nat)
    requires h.Valid(parse, instance) && i < |h.actions| && h.actions[i].SettleArchive?
    requires h.states[i].session.plan.Remove? && h.actions[i].weather.interrupted
    requires var w := h.states[i].world;
             Scope(h.states[i + 1].world.objects, h.states[i].session.plan) != {} || w.eventStore.Some? || w.namespace
    ensures h.states[i + 1].session.NoRun? && h.states[i + 1].world.file == h.states[i].world.file
  {
    var s, a := h.states[i], h.actions[i];
    assert h.states[i + 1] == Apply(parse, instance, s, a);
    SettleIsContained(s.world.objects, s.session.plan, s.world.eventStore.Some?, s.world.namespace, a.weather);
  }

  /**
   And nothing but an interrupt stops a run there: one that was refused by the store, or
   that had nothing to remove, goes on with what the settlement reported.
   */
  lemma OnlyAnInterruptStopsSettling(parse: UrlParser, instance: string, h: History, i: nat)
    requires h.Valid(parse, instance) && i < |h.actions| && h.actions[i].SettleArchive?
    ensures var s, weather := h.states[i], h.actions[i].weather;
            var left := Settle(s.world.objects, s.session.plan, s.world.eventStore.Some?, s.world.namespace, weather).1;
            if left && s.session.plan.Remove? && weather.interrupted then h.states[i + 1].session.NoRun?
            else h.states[i + 1].session == s.session.(stage := Settled(left, weather.interrupted))
  {
    assert h.states[i + 1] == Apply(parse, instance, h.states[i], h.actions[i]);
  }

  // ---- what a destroy achieves ----

  const CALM := Weather(true, true, true, true, true, {}, map[], true, false)

  /** The archive of the world as a destroy leaves it: nothing under the prefix, all else as it was. */
  ghost predicate Emptied(before: Objects, after: Objects, bucket: string, prefix: string)
  {
    forall k :: (k in after <==> k in before && !(k.bucket == bucket && prefix <= k.name))
                && (k in after ==> after[k] == before[k])
  }

  lemma CalmSettles(objects: Objects, p: Plan)
    requires p.Remove?
    ensures var (after, left) := Settle(objects, p, false, false, CALM);
            !left && Emptied(objects, after, p.bucket, p.prefix)
  {
    SettleRemoves(objects, p, false, false, CALM);
    SettleOverAnyStore(objects, p, CALM);
    SettleIsContained(objects, p, false, false, CALM);
  }

  ghost function Last(h: History): State
    requires h.states != []
  {
    h.states[|h.states| - 1]
  }

  lemma TakeStep(parse: UrlParser, instance: string, h: History, a: Action) returns (g: History)
    requires h.Valid(parse, instance) && Enabled(Last(h), a)
    ensures g.Valid(parse, instance) && g.actions == h.actions + [a] && g.states[0] == h.states[0]
    ensures Last(g) == Apply(parse, instance, Last(h), a)
  {
    g := History(h.states + [Apply(parse, instance, Last(h), a)], h.actions + [a]);
  }

  /** A run that has planned a removal and meets no failure from there on empties the prefix and removes the record. */
  lemma FinishesCalmly(parse: UrlParser, instance: string, h: History, w: World, p: Plan) returns (g: History)
    requires h.Valid(parse, instance) && Last(h) == State(w, Running(p, ALL_READ, Changing)) && p.Remove?
    ensures g.Valid(parse, instance) && g.states[0] == h.states[0]
    ensures g.actions == h.actions + [ClearNamespace(true), SettleArchive(CALM), RemoveState]
    ensures Last(g).session.Finished? && Last(g).world.file.Absent?
    ensures Emptied(w.objects, Last(g).world.objects, p.bucket, p.prefix)
  {
    CalmSettles(w.objects, p);
    var cleared := TakeStep(parse, instance, h, ClearNamespace(true));
    var settled := TakeStep(parse, instance, cleared, SettleArchive(CALM));
    g := TakeStep(parse, instance, settled, RemoveState);
  }

  /**
   From any world a destroy would remove from, one that meets no failure ends with the
   archive's prefix empty, every other object as it was, and the record gone.
   */
  lemma DestroyRemovesTheArchive(parse: UrlParser, instance: string, w: World) returns (h: History)
    requires PlanNow(parse, instance, w, ALL_READ).Remove? && !PlanNow(parse, instance, w, ALL_READ).fromRecorded
    ensures h.Valid(parse, instance) && h.states[0] == State(w, NoRun)
    ensures h.actions == [Begin(ALL_READ), WriteRecord(Complete), ClearNamespace(true), SettleArchive(CALM), RemoveState]
    ensures var p := PlanNow(parse, instance, w, ALL_READ);
            Last(h).session.Finished? && Last(h).world.file.Absent?
            && Emptied(w.objects, Last(h).world.objects, p.bucket, p.prefix)
  {
    var p := PlanNow(parse, instance, w, ALL_READ);
    var begun := TakeStep(parse, instance, History([State(w, NoRun)], []), Begin(ALL_READ));
    var written := TakeStep(parse, instance, begun, WriteRecord(Complete));
    h := FinishesCalmly(parse, instance, written, w.(file := WriteDown(instance, p)), p);
  }

  /** A re-run over what a first run left, its event store and namespace gone. */
  lemma RerunBegins(parse: UrlParser, instance: string, w: World, p: Plan)
    requires InClusterService(parse, "").None?
    requires p == PlanNow(parse, instance, w, ALL_READ) && p.Remove? && !p.fromRecorded
    ensures var gone := w.(file := WriteDown(instance, p), namespace := false, eventStore := None);
            PlanNow(parse, instance, gone, ALL_READ) == p.(fromRecorded := true)
  {
    LivePlanFrom(parse, instance, w, ALL_READ);
    var gone := w.(file := WriteDown(instance, p), namespace := false, eventStore := None);
    PlansTheSame(parse, instance, gone, w.eventStore.value, p, ALL_READ);
  }

  /**
   And one that dies after writing its plan down is finished by a re-run from the record,
   although the event store is gone by then: the same prefix is emptied.
   */
  lemma RerunRemovesTheArchive(parse: UrlParser, instance: string, w: World) returns (h: History)
    requires InClusterService(parse, "").None?
    requires PlanNow(parse, instance, w, ALL_READ).Remove? && !PlanNow(parse, instance, w, ALL_READ).fromRecorded
    ensures h.Valid(parse, instance) && h.states[0] == State(w, NoRun)
    ensures h.actions == [Begin(ALL_READ), WriteRecord(Complete), Stop, LoseNamespace, Begin(ALL_READ),
                          WriteRecord(Complete), ClearNamespace(true), SettleArchive(CALM), RemoveState]
    ensures var p := PlanNow(parse, instance, w, ALL_READ);
            Last(h).session.Finished? && Last(h).world.file.Absent?
            && Emptied(w.objects, Last(h).world.objects, p.bucket, p.prefix)
  {
    var p := PlanNow(parse, instance, w, ALL_READ);
    RerunBegins(parse, instance, w, p);
    h := DiesWritten(parse, instance, w, p);
    var gone := Last(h).world;
    h := TakeStep(parse, instance, h, Begin(ALL_READ));
    h := TakeStep(parse, instance, h, WriteRecord(Complete));
    h := FinishesCalmly(parse, instance, h, gone, p.(fromRecorded := true));
  }

  lemma DiesWritten(parse: UrlParser, instance: string, w: World, p: Plan) returns (h: History)
    requires p == PlanNow(parse, instance, w, ALL_READ) && p.Remove? && !p.fromRecorded
    ensures h.Valid(parse, instance) && h.states[0] == State(w, NoRun)
    ensures h.actions == [Begin(ALL_READ), WriteRecord(Complete), Stop, LoseNamespace]
    ensures Last(h) == State(w.(file := WriteDown(instance, p), namespace := false, eventStore := None), NoRun)
  {
    h := TakeStep(parse, instance, History([State(w, NoRun)], []), Begin(ALL_READ));
    h := TakeStep(parse, instance, h, WriteRecord(Complete));
    h := TakeStep(parse, instance, h, Stop);
    h := TakeStep(parse, instance, h, LoseNamespace);
  }
}
