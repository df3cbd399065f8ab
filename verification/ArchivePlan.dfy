/**
 What destroy decides to do with an instance's event-store archive: a pure decision
 on facts read before the first change, and what every decision to delete implies.
 The URL parser is the library's and is taken as an argument, so every result holds
 whatever it answers.
 */
module ArchivePlan {
  import opened Wrappers
  import opened ArchivePaths
  import Text

  const INFRA_NAMESPACE := "dc-system"

  /** A read of the cluster or the disk: what was found, or that it could not be read. */
  datatype Reading<+T> = Found(value: T) | Failed

  /** The port part of a URL. */
  datatype Port = NoPort | Number(n: int) | BadPort

  /** What the library's URL parser yields. */
  datatype Url = Url(scheme: string, host: string, hostname: string, port: Port)

  type UrlParser = string -> Option<Url>

  /** The parts of the install record that destroy reads. */
  datatype InstallRecord = InstallRecord(backups: bool, external: bool, bucket: string, endpoint: string)

  /** The event store's archiver, and the ObjectStore it names. */
  datatype Archiver = Archiver(path: string, store: Option<Destination>)

  /** An ObjectStore's own fields. */
  datatype Destination = Destination(path: string, endpoint: string)

  datatype Store = Store(bucket: string, endpoint: string)

  /** What an unfinished destroy wrote down. */
  datatype Recorded = Recorded(instance: string, bucket: string, prefix: string, endpoint: string)

  /** The local file it wrote it to. */
  datatype File = Absent | Garbled | Holds(recorded: Recorded)

  datatype Facts = Facts(
    keep: bool,
    record: Reading<InstallRecord>,
    live: Reading<Option<Archiver>>,
    store: Reading<Store>,
    recorded: Reading<Option<Recorded>>)

  datatype Why = NoInstallRecord | LiveUnreadable | PathRefused(v: PathVerdict) | StoreUnreadable
               | RecordedUnreadable | NothingToReadFrom | StoresDisagree | NotInCluster

  datatype Plan =
    | NoArchive
    | Keep
    | External
    | Unknown(why: Why)
    | Remove(bucket: string, prefix: string, endpoint: string, fromRecorded: bool)

  /** The labels the endpoint's host name must have, checked one by one. */
  predicate ServiceParts(parts: seq<string>)
  {
    && |parts| >= 2 && parts[0] != "" && parts[1] == INFRA_NAMESPACE
    && (|parts| == 2 || (|parts| == 3 && parts[2] == "svc")
        || (|parts| == 5 && parts[2] == "svc" && parts[3] == "cluster" && parts[4] == "local"))
  }

  /** parseInClusterEndpoint: the Service and port, if the endpoint names a Service in the shared namespace. */
  function InClusterService(parse: UrlParser, endpoint: string): (r: Option<(string, int)>)
  {
    var u := parse(endpoint);
    if u.None? || (u.value.scheme != "http" && u.value.scheme != "https") || u.value.host == "" then None
    else
      var parts := Text.Split(u.value.hostname, '.');
      if !ServiceParts(parts) then None
      else match u.value.port
        case NoPort => Some((parts[0], if u.value.scheme == "https" then 443 else 80))
        case Number(n) => Some((parts[0], n))
        case BadPort => None
  }

  /** The port a URL stands for, if it has a readable one or none. */
  function EffectivePort(u: Url): Option<int>
  {
    match u.port
    case NoPort => Some(if u.scheme == "https" then 443 else 80)
    case Number(n) => Some(n)
    case BadPort => None
  }

  /** The labels after the Service in the three names it goes by inside the cluster. */
  const SHORT := ["dc-system"]
  const MIDDLE := ["dc-system", "svc"]
  const LONG := ["dc-system", "svc", "cluster", "local"]

  /** Those three names. */
  predicate NamesService(hostname: string, service: string)
  {
    || hostname == service + "." + "dc-system"
    || hostname == service + "." + "dc-system.svc"
    || hostname == service + "." + "dc-system.svc.cluster.local"
  }

  lemma ShortNames()
    ensures Text.Join(SHORT, '.') == "dc-system" && Text.Join(MIDDLE, '.') == "dc-system.svc"
  {
    assert MIDDLE[1..] == ["svc"];
    assert Text.Join(["svc"], '.') == "svc";
  }

  lemma LongName()
    ensures Text.Join(LONG, '.') == "dc-system.svc.cluster.local"
  {
    assert LONG[1..] == ["svc", "cluster", "local"];
    assert ["svc", "cluster", "local"][1..] == ["cluster", "local"];
    assert ["cluster", "local"][1..] == ["local"];
    assert Text.Join(["cluster", "local"], '.') == "cluster.local";
    assert Text.Join(["svc", "cluster", "local"], '.') == "svc.cluster.local";
  }

  lemma LabelsAreDotless()
    ensures forall i :: 0 <= i < |LONG| ==> '.' !in LONG[i]
  {
  }

  /** A host name is a first label and others exactly when it splits into them. */
  lemma SplitsInto(hostname: string, service: string, rest: seq<string>)
    requires rest != [] && '.' !in service && forall i :: 0 <= i < |rest| ==> '.' !in rest[i]
    ensures hostname == service + "." + Text.Join(rest, '.') <==> Text.Split(hostname, '.') == [service] + rest
  {
    var parts := [service] + rest;
    assert parts[1..] == rest;
    assert Text.Join(parts, '.') == service + "." + Text.Join(rest, '.');
    Text.SplitOfJoin(parts, '.');
    Text.JoinOfSplit(hostname, '.');
  }

  /** A host name goes by one of the three names exactly when its labels are these. */
  lemma LabelsAreNames(hostname: string, service: string)
    requires '.' !in service
    ensures NamesService(hostname, service) <==>
            var parts := Text.Split(hostname, '.');
            parts == [service] + SHORT || parts == [service] + MIDDLE || parts == [service] + LONG
  {
    ShortNames();
    LongName();
    LabelsAreDotless();
    assert SHORT == LONG[..1] && MIDDLE == LONG[..2];
    SplitsInto(hostname, service, SHORT);
    SplitsInto(hostname, service, MIDDLE);
    SplitsInto(hostname, service, LONG);
  }

  lemma PartsMatch(parts: seq<string>, service: string)
    requires service != ""
    ensures parts == [service] + SHORT || parts == [service] + MIDDLE || parts == [service] + LONG
            <==> ServiceParts(parts) && parts[0] == service
  {
  }

  lemma NamesExactly(hostname: string, service: string)
    ensures var parts := Text.Split(hostname, '.');
            ServiceParts(parts) && parts[0] == service
            <==> service != "" && '.' !in service && NamesService(hostname, service)
  {
    if service != "" && '.' !in service {
      LabelsAreNames(hostname, service);
      PartsMatch(Text.Split(hostname, '.'), service);
    }
  }

  /** What the labels and the port of a URL say of the Service it names. */
  lemma LabelsDecide(parse: UrlParser, endpoint: string, service: string, port: int)
    ensures InClusterService(parse, endpoint) == Some((service, port)) <==>
            && parse(endpoint).Some?
            && var u := parse(endpoint).value;
               && (u.scheme == "http" || u.scheme == "https") && u.host != ""
               && ServiceParts(Text.Split(u.hostname, '.')) && Text.Split(u.hostname, '.')[0] == service
               && EffectivePort(u) == Some(port)
  {
  }

  /** An http or https URL with a host, which goes by one of the names of `service` in the shared namespace. */
  predicate LeadsTo(u: Url, service: string)
  {
    && (u.scheme == "http" || u.scheme == "https") && u.host != ""
    && service != "" && '.' !in service && NamesService(u.hostname, service)
  }

  lemma TakenLeadsThere(parse: UrlParser, endpoint: string, service: string, port: int)
    requires InClusterService(parse, endpoint) == Some((service, port))
    ensures parse(endpoint).Some? && LeadsTo(parse(endpoint).value, service)
    ensures EffectivePort(parse(endpoint).value) == Some(port)
  {
    LabelsDecide(parse, endpoint, service, port);
    NamesExactly(parse(endpoint).value.hostname, service);
  }

  /**
   An endpoint is taken for a Service exactly when it is an http or https URL with a host,
   its host name is one of the three names of that Service in the shared namespace, and
   its port, if it has one, can be read; the port is that one or the scheme's.
   */
  lemma InClusterExactly(parse: UrlParser, endpoint: string, service: string, port: int)
    ensures InClusterService(parse, endpoint) == Some((service, port)) <==>
            && parse(endpoint).Some? && LeadsTo(parse(endpoint).value, service)
            && EffectivePort(parse(endpoint).value) == Some(port)
  {
    if InClusterService(parse, endpoint) == Some((service, port)) {
      TakenLeadsThere(parse, endpoint, service, port);
    } else if parse(endpoint).Some? {
      LabelsDecide(parse, endpoint, service, port);
      NamesExactly(parse(endpoint).value.hostname, service);
    }
  }

  /** readObjectStore: only a bare s3://<bucket>/ is a destination whose archive path is known. */
  function ReadStore(d: Destination): (r: Reading<Store>)
  {
    if !("s3://" <= d.path) then Failed
    else
      var bucket := Text.TrimSuffix(d.path[5..], '/');
      if bucket == "" || '/' in bucket then Failed else Found(Store(bucket, d.endpoint))
  }

  /** A destination is read as a bucket exactly when it is that bucket, bare, with or without a slash. */
  lemma ReadsBareBucket(d: Destination, bucket: string, endpoint: string)
    ensures ReadStore(d) == Found(Store(bucket, endpoint)) <==>
            && bucket != "" && '/' !in bucket && endpoint == d.endpoint
            && (d.path == "s3://" + bucket || d.path == "s3://" + bucket + "/")
  {
    if "s3://" <= d.path {
      var rest := d.path[5..];
      assert d.path == "s3://" + rest;
      if bucket != "" && '/' !in bucket {
        assert bucket[|bucket| - 1] != '/';
        assert (bucket + "/")[..|bucket|] == bucket;
        assert d.path == "s3://" + bucket <==> rest == bucket;
        assert d.path == "s3://" + bucket + "/" <==> rest == bucket + "/" by {
          assert "s3://" + bucket + "/" == "s3://" + (bucket + "/");
        }
      }
    } else {
      assert "s3://" <= "s3://" + bucket && "s3://" <= "s3://" + bucket + "/";
    }
  }

  /** A record that can be acted on: complete, and this instance's. */
  predicate Complete(instance: string, r: Recorded)
  {
    && r.instance == instance && r.bucket != "" && r.endpoint != ""
    && r.prefix != "" && r.prefix[|r.prefix| - 1] == '/'
  }

  /** readRecordedArchive: an incomplete or foreign file is an error, not an absence. */
  function ReadFile(instance: string, f: File): (r: Reading<Option<Recorded>>)
    ensures r == Found(None) <==> f == Absent
    ensures r.Found? && r.value.Some? <==> f.Holds? && Complete(instance, f.recorded)
    ensures r.Found? && r.value.Some? ==> r.value.value == f.recorded
  {
    match f
    case Absent => Found(None)
    case Garbled => Failed
    case Holds(r) =>
      if r.instance != instance || r.bucket == "" || r.prefix == "" || r.prefix[|r.prefix| - 1] != '/' || r.endpoint == ""
      then Failed
      else Found(Some(r))
  }

  /** Where the archive is, or why that is not known: bucket, path, endpoint, and whether it came from the record. */
  datatype Source = Known(bucket: string, path: string, endpoint: string, fromRecorded: bool) | NotKnown(why: Why)

  function FindSource(instance: string, f: Facts): Source
  {
    if f.live.Failed? then NotKnown(LiveUnreadable)
    else if f.live.value.Some? then
      var path := f.live.value.value.path;
      if !Judge(instance, path).Accepted? then NotKnown(PathRefused(Judge(instance, path)))
      else if f.store.Failed? then NotKnown(StoreUnreadable)
      else Known(f.store.value.bucket, path, f.store.value.endpoint, false)
    else if f.recorded.Failed? then NotKnown(RecordedUnreadable)
    else if f.recorded.value.Some? then
      var r := f.recorded.value.value;
      var path := Text.TrimSuffix(r.prefix, '/');
      if !Judge(instance, path).Accepted? then NotKnown(PathRefused(Judge(instance, path)))
      else Known(r.bucket, path, r.endpoint, true)
    else NotKnown(NothingToReadFrom)
  }

  /** planArchiveRemoval. */
  function PlanRemoval(parse: UrlParser, instance: string, f: Facts): (p: Plan)
  {
    if f.keep then Keep
    else if f.record.Failed? then Unknown(NoInstallRecord)
    else if !f.record.value.backups then NoArchive
    else if f.record.value.external then External
    else
      match FindSource(instance, f)
      case NotKnown(why) => Unknown(why)
      case Known(bucket, path, endpoint, fromRecorded) =>
        if endpoint != f.record.value.endpoint || bucket != f.record.value.bucket then Unknown(StoresDisagree)
        else if InClusterService(parse, endpoint).None? then Unknown(NotInCluster)
        else Remove(bucket, path + "/", endpoint, fromRecorded)
  }

  /** Where a live event store's archive is, when that is known and may be deleted from. */
  ghost predicate LiveSource(instance: string, f: Facts, path: string, bucket: string, endpoint: string)
  {
    && f.live.Found? && f.live.value.Some? && f.live.value.value.path == path
    && Judge(instance, path).Accepted? && f.store == Found(Store(bucket, endpoint))
  }

  /** And that of one that is gone, from what an earlier run wrote down. */
  ghost predicate RecordedSource(instance: string, f: Facts, path: string, bucket: string, endpoint: string)
  {
    && f.live == Found(None) && f.recorded.Found? && f.recorded.value.Some?
    && var r := f.recorded.value.value;
       && path == Text.TrimSuffix(r.prefix, '/') && bucket == r.bucket && endpoint == r.endpoint
       && Judge(instance, path).Accepted?
  }

  /** The install record is readable, and its backups are kept in the cluster and not asked to be kept. */
  ghost predicate MayRemove(f: Facts)
  {
    !f.keep && f.record.Found? && f.record.value.backups && !f.record.value.external
  }

  /**
   A removal is planned exactly when it may be, the path is known from the live event store
   or, when that is gone, from the record, and the install record and the namespace agree.
   */
  lemma RemovesExactly(parse: UrlParser, instance: string, f: Facts, path: string, bucket: string, endpoint: string,
                       fromRecorded: bool)
    ensures PlanRemoval(parse, instance, f) == Remove(bucket, path + "/", endpoint, fromRecorded) <==>
            && MayRemove(f)
            && (if fromRecorded then RecordedSource(instance, f, path, bucket, endpoint)
                else LiveSource(instance, f, path, bucket, endpoint))
            && bucket == f.record.value.bucket && endpoint == f.record.value.endpoint
            && InClusterService(parse, endpoint).Some?
  {
    var src := FindSource(instance, f);
    if src.Known? && src.path + "/" == path + "/" {
      assert (src.path + "/")[..|src.path|] == src.path && (path + "/")[..|path|] == path;
    }
  }

  /**
   Otherwise: kept exactly when asked to be; and of readable install records, none without
   backups, the operator's own when they are external. Everything else that is not removed
   is unknown, and an install record that cannot be read says so.
   */
  lemma DecidesOtherwise(parse: UrlParser, instance: string, f: Facts)
    ensures var p := PlanRemoval(parse, instance, f);
            && (p.Keep? <==> f.keep)
            && (p.NoArchive? <==> !f.keep && f.record.Found? && !f.record.value.backups)
            && (p.External? <==> !f.keep && f.record.Found? && f.record.value.backups && f.record.value.external)
            && (p == Unknown(NoInstallRecord) <==> !f.keep && f.record.Failed?)
  {
  }

  /** And each reason for not knowing is given exactly when it is the first that applies. */
  lemma SaysWhy(parse: UrlParser, instance: string, f: Facts)
    requires MayRemove(f)
    ensures var p := PlanRemoval(parse, instance, f);
            && (p == Unknown(LiveUnreadable) <==> f.live.Failed?)
            && (p == Unknown(StoreUnreadable) <==>
                  && f.live.Found? && f.live.value.Some? && Judge(instance, f.live.value.value.path).Accepted?
                  && f.store.Failed?)
            && (p == Unknown(RecordedUnreadable) <==> f.live == Found(None) && f.recorded.Failed?)
            && (p == Unknown(NothingToReadFrom) <==> f.live == Found(None) && f.recorded == Found(None))
            && (forall v :: p == Unknown(PathRefused(v)) <==>
                  && !v.Accepted?
                  && ((f.live.Found? && f.live.value.Some? && Judge(instance, f.live.value.value.path) == v)
                      || (f.live == Found(None) && f.recorded.Found? && f.recorded.value.Some?
                          && Judge(instance, Text.TrimSuffix(f.recorded.value.value.prefix, '/')) == v)))
  {
  }

  /** What is under `path` in a store: every key that starts with the path and a slash. */
  predicate Under(path: string, key: string)
  {
    path + "/" <= key
  }

  /** A path accepted for deletion is one segment, so what is under it is under no other single-segment path. */
  lemma SegmentsAreDisjoint(p: string, q: string, key: string)
    requires '/' !in p && '/' !in q && Under(p, key) && Under(q, key)
    ensures p == q
  {
    assert key[|p|] == (p + "/")[|p|] == '/' && key[|q|] == (q + "/")[|q|] == '/';
    assert p == key[..|p|] && q == key[..|q|];
    assert forall i :: 0 <= i < |p| ==> p[i] == key[i];
    assert forall i :: 0 <= i < |q| ==> q[i] == key[i];
  }

  /**
   Every plan to delete, whatever the facts and whatever strings they carry: backups
   are kept in the cluster and were not asked to be kept, the prefix is one accepted
   path segment and a slash, bucket and endpoint are the install record's, and the
   endpoint's host is a Service in the shared infrastructure namespace.
   */
  lemma RemoveIsSafe(parse: UrlParser, instance: string, f: Facts)
    requires PlanRemoval(parse, instance, f).Remove?
    ensures !f.keep && f.record.Found? && f.record.value.backups && !f.record.value.external
    ensures var p := PlanRemoval(parse, instance, f);
            && p.bucket == f.record.value.bucket && p.endpoint == f.record.value.endpoint
            && p.prefix != "" && p.prefix[|p.prefix| - 1] == '/'
            && var path := p.prefix[..|p.prefix| - 1];
               OneSegment(path) && (NamedFor(instance, path) || EndsInStamp(path))
    ensures var p := PlanRemoval(parse, instance, f);
            && parse(p.endpoint).Some?
            && exists service :: LeadsTo(parse(p.endpoint).value, service)
  {
    var src := FindSource(instance, f);
    assert (src.path + "/")[..|src.path|] == src.path;
    var named := InClusterService(parse, src.endpoint);
    TakenLeadsThere(parse, src.endpoint, named.value.0, named.value.1);
  }

  /**
   Nothing a deletion plan covers belongs to another path, in particular not to one
   that merely extends this one by name (an archive a later restore writes to).
   */
  lemma RemoveSparesOtherPaths(parse: UrlParser, instance: string, f: Facts, other: string, key: string)
    requires PlanRemoval(parse, instance, f).Remove?
    requires '/' !in other && Under(other, key) && PlanRemoval(parse, instance, f).prefix != other + "/"
    ensures !(PlanRemoval(parse, instance, f).prefix <= key)
  {
    var src := FindSource(instance, f);
    if Under(src.path, key) {
      SegmentsAreDisjoint(src.path, other, key);
    }
  }

  // ---- writing the plan down and reading it back ----

  function WriteDown(instance: string, p: Plan): File
    requires p.Remove?
  {
    Holds(Recorded(instance, p.bucket, p.prefix, p.endpoint))
  }

  /**
   What recordArchivePlan writes, readRecordedArchive reads back exactly when bucket and
   endpoint are named, and then the record plans the same removal.
   */
  lemma RecordReadsBack(parse: UrlParser, instance: string, f: Facts, g: Facts)
    requires PlanRemoval(parse, instance, f).Remove?
    requires !g.keep && g.record == f.record && g.live == Found(None)
    requires g.recorded == ReadFile(instance, WriteDown(instance, PlanRemoval(parse, instance, f)))
    ensures var p := PlanRemoval(parse, instance, f);
            && (g.recorded.Found? <==> p.bucket != "" && p.endpoint != "")
            && (g.recorded.Found? ==> PlanRemoval(parse, instance, g) == p.(fromRecorded := true))
  {
    var src := FindSource(instance, f);
    var p := PlanRemoval(parse, instance, f);
    assert p.prefix[|p.prefix| - 1] == '/';
    assert Text.TrimSuffix(p.prefix, '/') == src.path;
  }
}
