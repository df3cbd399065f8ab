/**
 What the broker binary does to TLS settings, as values: the client-certificate
 request on the MQTT listener, the test for "only key material moved", and the
 reload machine whose full and hot paths must agree. BrokerObjects carries the same
 machine out on shared, mutable objects.
 */
module BrokerTls {
  import opened Wrappers

  datatype ClientAuth =
    | NoClientCert
    | RequestClientCert
    | RequireAnyClientCert
    | VerifyClientCertIfGiven
    | RequireAndVerifyClientCert

  /** A CA pool; None is the nil pool, which is not the same as an empty one. */
  type Pool = Option<set<nat>>

  /** The contents of a TLS config. `rest` stands for every setting nothing here looks at. */
  datatype Tls = Tls(certificates: seq<nat>, rootCAs: Pool, clientCAs: Pool, clientAuth: ClientAuth, rest: nat)

  /** One value for each listener the chart configures TLS on. */
  datatype Trio<+T> = Trio(client: T, mqtt: T, cluster: T)

  datatype Listener = Client | Mqtt | Cluster

  const NONE := Trio(false, false, false)

  function Mark(t: Trio<bool>, on: Listener): Trio<bool>
  {
    match on
    case Client => t.(client := true)
    case Mqtt => t.(mqtt := true)
    case Cluster => t.(cluster := true)
  }

  function Of<T>(t: Trio<T>, on: Listener): T
  {
    match on
    case Client => t.client
    case Mqtt => t.mqtt
    case Cluster => t.cluster
  }

  /** What ProcessConfigFile reads from the configuration file. */
  datatype Parsed = Parsed(
    digest: string,
    tls: Trio<Option<Tls>>,
    ocsp: bool,
    websocket: Option<Tls>,
    leafNode: Option<Tls>,
    gateway: Option<Tls>,
    gatewayRemotes: seq<Option<Tls>>,
    leafRemotes: seq<Option<Tls>>,
    httpsPort: int)

  /** TLS where the wrappers do not reach, or OCSP stapling. */
  predicate UnwrappedListener(o: Parsed)
  {
    || o.ocsp || o.websocket.Some? || o.leafNode.Some? || o.gateway.Some? || o.httpsPort != 0
    || (exists i :: 0 <= i < |o.gatewayRemotes| && o.gatewayRemotes[i].Some?)
    || (exists i :: 0 <= i < |o.leafRemotes| && o.leafRemotes[i].Some?)
  }

  /** The MQTT listener asks for a certificate, and names no acceptable issuer, where it asked for none. */
  function AskDevices(c: Option<Tls>): Option<Tls>
  {
    match c
    case None => None
    case Some(t) =>
      if t.clientAuth == NoClientCert then Some(t.(clientAuth := RequestClientCert, clientCAs := None)) else c
  }

  /** The TLS the server should serve from a parsed file: applyDeviceTLS of it. */
  function Wanted(o: Parsed): Trio<Option<Tls>>
  {
    o.tls.(mqtt := AskDevices(o.tls.mqtt))
  }

  /** Nothing but key material differs. */
  predicate SameButKeys(cur: Option<Tls>, next: Option<Tls>)
  {
    match (cur, next)
    case (None, None) => true
    case (Some(c), Some(n)) => c.rootCAs == n.rootCAs && c.clientCAs == n.clientCAs && c.clientAuth == n.clientAuth
    case _ => false
  }

  predicate KeysOnly(cur: Trio<Option<Tls>>, next: Trio<Option<Tls>>)
  {
    SameButKeys(cur.client, next.client) && SameButKeys(cur.mqtt, next.mqtt) && SameButKeys(cur.cluster, next.cluster)
  }

  /**
   The broker and its server as far as TLS goes.
     served    what each listener hands to the next handshake
     hooked    where that config carries a hook the server installed
     cells     the current configs behind the broker's wrappers; None when it has none
     ours      the server runs the options the broker last handed it
     liveClean the configs in those options are all wrappers, with no hook added by the server
     mqttTls   the MQTT config the probe follows
     lastLoad  the load time the broker noted at its last full reload, if it could read one
     loadTime  when the server last loaded a configuration, from anyone
   */
  datatype View = View(
    served: Trio<Option<Tls>>,
    hooked: Trio<bool>,
    cells: Option<Trio<Option<Tls>>>,
    ours: bool,
    liveClean: bool,
    digest: string,
    mqttTls: Option<Tls>,
    lastLoad: Option<nat>,
    loadTime: nat,
    hotSwaps: nat)

  /**
   One thing that happens to the broker. `known` says whether the load time can be read
   when it is compared, `knownAfter` whether it can be read again after the server
   accepted new options.
   */
  datatype Event =
    | Sighup(file: Option<Parsed>, accepted: bool, known: bool, knownAfter: bool, allowHot: bool)
    | OutsideReload(serves: Trio<Option<Tls>>)
    | HookInstalled(on: Listener)

  /** The server's load time, when it can be read. */
  function LoadTime(v: View, known: bool): Option<nat>
  {
    if known then Some(v.loadTime) else None
  }

  /** The configs the server runs are the broker's wrappers. */
  predicate Wrapped(v: View)
  {
    v.ours && v.cells.Some?
  }

  predicate HotAllowed(v: View, known: bool)
  {
    v.cells.Some? && v.lastLoad.Some? && LoadTime(v, known) == v.lastLoad && v.liveClean
  }

  /** This reload is served by swapping key material. */
  predicate TakesHotPath(v: View, o: Parsed, known: bool, allowHot: bool)
  {
    && allowHot && o.digest != "" && o.digest == v.digest
    && HotAllowed(v, known)
    && !UnwrappedListener(o)
    && KeysOnly(v.cells.value, Wanted(o))
  }

  /** The fast path: the cells move, and the listeners with them if the server runs our options. */
  function Swap(v: View, o: Parsed): View
    requires v.cells.Some?
  {
    v.(cells := Some(Wanted(o)), served := if v.ours then Wanted(o) else v.served,
       mqttTls := Wanted(o).mqtt, hotSwaps := v.hotSwaps + 1)
  }

  /** What the server does with new options: it serves them, wrapped where they can be. */
  function Handover(v: View, o: Parsed, knownAfter: bool): View
  {
    var wrapped := !UnwrappedListener(o);
    View(Wanted(o), NONE, if wrapped then Some(Wanted(o)) else None, true, wrapped || NoTls(Wanted(o)),
         o.digest, Wanted(o).mqtt, if knownAfter then Some(v.loadTime + 1) else None, v.loadTime + 1, v.hotSwaps)
  }

  predicate NoTls(t: Trio<Option<Tls>>)
  {
    t == Trio(None, None, None)
  }

  /** The reload, and whether it succeeded. */
  function Reload(v: View, file: Option<Parsed>, accepted: bool, known: bool, knownAfter: bool, allowHot: bool): (View, bool)
  {
    match file
    case None => (v, false)
    case Some(o) =>
      if TakesHotPath(v, o, known, allowHot) then (Swap(v, o), true)
      else if accepted then (Handover(v, o, knownAfter), true)
      else (v, false)
  }

  function After(v: View, e: Event): View
  {
    match e
    case Sighup(file, accepted, known, knownAfter, allowHot) =>
      Reload(v, file, accepted, known, knownAfter, allowHot).0
    case OutsideReload(serves) => v.(served := serves, hooked := NONE, ours := false, loadTime := v.loadTime + 1)
    case HookInstalled(on) =>
      // A wrapper hands out what its cell holds, so a hook set on the wrapper is bypassed.
      v.(liveClean := v.liveClean && !(v.ours && Of(v.served, on).Some?),
         hooked := if Of(v.served, on).Some? && !Wrapped(v) then Mark(v.hooked, on) else v.hooked)
  }

  /** The view right after start: a server created from the parsed options and the broker put around it. */
  function Started(o: Parsed, loadTime: nat, known: bool): View
  {
    var wrapped := !UnwrappedListener(o);
    View(Wanted(o), NONE, if wrapped then Some(Wanted(o)) else None, true, wrapped || NoTls(Wanted(o)),
         o.digest, Wanted(o).mqtt, if known then Some(loadTime) else None, loadTime, 0)
  }

  /** The views passed through. */
  function Trace(v: View, events: seq<Event>): (t: seq<View>)
    ensures |t| == |events| + 1 && t[0] == v
    decreases |events|
  {
    if events == [] then [v] else [v] + Trace(After(v, events[0]), events[1..])
  }

  // ---- what holds at every moment ----

  /** The cells are what is served while the server runs our options, and a foreign load is visible in its time. */
  ghost predicate Good(v: View)
  {
    && (v.ours ==> v.mqttTls == v.served.mqtt && (v.cells.Some? ==> v.cells.value == v.served))
    && (Wrapped(v) ==> v.hooked == NONE)
    && (v.lastLoad.Some? ==> v.lastLoad.value <= v.loadTime)
    && (!v.ours && v.lastLoad.Some? ==> v.lastLoad.value < v.loadTime)
  }

  lemma GoodAfter(v: View, e: Event)
    requires Good(v)
    ensures Good(After(v, e))
  {
  }

  /** The broker is good in every view of every run. */
  lemma {:induction false} GoodAlways(v: View, events: seq<Event>, i: nat)
    requires Good(v) && i <= |events|
    ensures Good(Trace(v, events)[i])
    decreases |events|
  {
    if i > 0 {
      GoodAfter(v, events[0]);
      GoodAlways(After(v, events[0]), events[1..], i - 1);
    }
  }

  lemma {:induction false} TraceStep(v: View, events: seq<Event>, i: nat)
    requires i < |events|
    ensures Trace(v, events)[i + 1] == After(Trace(v, events)[i], events[i])
    decreases |events|
  {
    if i > 0 {
      TraceStep(After(v, events[0]), events[1..], i - 1);
    }
  }

  /**
   The fast path refines the full one. A reload that succeeds, either way, leaves
   every listener handing out exactly the TLS the file asks for; one that fails
   leaves everything as it was; and a swap serves what handing the server the same
   options would have served.
   */
  lemma HotRefinesFull(v: View, file: Option<Parsed>, accepted: bool, known: bool, knownAfter: bool, allowHot: bool)
    requires Good(v)
    ensures var (v', ok) := Reload(v, file, accepted, known, knownAfter, allowHot);
            && (ok ==> && file.Some? && v'.served == Wanted(file.value) && v'.mqttTls == Wanted(file.value).mqtt
                       && v'.hooked == NONE)
            && (!ok ==> v' == v)
            && (v'.hotSwaps != v.hotSwaps ==>
                  var full := Reload(v, file, true, known, knownAfter, false).0;
                  v'.served == full.served && v'.hooked == full.hooked && v'.mqttTls == full.mqttTls)
  {
  }

  /** A reload this broker performs in step `i`, and that succeeds. */
  ghost predicate Reloads(v: View, events: seq<Event>, i: nat)
  {
    && i < |events| && events[i].Sighup?
    && Reload(Trace(v, events)[i], events[i].file, events[i].accepted, events[i].known, events[i].knownAfter,
              events[i].allowHot).1
  }

  /** In step `i` a reload succeeds although the server was handed nothing: a hot swap. */
  ghost predicate SwapsAt(v: View, events: seq<Event>, i: nat)
  {
    Reloads(v, events, i) && Trace(v, events)[i + 1].loadTime == Trace(v, events)[i].loadTime
  }

  /** In step `i` the server is handed new options and accepts them. */
  ghost predicate HandsOverAt(v: View, events: seq<Event>, i: nat)
  {
    Reloads(v, events, i) && Trace(v, events)[i + 1].loadTime != Trace(v, events)[i].loadTime
  }

  /** Over every run, whatever outsiders and the server did before, a successful reload serves its file. */
  lemma EveryReloadServesItsFile(o: Parsed, loadTime: nat, known: bool, events: seq<Event>, i: nat)
    requires Reloads(Started(o, loadTime, known), events, i)
    ensures var t := Trace(Started(o, loadTime, known), events);
            t[i + 1].served == Wanted(events[i].file.value)
  {
    var v := Started(o, loadTime, known);
    GoodAlways(v, events, i);
    TraceStep(v, events, i);
    HotRefinesFull(Trace(v, events)[i], events[i].file, events[i].accepted, events[i].known, events[i].knownAfter,
                   events[i].allowHot);
  }

  // ---- the hot path stands down ----

  /** Something else touched the server's TLS since our last full reload. */
  ghost predicate Touched(v: View)
  {
    v.cells.None? || v.lastLoad != Some(v.loadTime) || !v.liveClean
  }

  /** A touch by somebody else: a reload from outside, or a hook on a config we handed over. */
  ghost predicate Touches(v: View, e: Event)
  {
    e.OutsideReload? || (e.HookInstalled? && v.ours && Of(v.served, e.on).Some?)
  }

  lemma TouchShows(v: View, e: Event)
    requires Good(v) && Touches(v, e)
    ensures Touched(After(v, e))
  {
  }

  lemma {:induction false} TouchedUntilFullReload(v: View, events: seq<Event>, i: nat, j: nat)
    requires i <= j <= |events| && Good(v) && Touched(Trace(v, events)[i])
    requires forall k :: i <= k < j ==> !Reloads(v, events, k)
    ensures Touched(Trace(v, events)[j])
  {
    if i < j {
      TouchedUntilFullReload(v, events, i, j - 1);
      TraceStep(v, events, j - 1);
      GoodAlways(v, events, j - 1);
      var w := Trace(v, events)[j - 1];
      assert !Reloads(v, events, j - 1);
      assert events[j - 1].OutsideReload? ==> w.lastLoad != Some(w.loadTime + 1);
    }
  }

  /** The first successful reload after step `i`, if there is one before `j`. */
  lemma {:induction false} FirstReload(v: View, events: seq<Event>, i: nat, j: nat) returns (k: nat)
    requires i <= j <= |events|
    ensures i <= k <= j
    ensures k < j ==> Reloads(v, events, k)
    ensures forall m :: i <= m < k ==> !Reloads(v, events, m)
  {
    k := i;
    while k < j && !Reloads(v, events, k)
      invariant i <= k <= j
      invariant forall m :: i <= m < k ==> !Reloads(v, events, m)
    {
      k := k + 1;
    }
  }

  /**
   After a touch in step `i`, a hot swap in a later step `j` has one of our own full
   reloads, successful, in between. No rotation is swallowed by an orphaned wrapper.
   */
  lemma SwapOnlyAfterOwnFullReload(o: Parsed, loadTime: nat, known: bool, events: seq<Event>, i: nat, j: nat)
    returns (k: nat)
    requires i < j && SwapsAt(Started(o, loadTime, known), events, j)
    requires Touches(Trace(Started(o, loadTime, known), events)[i], events[i])
    ensures i < k < j && HandsOverAt(Started(o, loadTime, known), events, k)
  {
    var v := Started(o, loadTime, known);
    GoodAlways(v, events, i);
    TraceStep(v, events, i);
    TouchShows(Trace(v, events)[i], events[i]);
    k := FirstReload(v, events, i + 1, j);
    TouchedUntilFullReload(v, events, i + 1, k);
    TraceStep(v, events, j);
    if k < j {
      TraceStep(v, events, k);
    }
    assert Touched(Trace(v, events)[k]);
  }

  // ---- the MQTT listener asks every device ----

  /** A config that asks the client for a certificate. */
  ghost predicate Asks(c: Option<Tls>)
  {
    c.Some? ==> c.value.clientAuth != NoClientCert
  }

  /** Raised from "none" to "request", never lowered; everything but the request and its issuer list is kept. */
  lemma AskingOnlyRaises(c: Option<Tls>)
    ensures Asks(AskDevices(c))
    ensures c.Some? <==> AskDevices(c).Some?
    ensures c.Some? && c.value.clientAuth != NoClientCert ==> AskDevices(c) == c
    ensures c.Some? && c.value.clientAuth == NoClientCert ==>
              && AskDevices(c).value.clientAuth == RequestClientCert && AskDevices(c).value.clientCAs == None
              && AskDevices(c).value.(clientAuth := NoClientCert, clientCAs := c.value.clientCAs) == c.value
    ensures AskDevices(AskDevices(c)) == AskDevices(c)
  {
  }

  /** The file whose TLS is in force after `i` events: the last one reloaded successfully, or the one started from. */
  ghost function InForce(o: Parsed, v: View, events: seq<Event>, i: nat): Parsed
    requires i <= |events|
  {
    if i == 0 then o
    else if Reloads(v, events, i - 1) then events[i - 1].file.value
    else InForce(o, v, events, i - 1)
  }

  /**
   Over every run of our own reloads, successful or failed, the listeners serve the
   file in force: the MQTT listener always asks for a certificate, one that required
   certificates still does, and the probe follows the config being served.
   */
  lemma {:induction false} OwnReloadsKeepAsking(o: Parsed, loadTime: nat, known: bool, events: seq<Event>, i: nat)
    requires i <= |events| && forall k :: 0 <= k < i ==> !events[k].OutsideReload?
    ensures var v := Started(o, loadTime, known);
            var now := Trace(v, events)[i];
            var file := InForce(o, v, events, i);
            && now.ours && now.served == Wanted(file)
            && Asks(now.served.mqtt)
            && (file.tls.mqtt.Some? && file.tls.mqtt.value.clientAuth != NoClientCert ==>
                  now.served.mqtt == file.tls.mqtt)
            && now.mqttTls == now.served.mqtt
  {
    var v := Started(o, loadTime, known);
    if i > 0 {
      OwnReloadsKeepAsking(o, loadTime, known, events, i - 1);
      TraceStep(v, events, i - 1);
      GoodAlways(v, events, i - 1);
      StillServes(Trace(v, events)[i - 1], events[i - 1]);
    }
  }

  /** An event that is not a reload from outside leaves what is served alone, unless it is a successful reload. */
  lemma StillServes(v: View, e: Event)
    requires Good(v) && v.ours && !e.OutsideReload?
    ensures After(v, e).ours && Good(After(v, e))
    ensures e.HookInstalled? ==> After(v, e).served == v.served
    ensures e.Sighup? ==>
              var ok := Reload(v, e.file, e.accepted, e.known, e.knownAfter, e.allowHot).1;
              After(v, e).served == if ok then Wanted(e.file.value) else v.served
  {
    GoodAfter(v, e);
    if e.Sighup? {
      HotRefinesFull(v, e.file, e.accepted, e.known, e.knownAfter, e.allowHot);
    }
  }

  // ---- what others do ----

  /** A reload from outside serves its own configs at once, moves the load time, and tells the broker nothing. */
  lemma OutsideReloadShows(v: View, serves: Trio<Option<Tls>>)
    ensures var v' := After(v, OutsideReload(serves));
            && v'.served == serves && !v'.ours && v'.loadTime == v.loadTime + 1
            && (forall on :: !Of(v'.hooked, on))
            && v'.cells == v.cells && v'.liveClean == v.liveClean && v'.digest == v.digest
            && v'.mqttTls == v.mqttTls && v'.lastLoad == v.lastLoad && v'.hotSwaps == v.hotSwaps
  {
  }

  /**
   A hook reaches the handshakes of its listener when that has TLS on a plain config, and
   is bypassed on one of the broker's wrappers; either way nothing else changes but that
   the broker can see its own configs touched.
   */
  lemma HookShows(v: View, on: Listener, other: Listener)
    ensures var v' := After(v, HookInstalled(on));
            && v' == v.(hooked := v'.hooked, liveClean := v'.liveClean)
            && (Of(v'.hooked, on) <==> Of(v.hooked, on) || (Of(v.served, on).Some? && !(v.ours && v.cells.Some?)))
            && (other != on ==> Of(v'.hooked, other) == Of(v.hooked, other))
            && (v'.liveClean <==> v.liveClean && !(v.ours && Of(v.served, on).Some?))
  {
  }

  // ---- exactly which reloads are hot ----

  /** applyDeviceTLS, listener by listener: the file's own TLS, but the MQTT listener asks. */
  lemma WantedExactly(o: Parsed)
    ensures Wanted(o).client == o.tls.client && Wanted(o).cluster == o.tls.cluster
    ensures Wanted(o).mqtt.None? <==> o.tls.mqtt.None?
    ensures o.tls.mqtt.Some? ==>
              var was, now := o.tls.mqtt.value, Wanted(o).mqtt.value;
              if was.clientAuth == NoClientCert
              then now == was.(clientAuth := RequestClientCert, clientCAs := None)
              else now == was
  {
  }

  /** TLS only where the wrappers reach, and no OCSP stapling. */
  ghost predicate Coverable(o: Parsed)
  {
    && !o.ocsp && o.websocket == None && o.leafNode == None && o.gateway == None && o.httpsPort == 0
    && (forall i :: 0 <= i < |o.gatewayRemotes| ==> o.gatewayRemotes[i] == None)
    && (forall i :: 0 <= i < |o.leafRemotes| ==> o.leafRemotes[i] == None)
  }

  /** Both have TLS or neither has, and then from the same authorities and asking alike. */
  ghost predicate SameAuthorities(cur: Option<Tls>, next: Option<Tls>)
  {
    && (cur.Some? <==> next.Some?)
    && (cur.Some? ==>
          && cur.value.rootCAs == next.value.rootCAs && cur.value.clientCAs == next.value.clientCAs
          && cur.value.clientAuth == next.value.clientAuth)
  }

  /**
   What has happened since the server was last handed options by us: the file they came
   from, whether the load time could be read then, and whether since then somebody else
   had the server reload, or it put a hook on a listener with TLS.
   */
  datatype Standing = Standing(file: Parsed, known: bool, reloadedOutside: bool, hookedSince: bool)

  ghost function Since(o: Parsed, known: bool, v: View, events: seq<Event>, i: nat): Standing
    requires i <= |events|
  {
    if i == 0 then Standing(o, known, false, false)
    else
      var e, before := events[i - 1], Since(o, known, v, events, i - 1);
      if HandsOverAt(v, events, i - 1) then Standing(e.file.value, e.knownAfter, false, false)
      else if e.OutsideReload? then before.(reloadedOutside := true)
      else if e.HookInstalled? && Of(Trace(v, events)[i - 1].served, e.on).Some? then before.(hookedSince := true)
      else before
  }

  /** How the view stands to what has happened since. */
  ghost predicate Stands(w: View, s: Standing)
  {
    && Good(w) && w.digest == s.file.digest
    && (w.cells.Some? <==> Coverable(s.file))
    && (w.lastLoad == Some(w.loadTime) <==> s.known && !s.reloadedOutside)
    && (!s.reloadedOutside ==> w.ours)
    && (Coverable(s.file) && !s.reloadedOutside ==> (w.liveClean <==> !s.hookedSince))
  }

  lemma CoverableExactly(o: Parsed)
    ensures Coverable(o) <==> !UnwrappedListener(o)
  {
  }

  lemma StandsAtStart(o: Parsed, loadTime: nat, known: bool)
    ensures Stands(Started(o, loadTime, known), Standing(o, known, false, false))
  {
    CoverableExactly(o);
  }

  lemma StandsAfterReload(w: View, e: Event, s: Standing)
    requires e.Sighup? && Stands(w, s)
    ensures var w' := After(w, e);
            if w'.loadTime != w.loadTime then Stands(w', Standing(e.file.value, e.knownAfter, false, false))
            else Stands(w', s)
  {
    GoodAfter(w, e);
    if e.file.Some? {
      CoverableExactly(e.file.value);
    }
  }

  lemma StandsAfterOthers(w: View, e: Event, s: Standing)
    requires !e.Sighup? && Stands(w, s)
    ensures e.OutsideReload? ==> Stands(After(w, e), s.(reloadedOutside := true))
    ensures e.HookInstalled? ==>
              Stands(After(w, e), if Of(w.served, e.on).Some? then s.(hookedSince := true) else s)
  {
    GoodAfter(w, e);
  }

  lemma {:induction false} StandsAlways(o: Parsed, loadTime: nat, known: bool, events: seq<Event>, i: nat)
    requires i <= |events|
    ensures var v := Started(o, loadTime, known);
            Stands(Trace(v, events)[i], Since(o, known, v, events, i))
  {
    var v := Started(o, loadTime, known);
    if i == 0 {
      StandsAtStart(o, loadTime, known);
    } else {
      StandsAlways(o, loadTime, known, events, i - 1);
      TraceStep(v, events, i - 1);
      var w, e, s := Trace(v, events)[i - 1], events[i - 1], Since(o, known, v, events, i - 1);
      if e.Sighup? {
        StandsAfterReload(w, e, s);
      } else {
        StandsAfterOthers(w, e, s);
      }
    }
  }

  lemma SameAuthoritiesExactly(cur: Trio<Option<Tls>>, next: Trio<Option<Tls>>)
    ensures KeysOnly(cur, next) <==> forall on :: SameAuthorities(Of(cur, on), Of(next, on))
  {
    assert Of(cur, Client) == cur.client && Of(next, Client) == next.client;
    assert Of(cur, Mqtt) == cur.mqtt && Of(next, Mqtt) == next.mqtt;
    assert Of(cur, Cluster) == cur.cluster && Of(next, Cluster) == next.cluster;
    if KeysOnly(cur, next) {
      forall on
        ensures SameAuthorities(Of(cur, on), Of(next, on))
      {
        match on
        case Client =>
        case Mqtt =>
        case Cluster =>
      }
    } else {
      assert !(SameAuthorities(Of(cur, Client), Of(next, Client)) && SameAuthorities(Of(cur, Mqtt), Of(next, Mqtt))
               && SameAuthorities(Of(cur, Cluster), Of(next, Cluster)));
    }
  }

  /**
   Over every run, the reloads that skip the server are exactly these: the hot path is
   asked for; the file's digest is not empty and is that of the file the server was last
   handed; neither file has TLS the wrappers do not reach; every listener keeps its
   authorities and how it asks; the load time could be read when the server was handed
   that file and can be read now; and since then nobody else had it reload, and it put no
   hook on a listener. So a rotation of certificates alone is hot, and a file changed in
   any way its digest shows never is.
   */
  lemma HotExactly(o: Parsed, loadTime: nat, known: bool, events: seq<Event>, i: nat)
    requires i < |events| && events[i].Sighup? && events[i].file.Some?
    ensures var v, e := Started(o, loadTime, known), events[i];
            var s, f := Since(o, known, v, events, i), e.file.value;
            SwapsAt(v, events, i) <==>
              && e.allowHot && f.digest != "" && f.digest == s.file.digest
              && Coverable(s.file) && Coverable(f)
              && (forall on :: SameAuthorities(Of(Trace(v, events)[i].served, on), Of(Wanted(f), on)))
              && s.known && e.known && !s.reloadedOutside && !s.hookedSince
  {
    var v, e := Started(o, loadTime, known), events[i];
    var w, f := Trace(v, events)[i], e.file.value;
    StandsAlways(o, loadTime, known, events, i);
    TraceStep(v, events, i);
    CoverableExactly(f);
    SameAuthoritiesExactly(w.served, Wanted(f));
    SwapsWhenHot(w, e);
  }

  lemma SwapsWhenHot(w: View, e: Event)
    requires e.Sighup? && e.file.Some?
    ensures var r := Reload(w, e.file, e.accepted, e.known, e.knownAfter, e.allowHot);
            r.1 && r.0.loadTime == w.loadTime <==> TakesHotPath(w, e.file.value, e.known, e.allowHot)
  {
  }

  /** Every reload is one or the other, and only the swaps are counted. */
  lemma SwapsAreCounted(o: Parsed, loadTime: nat, known: bool, events: seq<Event>, i: nat)
    requires i < |events|
    ensures var v := Started(o, loadTime, known);
            var w, w' := Trace(v, events)[i], Trace(v, events)[i + 1];
            && w'.hotSwaps == w.hotSwaps + (if SwapsAt(v, events, i) then 1 else 0)
            && (HandsOverAt(v, events, i) ==> w'.loadTime == w.loadTime + 1 && w'.digest == events[i].file.value.digest)
            && (SwapsAt(v, events, i) ==> w'.digest == w.digest == events[i].file.value.digest)
  {
    var v := Started(o, loadTime, known);
    TraceStep(v, events, i);
    OneOrTheOther(Trace(v, events)[i], events[i]);
  }

  lemma OneOrTheOther(w: View, e: Event)
    ensures var w' := After(w, e);
            var ok := e.Sighup? && Reload(w, e.file, e.accepted, e.known, e.knownAfter, e.allowHot).1;
            && (ok ==> e.file.Some? && w'.digest == e.file.value.digest)
            && (ok && w'.loadTime == w.loadTime ==> w'.hotSwaps == w.hotSwaps + 1 && w'.digest == w.digest)
            && (ok && w'.loadTime != w.loadTime ==> w'.hotSwaps == w.hotSwaps && w'.loadTime == w.loadTime + 1)
            && (!ok ==> w'.hotSwaps == w.hotSwaps)
  {
  }
}
