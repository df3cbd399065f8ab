/**
 The broker on shared objects: wrappers hand out whatever their cell currently
 holds, and the options last handed to the server are shared with it, so a hook the
 server puts on one of its configs shows in the broker's copy too. Every operation
 is proved to act on what the listeners serve exactly as the value machine in
 BrokerTls does.
 */
module BrokerObjects {
  import opened Wrappers
  import opened BrokerTls

  /** One listener's TLS settings, replaceable while the server runs. */
  class Cell {
    var cur: Option<Tls>

    constructor ()
      ensures cur == None
    {
      cur := None;
    }

    /** The config to hand the server in place of `c`; `c` becomes the current one. */
    method Wrap(c: Option<Config>) returns (out: Option<Config>)
      modifies this
      ensures c.None? ==> out == None && cur == old(cur)
      ensures c.Some? ==>
                && cur == Some(c.value.tls)
                && out == Some(c.value.(forClient := this, dials := c.value.tls.certificates != []))
    {
      if c.None? {
        return None;
      }
      cur := Some(c.value.tls);
      return Some(c.value.(forClient := this, dials := |c.value.tls.certificates| > 0));
    }
  }

  /**
   A TLS config. `forClient` is the cell its GetConfigForClient reads, null when it
   has none; `dials` says that its GetClientCertificate reads that cell too; `hooked`
   that the server set GetCertificate or VerifyConnection.
   */
  datatype Config = Config(tls: Tls, forClient: Cell?, dials: bool, hooked: bool)

  function Plain(c: Option<Config>): Option<Tls>
  {
    if c.None? then None else Some(c.value.tls)
  }

  function Raw(t: Option<Tls>): Option<Config>
  {
    if t.None? then None else Some(Config(t.value, null, false, false))
  }

  /** The options value a server is given: a TLS config per listener, and the rest of the file. */
  class Options {
    var client: Option<Config>
    var mqtt: Option<Config>
    var cluster: Option<Config>
    const file: Parsed

    /** ProcessConfigFile: plain configs, with nothing hooked. */
    constructor (file: Parsed)
      ensures this.file == file
      ensures client == Raw(file.tls.client) && mqtt == Raw(file.tls.mqtt) && cluster == Raw(file.tls.cluster)
    {
      this.file := file;
      client, mqtt, cluster := Raw(file.tls.client), Raw(file.tls.mqtt), Raw(file.tls.cluster);
    }

    /** applyDeviceTLS: the MQTT listener asks every device. */
    method ApplyDeviceTls()
      requires mqtt == Raw(file.tls.mqtt)
      modifies this`mqtt
      ensures mqtt == Raw(AskDevices(file.tls.mqtt))
    {
      if mqtt.None? || mqtt.value.tls.clientAuth != NoClientCert {
        return;
      }
      var c := mqtt.value.tls;
      c := c.(clientAuth := RequestClientCert);
      c := c.(clientCAs := None);
      mqtt := Some(mqtt.value.(tls := c));
    }

    /** The server sets GetCertificate or VerifyConnection on one listener's config. */
    method SetHook(on: Listener)
      modifies this
      ensures client == if on.Client? then WithHook(old(client)) else old(client)
      ensures mqtt == if on.Mqtt? then WithHook(old(mqtt)) else old(mqtt)
      ensures cluster == if on.Cluster? then WithHook(old(cluster)) else old(cluster)
    {
      match on
      case Client => client := WithHook(client);
      case Mqtt => mqtt := WithHook(mqtt);
      case Cluster => cluster := WithHook(cluster);
    }
  }

  function WithHook(c: Option<Config>): Option<Config>
  {
    if c.None? then None else Some(c.value.(hooked := true))
  }

  method HasUnwrappedListener(o: Parsed) returns (found: bool)
    ensures found == UnwrappedListener(o)
  {
    if o.ocsp || o.websocket.Some? || o.leafNode.Some? || o.gateway.Some? || o.httpsPort != 0 {
      return true;
    }
    for i := 0 to |o.gatewayRemotes|
      invariant forall k :: 0 <= k < i ==> o.gatewayRemotes[k].None?
    {
      if o.gatewayRemotes[i].Some? {
        return true;
      }
    }
    for i := 0 to |o.leafRemotes|
      invariant forall k :: 0 <= k < i ==> o.leafRemotes[k].None?
    {
      if o.leafRemotes[i].Some? {
        return true;
      }
    }
    return false;
  }

  /** The cells of the three listeners the wrappers cover. */
  class HotTls {
    const client: Cell
    const mqtt: Cell
    const cluster: Cell

    ghost predicate Apart()
    {
      client != mqtt && client != cluster && mqtt != cluster
    }

    constructor ()
      ensures Apart() && fresh(client) && fresh(mqtt) && fresh(cluster)
      ensures client.cur == None && mqtt.cur == None && cluster.cur == None
    {
      client := new Cell();
      mqtt := new Cell();
      cluster := new Cell();
    }

    ghost function Cells(): Trio<Option<Tls>>
      reads client, mqtt, cluster
    {
      Trio(client.cur, mqtt.cur, cluster.cur)
    }

    /** Swaps every cell to `next` when nothing but key material differs; otherwise changes nothing. */
    method SwapIfKeyMaterialOnly(next: Options) returns (swapped: bool)
      requires Apart()
      modifies client, mqtt, cluster
      ensures swapped == old(!UnwrappedListener(next.file) && KeysOnly(Cells(), Contents(next)))
      ensures Cells() == if swapped then Contents(next) else old(Cells())
    {
      var elsewhere := HasUnwrappedListener(next.file);
      if elsewhere {
        return false;
      }
      var cells := [client, mqtt, cluster];
      var nexts := [Plain(next.client), Plain(next.mqtt), Plain(next.cluster)];
      for i := 0 to 3
        invariant forall k :: 0 <= k < i ==> SameButKeys(cells[k].cur, nexts[k])
      {
        var cur, n := cells[i].cur, nexts[i];
        if cur.None? != n.None? {
          assert !SameButKeys(cells[i].cur, nexts[i]);
          return false;
        }
        if cur.Some? && (cur.value.rootCAs != n.value.rootCAs || cur.value.clientCAs != n.value.clientCAs ||
                         cur.value.clientAuth != n.value.clientAuth) {
          assert !SameButKeys(cells[i].cur, nexts[i]);
          return false;
        }
      }
      assert SameButKeys(cells[0].cur, nexts[0]) && SameButKeys(cells[1].cur, nexts[1])
             && SameButKeys(cells[2].cur, nexts[2]);
      for i := 0 to 3
        invariant forall k :: 0 <= k < i ==> cells[k].cur == nexts[k]
        invariant forall k :: i <= k < 3 ==> cells[k].cur == old(cells[k].cur)
      {
        if nexts[i].Some? {
          cells[i].cur := nexts[i];
        }
      }
      assert cells[0].cur == nexts[0] && cells[1].cur == nexts[1] && cells[2].cur == nexts[2];
      return true;
    }
  }

  ghost function Contents(o: Options): Trio<Option<Tls>>
    reads o
  {
    Trio(Plain(o.client), Plain(o.mqtt), Plain(o.cluster))
  }

  /** `c` is an unhooked wrapper over `cell`, which holds the config it replaced. */
  ghost predicate Wraps(c: Option<Config>, cell: Cell, was: Option<Config>)
    reads cell
  {
    && cell.cur == Plain(was)
    && (c.None? <==> was.None?)
    && (was.Some? ==> c == Some(was.value.(forClient := cell, dials := was.value.tls.certificates != [])))
  }

  /** Puts wrappers into `opts`, or leaves it alone and returns null when the hot path could not be used with it. */
  method WrapOptions(opts: Options) returns (h: HotTls?)
    modifies opts
    ensures (h == null) == UnwrappedListener(opts.file)
    ensures h == null ==>
              opts.client == old(opts.client) && opts.mqtt == old(opts.mqtt) && opts.cluster == old(opts.cluster)
    ensures h != null ==>
              && fresh(h) && fresh(h.client) && fresh(h.mqtt) && fresh(h.cluster) && h.Apart()
              && Wraps(opts.client, h.client, old(opts.client))
              && Wraps(opts.mqtt, h.mqtt, old(opts.mqtt))
              && Wraps(opts.cluster, h.cluster, old(opts.cluster))
  {
    var elsewhere := HasUnwrappedListener(opts.file);
    if elsewhere {
      return null;
    }
    h := new HotTls();
    opts.client := h.client.Wrap(opts.client);
    opts.mqtt := h.mqtt.Wrap(opts.mqtt);
    opts.cluster := h.cluster.Wrap(opts.cluster);
  }

  /** A config that is still a wrapper, with no hook on it. */
  predicate Untouched(c: Option<Config>)
  {
    c.Some? ==> c.value.forClient != null && !c.value.hooked
  }

  predicate LiveIsOurs(live: Options)
    reads live
  {
    && Untouched(live.client) && Untouched(live.mqtt) && Untouched(live.cluster)
    && (live.mqtt.Some? ==> live.mqtt.value.tls.clientAuth != NoClientCert)
  }

  /** The listener's config reads the broker's cell, and both are there or neither is. */
  ghost predicate Wired(c: Option<Config>, cell: Cell)
    reads cell
  {
    && (c.None? <==> cell.cur.None?)
    && (c.Some? ==> c.value.forClient == cell && c.value.dials == (c.value.tls.certificates != []))
  }

  ghost predicate Unwired(o: Options)
    reads o
  {
    && (o.client.Some? ==> o.client.value.forClient == null)
    && (o.mqtt.Some? ==> o.mqtt.value.forClient == null)
    && (o.cluster.Some? ==> o.cluster.value.forClient == null)
  }

  ghost function CellOf(c: Option<Config>): set<object>
  {
    if c.Some? && c.value.forClient != null then {c.value.forClient} else {}
  }

  /** The TLS the next handshake on this config gets. */
  ghost function Served(c: Option<Config>): Option<Tls>
    reads CellOf(c)
  {
    if c.None? then None
    else if c.value.forClient != null && c.value.forClient.cur.Some? then c.value.forClient.cur
    else Some(c.value.tls)
  }

  ghost function ServedBy(o: Options): Trio<Option<Tls>>
    reads o, CellOf(o.client), CellOf(o.mqtt), CellOf(o.cluster)
  {
    Trio(Served(o.client), Served(o.mqtt), Served(o.cluster))
  }

  /** The certificate a config leads with; none when it has none. */
  function Leaf(c: Option<Tls>): seq<nat>
  {
    if c.Some? && c.value.certificates != [] then [c.value.certificates[0]] else []
  }

  /** The certificate presented on a route the server dials with this config. */
  ghost function Presented(c: Option<Config>): seq<nat>
    reads CellOf(c)
  {
    if c.Some? && c.value.forClient != null && c.value.dials then Leaf(c.value.forClient.cur) else Leaf(Plain(c))
  }

  /** The config the next handshake gets carries the server's hook: a wrapper's is bypassed. */
  ghost predicate Hooked(c: Option<Config>)
  {
    c.Some? && c.value.hooked && c.value.forClient == null
  }

  ghost function HookedBy(o: Options): Trio<bool>
    reads o
  {
    Trio(Hooked(o.client), Hooked(o.mqtt), Hooked(o.cluster))
  }

  /** The options are ready to be handed over: they serve their file, and `h` is what their wrappers read, if any. */
  ghost predicate Ready(o: Options, h: HotTls?)
    reads o, CellOf(o.client), CellOf(o.mqtt), CellOf(o.cluster), Cells(h)
  {
    && (h == null <==> UnwrappedListener(o.file))
    && ServedBy(o) == Wanted(o.file) && HookedBy(o) == NONE && Plain(o.mqtt) == Wanted(o.file).mqtt
    && (LiveIsOurs(o) <==> h != null || NoTls(Wanted(o.file)))
    && (h == null ==> Unwired(o))
    && (h != null ==>
          && h.Apart() && h.Cells() == Wanted(o.file)
          && Wired(o.client, h.client) && Wired(o.mqtt, h.mqtt) && Wired(o.cluster, h.cluster))
    && (o.mqtt.Some? ==> o.mqtt.value.tls.clientAuth != NoClientCert)
  }

  /** Options wrapped from a file serve what the file wants, and so do plain ones. */
  lemma HandedOverServes(o: Options, h: HotTls?)
    requires h == null <==> UnwrappedListener(o.file)
    requires h == null ==> Raws(o)
    requires h != null ==> h.Apart() && WrapsAll(o, h)
    ensures Ready(o, h)
  {
  }

  /** Reads a configuration file's options and has them ask every device. */
  method PrepareOptions(file: Parsed) returns (o: Options)
    ensures fresh(o) && o.file == file && Raws(o)
  {
    o := new Options(file);
    o.ApplyDeviceTls();
  }

  /** Wraps prepared options, where they can be. */
  method WrapPrepared(o: Options) returns (h: HotTls?)
    requires Raws(o)
    modifies o
    ensures Ready(o, h) && (h != null ==> fresh(h) && fresh(h.client) && fresh(h.mqtt) && fresh(h.cluster))
  {
    h := WrapOptions(o);
    HandedOverServes(o, h);
  }

  /** The server: the options it runs and when it last loaded a configuration. */
  class Server {
    var opts: Options
    var loadTime: nat

    constructor (opts: Options, loadTime: nat)
      ensures this.opts == opts && this.loadTime == loadTime
    {
      this.opts, this.loadTime := opts, loadTime;
    }

    /** The server accepts new options and runs them from now on. */
    method Load(opts: Options)
      modifies this
      ensures this.opts == opts && loadTime == old(loadTime) + 1
    {
      this.opts, loadTime := opts, loadTime + 1;
    }
  }

  class Broker {
    const server: Server
    var hot: HotTls?
    var digest: string
    var mqttTls: Option<Config>
    var live: Options
    var lastLoad: Option<nat>
    var hotSwaps: nat

    ghost predicate Valid()
      reads this, server, server.opts, live, Cells(hot)
    {
      && (hot != null ==>
            && hot.Apart()
            && Wired(live.client, hot.client) && Wired(live.mqtt, hot.mqtt) && Wired(live.cluster, hot.cluster))
      && (hot == null ==> Unwired(live))
      && (server.opts != live ==> Unwired(server.opts))
      && (live.mqtt.Some? ==> live.mqtt.value.tls.clientAuth != NoClientCert)
    }

    /** The broker as BrokerTls sees it. */
    ghost function View(): BrokerTls.View
      requires Valid()
      reads this, server, server.opts, live, Cells(hot)
    {
      var o := server.opts;
      BrokerTls.View.View(
        ServedBy(o),
        HookedBy(o),
        if hot == null then None else Some(hot.Cells()),
        o == live, LiveIsOurs(live), digest, Plain(mqttTls), lastLoad, server.loadTime, hotSwaps)
    }

    /** A server created from a parsed file, and the broker around it. */
    constructor (file: Parsed, loadTime: nat, known: bool)
      ensures Valid() && fresh(server) && fresh(server.opts) && fresh(Cells(hot))
      ensures live == server.opts && View() == Started(file, loadTime, known)
    {
      var opts := PrepareOptions(file);
      var h := WrapPrepared(opts);
      server := new Server(opts, loadTime);
      hot, digest, mqttTls, live, hotSwaps := h, file.digest, opts.mqtt, opts, 0;
      lastLoad := if known then Some(loadTime) else None;
      new;
      ViewOfReady(this);
    }

    /** The load time can be read and is still the one noted, and nobody put a hook on our configs. */
    method HotAllowed(known: bool) returns (allowed: bool)
      requires Valid()
      ensures allowed == BrokerTls.HotAllowed(View(), known)
    {
      if hot == null || lastLoad.None? {
        return false;
      }
      if !known || server.loadTime != lastLoad.value {
        return false;
      }
      return LiveIsOurs(live);
    }

    /** Moves the cells to new key material, when that is all that moved, and the listeners with them. */
    method MoveCells(newOpts: Options) returns (swapped: bool)
      requires Valid() && hot != null && newOpts != live && newOpts != server.opts
      requires Contents(newOpts) == Wanted(newOpts.file)
      modifies hot.client, hot.mqtt, hot.cluster
      ensures Valid()
      ensures swapped == old(!UnwrappedListener(newOpts.file) && KeysOnly(View().cells.value, Wanted(newOpts.file)))
      ensures var was, next := old(View()), Wanted(newOpts.file);
              View() == if swapped then was.(cells := Some(next), served := if was.ours then next else was.served)
                        else was
    {
      swapped := hot.SwapIfKeyMaterialOnly(newOpts);
    }

    /** Swaps the key material in, when that is all that moved; the probe follows. */
    method SwapKeys(newOpts: Options) returns (swapped: bool)
      requires Valid() && hot != null && newOpts != live && newOpts != server.opts
      requires Contents(newOpts) == Wanted(newOpts.file)
      modifies this`mqttTls, this`hotSwaps, hot.client, hot.mqtt, hot.cluster
      ensures Valid()
      ensures swapped == old(!UnwrappedListener(newOpts.file) && KeysOnly(View().cells.value, Wanted(newOpts.file)))
      ensures View() == if swapped then Swap(old(View()), newOpts.file) else old(View())
    {
      swapped := MoveCells(newOpts);
      if swapped {
        mqttTls := newOpts.mqtt;
        hotSwaps := hotSwaps + 1;
      }
    }

    /** The server accepts new options: it runs them from now on, and the broker follows. */
    method HandOver(newOpts: Options, h: HotTls?, knownAfter: bool)
      requires Valid()
      requires Ready(newOpts, h)
      modifies this, server
      ensures Valid() && live == newOpts && hot == h
      ensures View() == Handover(old(View()), newOpts.file, knownAfter)
    {
      server.Load(newOpts);
      hot, digest, mqttTls, live := h, newOpts.file.digest, newOpts.mqtt, newOpts;
      lastLoad := if knownAfter then Some(server.loadTime) else None;
      ViewOfReady(this);
    }

    /** The reload that skips the server, when it may. */
    method TryHot(o: Options, known: bool, allowHot: bool) returns (swapped: bool)
      requires Valid() && o != live && o != server.opts && Raws(o)
      modifies this`mqttTls, this`hotSwaps, Cells(hot)
      ensures Valid()
      ensures swapped == TakesHotPath(old(View()), o.file, known, allowHot)
      ensures View() == if swapped then Swap(old(View()), o.file) else old(View())
    {
      if !allowHot || o.file.digest == "" || o.file.digest != digest {
        return false;
      }
      var allowed := HotAllowed(known);
      if !allowed {
        return false;
      }
      swapped := SwapKeys(o);
    }

    /** The reload that hands the server the new options, wrapped so that the next rotation can be hot. */
    method FullReload(o: Options, accepted: bool, knownAfter: bool)
      requires Valid() && o != live && o != server.opts && Raws(o)
      modifies this, server, o
      ensures Valid()
      ensures View() == if accepted then Handover(old(View()), o.file, knownAfter) else old(View())
    {
      var h := WrapPrepared(o);
      if accepted {
        HandOver(o, h, knownAfter);
      }
    }

    /** A reload of a file that could be read: the fast way if it may be, the full way otherwise. */
    method ReloadFile(file: Parsed, accepted: bool, known: bool, knownAfter: bool, allowHot: bool) returns (swapped: bool)
      requires Valid()
      modifies this, server, Cells(hot)
      ensures Valid()
      ensures swapped == TakesHotPath(old(View()), file, known, allowHot)
      ensures View() == if swapped then Swap(old(View()), file)
                        else if accepted then Handover(old(View()), file, knownAfter) else old(View())
    {
      ghost var was := View();
      var newOpts := PrepareOptions(file);
      assert View() == was;
      swapped := TryHot(newOpts, known, allowHot);
      assert swapped == TakesHotPath(was, file, known, allowHot);
      assert View() == if swapped then Swap(was, file) else was;
      if !swapped {
        FullReload(newOpts, accepted, knownAfter);
      }
    }

    /**
     The SIGHUP path. `file` is what the configuration file parses to, None when
     there is none or it cannot be read; `accepted` says whether the server takes
     the new options.
     */
    method ReloadWith(file: Option<Parsed>, accepted: bool, known: bool, knownAfter: bool, allowHot: bool)
      returns (ok: bool)
      requires Valid()
      modifies this, server, Cells(hot)
      ensures Valid()
      ensures (View(), ok) == Reload(old(View()), file, accepted, known, knownAfter, allowHot)
    {
      if file.None? {
        return false;
      }
      var swapped := ReloadFile(file.value, accepted, known, knownAfter, allowHot);
      return swapped || accepted;
    }

    /** Somebody else has the server load a configuration: plain configs, no wrappers. */
    method OutsideReload(file: Parsed)
      requires Valid()
      modifies this, server
      ensures Valid()
      ensures View() == After(old(View()), Event.OutsideReload(file.tls))
    {
      ghost var was := View();
      var opts := new Options(file);
      server.Load(opts);
      assert Valid() && LiveIsOurs(live) == was.liveClean;
      ViewOfForeign(this);
    }

    /** The server sets a hook on the config it runs for one listener. */
    method InstallHook(on: Listener)
      requires Valid()
      modifies server.opts
      ensures Valid()
      ensures View() == After(old(View()), HookInstalled(on))
    {
      ghost var was := View();
      server.opts.SetHook(on);
      assert Valid();
      assert ServedBy(server.opts) == was.served;
      assert LiveIsOurs(live) == After(was, HookInstalled(on)).liveClean;
      assert HookedBy(server.opts) == After(was, HookInstalled(on)).hooked;
    }
  }

  /** What a broker serves right after its options were handed over. */
  lemma ViewOfReady(b: Broker)
    requires b.server.opts == b.live && Ready(b.live, b.hot)
    ensures b.Valid()
    ensures var o := b.live.file;
            b.View() == BrokerTls.View.View(
              Wanted(o), NONE, if UnwrappedListener(o) then None else Some(Wanted(o)), true,
              !UnwrappedListener(o) || NoTls(Wanted(o)), b.digest, Plain(b.mqttTls), b.lastLoad, b.server.loadTime,
              b.hotSwaps)
  {
  }

  /**
   On the routes it dials the server presents the certificate its cluster listener now
   serves, except exactly when that listener was last handed over without a certificate
   and a swap has brought one since.
   */
  lemma RoutesPresentTheCurrentLeaf(b: Broker)
    requires b.Valid() && b.server.opts == b.live
    ensures var c, served := b.live.cluster, b.View().served.cluster;
            Presented(c) == Leaf(served)
            <==> !(b.hot != null && c.Some? && c.value.tls.certificates == [] && served.value.certificates != [])
  {
  }

  /** And right after the server loaded plain options from somebody else. */
  lemma ViewOfForeign(b: Broker)
    requires b.Valid() && b.server.opts != b.live
    requires var o := b.server.opts;
             && o.client == Raw(o.file.tls.client) && o.mqtt == Raw(o.file.tls.mqtt)
             && o.cluster == Raw(o.file.tls.cluster)
    ensures b.View().served == b.server.opts.file.tls && b.View().hooked == NONE && !b.View().ours
  {
  }

  ghost function Cells(h: HotTls?): set<object>
  {
    if h == null then {} else {h.client as object, h.mqtt, h.cluster}
  }

  /** The options carry plain configs for the TLS wanted. */
  ghost predicate Raws(o: Options)
    reads o
  {
    var w := Wanted(o.file);
    o.client == Raw(w.client) && o.mqtt == Raw(w.mqtt) && o.cluster == Raw(w.cluster)
  }

  /** The options carry wrappers over the TLS wanted. */
  ghost predicate WrapsAll(o: Options, h: HotTls)
    reads o, h.client, h.mqtt, h.cluster
  {
    var w := Wanted(o.file);
    Wraps(o.client, h.client, Raw(w.client)) && Wraps(o.mqtt, h.mqtt, Raw(w.mqtt))
    && Wraps(o.cluster, h.cluster, Raw(w.cluster))
  }
}
