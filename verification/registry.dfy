/**
 The pending-operation registries of the test multiplexer: reservations made
 before the corresponding servant exists, connections waiting to be accepted,
 and the per-acceptor records that carry a bound port.

 The pending-connect multimap keeps its entries in insertion order, and an
 accept takes the earliest entry for its acceptor. The source stores them in an
 unordered multimap, which fixes no order among entries for the same acceptor;
 the properties below about other acceptors and about the multiset of entries
 hold whichever entry is taken.
 */
module Registry {
  import opened Base

  /** `doorman_data` without the collaborator object. */
  datatype DoormanData = DoormanData(port: Port, stoppedReading: bool, passiveMode: bool)

  /** A value-initialised record, as created on first access by handle. */
  const DefaultDoorman := DoormanData(0, false, false)

  type PendingConnects = seq<(AcceptHandle, ConnectionHandle)>

  datatype Registry = Registry(
    scribes: map<HostPort, ConnectionHandle>,        // scribes_: pending outbound connects
    doormen: map<Port, AcceptHandle>,                // doormen_: reserved acceptor ports
    doormanData: map<AcceptHandle, DoormanData>,     // doorman_data_
    localEndpoints: map<Port, DgramHandle>,          // local_endpoints_
    remoteEndpoints: map<HostPort, DgramHandle>,     // remote_endpoints_
    pendingConnects: PendingConnects,                // pending_connects_
    pendingEndpoints: map<Int64, DgramHandle>)       // pending_endpoints_

  /** The connections waiting on acceptor `src`, earliest first. */
  function PendingFor(pc: PendingConnects, src: AcceptHandle): seq<ConnectionHandle>
  {
    if pc == [] then []
    else (if pc[0].0 == src then [pc[0].1] else []) + PendingFor(pc[1..], src)
  }

  lemma {:induction false} PendingForAppend(a: PendingConnects, b: PendingConnects, src: AcceptHandle)
    ensures PendingFor(a + b, src) == PendingFor(a, src) + PendingFor(b, src)
    decreases |a|
  {
    if a == [] {
      assert a + b == b;
    } else {
      assert (a + b)[1..] == a[1..] + b;
      PendingForAppend(a[1..], b, src);
    }
  }

  // ---------------------------------------------------------------------------
  // Reservations
  // ---------------------------------------------------------------------------

  /** `provide_scribe(host, port, hdl)`: reserves an outbound target. */
  function ProvideScribe(g: Registry, host: string, port: Port, hdl: ConnectionHandle): (r: Registry)
    ensures HasPendingScribe(r, host, port)
    ensures r.scribes.Keys == g.scribes.Keys + {HostPort(host, port)}
    ensures forall k :: k in g.scribes ==> r.scribes[k] == g.scribes[k]
    ensures !HasPendingScribe(g, host, port) ==> r.scribes[HostPort(host, port)] == hdl
    ensures r == g.(scribes := r.scribes)
  {
    g.(scribes := Emplace(g.scribes, HostPort(host, port), hdl))
  }

  /** `provide_acceptor(port, hdl)`: reserves a port for a future acceptor. */
  function ProvideAcceptor(g: Registry, port: Port, hdl: AcceptHandle): (r: Registry)
    ensures port in r.doormen
    ensures r.doormen.Keys == g.doormen.Keys + {port}
    ensures forall p :: p in g.doormen ==> r.doormen[p] == g.doormen[p]
    ensures port !in g.doormen ==> r.doormen[port] == hdl
    ensures r == g.(doormen := r.doormen)
  {
    g.(doormen := Emplace(g.doormen, port, hdl))
  }

  /** `provide_dgram_servant(port, hdl)`: reserves a local datagram port. */
  function ProvideLocalDgramServant(g: Registry, port: Port, hdl: DgramHandle): (r: Registry)
    ensures port in r.localEndpoints
    ensures r.localEndpoints.Keys == g.localEndpoints.Keys + {port}
    ensures forall p :: p in g.localEndpoints ==> r.localEndpoints[p] == g.localEndpoints[p]
    ensures port !in g.localEndpoints ==> r.localEndpoints[port] == hdl
    ensures r == g.(localEndpoints := r.localEndpoints)
  {
    g.(localEndpoints := Emplace(g.localEndpoints, port, hdl))
  }

  /** `provide_dgram_servant(host, port, hdl)`: reserves a remote datagram peer. */
  function ProvideRemoteDgramServant(g: Registry, host: string, port: Port, hdl: DgramHandle): (r: Registry)
    ensures HasPendingRemoteEndpoint(r, host, port)
    ensures r.remoteEndpoints.Keys == g.remoteEndpoints.Keys + {HostPort(host, port)}
    ensures forall k :: k in g.remoteEndpoints ==> r.remoteEndpoints[k] == g.remoteEndpoints[k]
    ensures !HasPendingRemoteEndpoint(g, host, port) ==> r.remoteEndpoints[HostPort(host, port)] == hdl
    ensures r == g.(remoteEndpoints := r.remoteEndpoints)
  {
    g.(remoteEndpoints := Emplace(g.remoteEndpoints, HostPort(host, port), hdl))
  }

  /** `add_pending_endpoint(ep, hdl)`: remembers which servant a fresh endpoint id resolves to. */
  function AddPendingEndpoint(g: Registry, ep: Int64, hdl: DgramHandle): (r: Registry)
    ensures ep in r.pendingEndpoints
    ensures r.pendingEndpoints.Keys == g.pendingEndpoints.Keys + {ep}
    ensures forall e :: e in g.pendingEndpoints ==> r.pendingEndpoints[e] == g.pendingEndpoints[e]
    ensures ep !in g.pendingEndpoints ==> r.pendingEndpoints[ep] == hdl
    ensures r == g.(pendingEndpoints := r.pendingEndpoints)
  {
    g.(pendingEndpoints := Emplace(g.pendingEndpoints, ep, hdl))
  }

  /** `has_pending_scribe(host, port)`. */
  predicate HasPendingScribe(g: Registry, host: string, port: Port)
  {
    HostPort(host, port) in g.scribes
  }

  /** `has_pending_remote_endpoint(host, port)`. */
  predicate HasPendingRemoteEndpoint(g: Registry, host: string, port: Port)
  {
    HostPort(host, port) in g.remoteEndpoints
  }

  // ---------------------------------------------------------------------------
  // Acceptors and known ports
  // ---------------------------------------------------------------------------

  /** The port accessor of an acceptor record, as a setter; creates the record if needed. */
  function SetDoormanPort(g: Registry, hdl: AcceptHandle, port: Port): (r: Registry)
    ensures hdl in r.doormanData && r.doormanData[hdl].port == port
    ensures r.doormanData.Keys == g.doormanData.Keys + {hdl}
    ensures forall h :: h in g.doormanData && h != hdl ==> r.doormanData[h] == g.doormanData[h]
    ensures hdl in g.doormanData ==> r.doormanData[hdl] == g.doormanData[hdl].(port := port)
    ensures r == g.(doormanData := r.doormanData)
  {
    var d := if hdl in g.doormanData then g.doormanData[hdl] else DefaultDoorman;
    g.(doormanData := g.doormanData[hdl := d.(port := port)])
  }

  /** The ports bound by acceptor records. */
  function BoundPorts(dd: map<AcceptHandle, DoormanData>): (ps: set<Port>)
    ensures forall h :: h in dd ==> dd[h].port in ps
    ensures forall p :: p in ps ==> exists h :: h in dd && dd[h].port == p
  {
    set h | h in dd :: dd[h].port
  }

  /** `is_known_port(x)`: `x` is bound by a known acceptor or reserved for a future one. */
  function IsKnownPort(g: Registry, x: Port): (b: bool)
    ensures b <==> x in g.doormen || exists h :: h in g.doormanData && g.doormanData[h].port == x
  {
    x in g.doormen || x in BoundPorts(g.doormanData)
  }

  /** `is_known_handle(x)` for acceptors: `x` has a record or holds a port reservation. */
  function IsKnownAcceptHandle(g: Registry, x: AcceptHandle): (b: bool)
    ensures b <==> x in g.doormanData || exists p :: p in g.doormen && g.doormen[p] == x
  {
    x in g.doormanData || x in g.doormen.Values
  }

  // ---------------------------------------------------------------------------
  // Pending connections
  // ---------------------------------------------------------------------------

  /** `add_pending_connect(src, hdl)`: one more connection waits on `src`. */
  function AddPendingConnect(g: Registry, src: AcceptHandle, hdl: ConnectionHandle): (r: Registry)
    ensures PendingFor(r.pendingConnects, src) == PendingFor(g.pendingConnects, src) + [hdl]
    ensures forall a :: a != src ==> PendingFor(r.pendingConnects, a) == PendingFor(g.pendingConnects, a)
    ensures multiset(r.pendingConnects) == multiset(g.pendingConnects) + multiset{(src, hdl)}
    ensures r == g.(pendingConnects := r.pendingConnects)
  {
    var pc := g.pendingConnects + [(src, hdl)];
    PendingForAppend(g.pendingConnects, [(src, hdl)], src);
    assert [(src, hdl)][1..] == [];
    forall a | a != src
      ensures PendingFor(pc, a) == PendingFor(g.pendingConnects, a)
    {
      PendingForAppend(g.pendingConnects, [(src, hdl)], a);
    }
    g.(pendingConnects := pc)
  }

  /** Removes the earliest entry for `src`, reporting its connection. */
  function RemoveFirst(pc: PendingConnects, src: AcceptHandle): (r: (PendingConnects, Option<ConnectionHandle>))
    ensures r.1 == None <==> PendingFor(pc, src) == []
    ensures r.1 == None ==> r.0 == pc
    ensures r.1 != None ==> PendingFor(pc, src) == [r.1.value] + PendingFor(r.0, src)
    ensures r.1 != None ==> multiset(pc) == multiset(r.0) + multiset{(src, r.1.value)}
    ensures forall a :: a != src ==> PendingFor(r.0, a) == PendingFor(pc, a)
    decreases |pc|
  {
    if pc == [] then ([], None)
    else if pc[0].0 == src then
      assert pc == [pc[0]] + pc[1..];
      (pc[1..], Some(pc[0].1))
    else
      var (rest, h) := RemoveFirst(pc[1..], src);
      assert pc == [pc[0]] + pc[1..];
      assert ([pc[0]] + rest)[1..] == rest;
      ([pc[0]] + rest, h)
  }

  /**
   `accept_connection(src)`: completes one connection waiting on `src` and
   reports it; a no-op when none waits.
   */
  function AcceptConnection(g: Registry, src: AcceptHandle): (r: (Registry, Option<ConnectionHandle>))
    ensures r.1 == None <==> PendingFor(g.pendingConnects, src) == []
    ensures r.1 == None ==> r.0 == g
    ensures r.1 != None ==>
      && (src, r.1.value) in multiset(g.pendingConnects)
      && multiset(r.0.pendingConnects) == multiset(g.pendingConnects) - multiset{(src, r.1.value)}
      && PendingFor(g.pendingConnects, src) == [r.1.value] + PendingFor(r.0.pendingConnects, src)
    ensures forall a :: a != src ==> PendingFor(r.0.pendingConnects, a) == PendingFor(g.pendingConnects, a)
    ensures r.0 == g.(pendingConnects := r.0.pendingConnects)
  {
    var (rest, h) := RemoveFirst(g.pendingConnects, src);
    (g.(pendingConnects := rest), h)
  }

  /** `try_accept_connection()`: accepts the earliest pending connection of any acceptor. */
  function TryAcceptConnection(g: Registry): (r: (Registry, Option<(AcceptHandle, ConnectionHandle)>))
    ensures r.1 != None <==> g.pendingConnects != []
    ensures r.1 != None ==> && r.1.value == g.pendingConnects[0]
                            && r.0.pendingConnects == g.pendingConnects[1..]
    ensures r.1 == None ==> r.0 == g
    ensures r.0 == g.(pendingConnects := r.0.pendingConnects)
  {
    if g.pendingConnects == [] then (g, None)
    else
      var src := g.pendingConnects[0].0;
      var (g', h) := AcceptConnection(g, src);
      (g', Some((src, h.value)))
  }

  // ---------------------------------------------------------------------------
  // Properties relating several calls
  // ---------------------------------------------------------------------------

  /** `accept_connection(src)` hands out the connection at the front of `src`'s waiting line. */
  lemma {:induction false} AcceptTakesFront(g: Registry, src: AcceptHandle, h: ConnectionHandle, rest: seq<ConnectionHandle>)
    requires PendingFor(g.pendingConnects, src) == [h] + rest
    ensures AcceptConnection(g, src).1 == Some(h)
    ensures PendingFor(AcceptConnection(g, src).0.pendingConnects, src) == rest
  {
    var (g', a) := AcceptConnection(g, src);
    var left := PendingFor(g'.pendingConnects, src);
    assert [h] + rest == [a.value] + left;
    assert a.value == ([h] + rest)[0] == h;
    assert left == ([h] + rest)[1..] == rest;
  }

  /** Adding then accepting on the same acceptor hands out connections first-come first-served. */
  lemma {:induction false} AcceptAfterAdd(g: Registry, src: AcceptHandle, h1: ConnectionHandle, h2: ConnectionHandle)
    requires PendingFor(g.pendingConnects, src) == []
    ensures AcceptConnection(AddPendingConnect(AddPendingConnect(g, src, h1), src, h2), src).1 == Some(h1)
    ensures AcceptConnection(AcceptConnection(AddPendingConnect(AddPendingConnect(g, src, h1), src, h2), src).0, src).1
            == Some(h2)
  {
    var g2 := AddPendingConnect(AddPendingConnect(g, src, h1), src, h2);
    assert PendingFor(g2.pendingConnects, src) == [h1] + [h2] by {
      var g1 := AddPendingConnect(g, src, h1);
      assert PendingFor(g1.pendingConnects, src) == [h1];
    }
    AcceptTakesFront(g2, src, h1, [h2]);
    var g3 := AcceptConnection(g2, src).0;
    assert PendingFor(g3.pendingConnects, src) == [h2] + [];
    AcceptTakesFront(g3, src, h2, []);
  }

  /** A reservation through `provide_acceptor` makes exactly that port additionally known. */
  lemma KnownPortAfterProvide(g: Registry, port: Port, hdl: AcceptHandle, x: Port)
    ensures IsKnownPort(ProvideAcceptor(g, port, hdl), x) <==> x == port || IsKnownPort(g, x)
  {
  }

  /**
   Binding acceptor `hdl` to `port` makes `port` known; a port that was known only
   through the old binding of `hdl` is no longer known.
   */
  lemma {:induction false} KnownPortAfterBind(g: Registry, hdl: AcceptHandle, port: Port, x: Port)
    ensures IsKnownPort(SetDoormanPort(g, hdl, port), x)
            <==> x == port || x in g.doormen
                 || exists h :: h in g.doormanData && h != hdl && g.doormanData[h].port == x
  {
    var r := SetDoormanPort(g, hdl, port);
    if exists h :: h in g.doormanData && h != hdl && g.doormanData[h].port == x {
      var h :| h in g.doormanData && h != hdl && g.doormanData[h].port == x;
      assert r.doormanData[h].port == x;
    }
    if exists h :: h in r.doormanData && r.doormanData[h].port == x {
      var h :| h in r.doormanData && r.doormanData[h].port == x;
      assert h == hdl || (h in g.doormanData && g.doormanData[h].port == x);
    }
  }

  /**
   `provide_acceptor(port, hdl)` makes `hdl` known exactly when it wins the
   port, and every handle known before stays known.
   */
  lemma {:induction false} KnownAcceptHandleAfterProvide(g: Registry, port: Port, hdl: AcceptHandle, x: AcceptHandle)
    ensures IsKnownAcceptHandle(ProvideAcceptor(g, port, hdl), x)
            <==> IsKnownAcceptHandle(g, x) || (x == hdl && port !in g.doormen)
  {
    var r := ProvideAcceptor(g, port, hdl);
    if port !in g.doormen && x == hdl {
      assert r.doormen[port] == x;
    }
    if exists p :: p in g.doormen && g.doormen[p] == x {
      var p :| p in g.doormen && g.doormen[p] == x;
      assert r.doormen[p] == x;
    }
    if exists p :: p in r.doormen && r.doormen[p] == x {
      var p :| p in r.doormen && r.doormen[p] == x;
      assert p in g.doormen || (p == port && x == hdl);
    }
  }

  /** Binding an acceptor to a port makes it known and forgets no other handle. */
  lemma {:induction false} KnownAcceptHandleAfterBind(g: Registry, hdl: AcceptHandle, port: Port, x: AcceptHandle)
    ensures IsKnownAcceptHandle(SetDoormanPort(g, hdl, port), x) <==> IsKnownAcceptHandle(g, x) || x == hdl
  {
    var r := SetDoormanPort(g, hdl, port);
    assert r.doormen == g.doormen;
  }

  /**
   `try_accept_connection()` is `accept_connection` on the acceptor of the
   earliest pending entry: same registry afterwards, same connection.
   */
  lemma {:induction false} TryAcceptIsAccept(g: Registry)
    requires g.pendingConnects != []
    ensures var (r, p) := TryAcceptConnection(g);
            && p.Some?
            && r == AcceptConnection(g, p.value.0).0
            && AcceptConnection(g, p.value.0).1 == Some(p.value.1)
  {
  }

  /** On an idle registry, the one connection just added is what `try_accept_connection()` takes. */
  lemma {:induction false} TryAcceptAfterAdd(g: Registry, src: AcceptHandle, hdl: ConnectionHandle)
    requires g.pendingConnects == []
    ensures TryAcceptConnection(AddPendingConnect(g, src, hdl)).1 == Some((src, hdl))
    ensures TryAcceptConnection(AddPendingConnect(g, src, hdl)).0.pendingConnects == []
    ensures TryAcceptConnection(TryAcceptConnection(AddPendingConnect(g, src, hdl)).0).1 == None
  {
    var g1 := AddPendingConnect(g, src, hdl);
    assert multiset(g1.pendingConnects) == multiset{(src, hdl)};
    assert |g1.pendingConnects| == 1;
    assert g1.pendingConnects == [(src, hdl)] by {
      assert g1.pendingConnects[0] in multiset(g1.pendingConnects);
    }
  }
}
