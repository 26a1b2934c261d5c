/**
 The test multiplexer as one state record, and the operations that span its
 components: cross-wiring two multiplexers into a client/server pair, and the
 endpoint-id generator.

 Buffers of entangled connections are shared between two multiplexers, so
 they live in a `Stream.Storage` that is passed alongside the records.
 */
module TestMultiplexer {
  import opened Base
  import RunQueue
  import Registry
  import Stream
  import Datagram

  datatype Multiplexer = Multiplexer(
    scheduler: RunQueue.Scheduler,     // resumables_, inline_runnables_, inline_runnable_callback_
    registry: Registry.Registry,       // the pending maps and doorman_data_
    scribes: Stream.Scribes,           // scribe_data_
    dgrams: Datagram.Dgrams,           // dgram_data_
    servantIds: Int64)                 // servant_ids_

  /**
   `prepare_connection(src, hdl, peer, host, port, peer_hdl)`: `hdl` becomes a
   connection waiting on acceptor `src`, `peer` gets a reservation for
   `(host, port)` resolving to `peer_hdl`, and the two connections get fresh,
   empty, cross-wired buffers.
   */
  function PrepareConnection(m: Multiplexer, peer: Multiplexer, st: Stream.Storage, src: AcceptHandle,
                             hdl: ConnectionHandle, host: string, port: Port,
                             peerHdl: ConnectionHandle): (r: (Multiplexer, Multiplexer, Stream.Storage))
    requires st.Valid()
    ensures r.2.Valid()
    ensures Stream.Attached(r.0.scribes, r.2, hdl) && Stream.Attached(r.1.scribes, r.2, peerHdl)
    ensures Stream.Entangled(r.0.scribes[hdl], r.1.scribes[peerHdl])
    ensures Stream.VirtualNetworkBuffer(r.0.scribes, r.2, hdl) == []
    ensures Stream.VirtualNetworkBuffer(r.1.scribes, r.2, peerHdl) == []
    ensures !Stream.Halted(r.0.scribes[hdl]) && !Stream.Halted(r.1.scribes[peerHdl])
    ensures r.0.scribes[hdl].input !in st.buffers && r.0.scribes[hdl].output !in st.buffers
    ensures forall b :: b in st.buffers ==> b in r.2.buffers && r.2.buffers[b] == st.buffers[b]
    ensures r.0.registry == Registry.AddPendingConnect(m.registry, src, hdl)
    ensures r.1.registry == Registry.ProvideScribe(peer.registry, host, port, peerHdl)
    ensures Registry.HasPendingScribe(r.1.registry, host, port)
    ensures Registry.PendingFor(r.0.registry.pendingConnects, src)
            == Registry.PendingFor(m.registry.pendingConnects, src) + [hdl]
    ensures r.0.scribes.Keys == m.scribes.Keys + {hdl}
    ensures forall h :: h in m.scribes && h != hdl ==> r.0.scribes[h] == m.scribes[h]
    ensures r.1.scribes.Keys == peer.scribes.Keys + {peerHdl}
    ensures forall h :: h in peer.scribes && h != peerHdl ==> r.1.scribes[h] == peer.scribes[h]
    ensures r.0 == m.(registry := r.0.registry, scribes := r.0.scribes)
    ensures r.1 == peer.(registry := r.1.registry, scribes := r.1.scribes)
  {
    var (st1, input) := Stream.Allocate(st);
    var (st2, output) := Stream.Allocate(st1);
    var m' := m.(registry := Registry.AddPendingConnect(m.registry, src, hdl),
                 scribes := m.scribes[hdl := Stream.FreshScribe(input, output)]);
    var peer' := peer.(registry := Registry.ProvideScribe(peer.registry, host, port, peerHdl),
                       scribes := peer.scribes[peerHdl := Stream.FreshScribe(output, input)]);
    (m', peer', st2)
  }

  /** `next_endpoint_id()`: hands out the current counter value and advances it. */
  function NextEndpointId(m: Multiplexer): (r: (Multiplexer, Int64))
    requires m.servantIds < MaxInt64
    ensures r.0.servantIds > r.1
    ensures r.1 >= m.servantIds
    ensures r.0 == m.(servantIds := r.0.servantIds)
  {
    (m.(servantIds := m.servantIds + 1), m.servantIds)
  }

  /** `k` successive calls of `next_endpoint_id()`, with the ids they returned. */
  function NextEndpointIds(m: Multiplexer, k: nat): (r: (Multiplexer, seq<Int64>))
    requires m.servantIds + k <= MaxInt64
    ensures |r.1| == k
    ensures r.0.servantIds == m.servantIds + k
    ensures forall i :: 0 <= i < k ==> m.servantIds <= r.1[i] < r.0.servantIds
    ensures forall i, j :: 0 <= i < j < k ==> r.1[i] < r.1[j]
    decreases k
  {
    if k == 0 then (m, [])
    else
      var (m1, id) := NextEndpointId(m);
      var (m2, ids) := NextEndpointIds(m1, k - 1);
      (m2, [id] + ids)
  }

  /**
   Endpoint ids are never handed out twice: ids from one run of calls are
   pairwise distinct and differ from every id any later call returns.
   */
  lemma {:induction false} EndpointIdsAreFresh(m: Multiplexer, k: nat, l: nat)
    requires m.servantIds + k + l <= MaxInt64
    ensures var (m1, first) := NextEndpointIds(m, k);
            var (_, later) := NextEndpointIds(m1, l);
            && (forall i, j :: 0 <= i < j < k ==> first[i] != first[j])
            && (forall i, j :: 0 <= i < k && 0 <= j < l ==> first[i] != later[j])
  {
    var (m1, first) := NextEndpointIds(m, k);
    var (_, later) := NextEndpointIds(m1, l);
    assert forall j :: 0 <= j < l ==> m1.servantIds <= later[j];
  }

  /** `is_known_handle(x)` for datagram servants: a record exists or a reservation names it. */
  function IsKnownDgramHandle(m: Multiplexer, x: DgramHandle): (b: bool)
    ensures b <==> || x in m.dgrams
                   || (exists p :: p in m.registry.localEndpoints && m.registry.localEndpoints[p] == x)
                   || (exists k :: k in m.registry.remoteEndpoints && m.registry.remoteEndpoints[k] == x)
  {
    x in m.dgrams || x in m.registry.localEndpoints.Values || x in m.registry.remoteEndpoints.Values
  }

  /**
   `provide_dgram_servant(port, hdl)` makes `hdl` known exactly when it wins the
   local port, and every datagram handle known before stays known.
   */
  lemma {:induction false} KnownDgramAfterProvideLocal(m: Multiplexer, port: Port, hdl: DgramHandle, x: DgramHandle)
    ensures var m' := m.(registry := Registry.ProvideLocalDgramServant(m.registry, port, hdl));
            IsKnownDgramHandle(m', x) <==> IsKnownDgramHandle(m, x) || (x == hdl && port !in m.registry.localEndpoints)
  {
    var g := m.registry;
    var r := Registry.ProvideLocalDgramServant(g, port, hdl);
    if port !in g.localEndpoints && x == hdl {
      assert r.localEndpoints[port] == x;
    }
    if exists p :: p in g.localEndpoints && g.localEndpoints[p] == x {
      var p :| p in g.localEndpoints && g.localEndpoints[p] == x;
      assert r.localEndpoints[p] == x;
    }
    if exists p :: p in r.localEndpoints && r.localEndpoints[p] == x {
      var p :| p in r.localEndpoints && r.localEndpoints[p] == x;
      assert p in g.localEndpoints || (p == port && x == hdl);
    }
  }

  /**
   `provide_dgram_servant(host, port, hdl)` makes `hdl` known exactly when it
   wins the remote address, and every datagram handle known before stays known.
   */
  lemma {:induction false} KnownDgramAfterProvideRemote(m: Multiplexer, host: string, port: Port, hdl: DgramHandle,
                                                        x: DgramHandle)
    ensures var m' := m.(registry := Registry.ProvideRemoteDgramServant(m.registry, host, port, hdl));
            IsKnownDgramHandle(m', x)
            <==> IsKnownDgramHandle(m, x) || (x == hdl && !Registry.HasPendingRemoteEndpoint(m.registry, host, port))
  {
    var g := m.registry;
    var r := Registry.ProvideRemoteDgramServant(g, host, port, hdl);
    var key := HostPort(host, port);
    if key !in g.remoteEndpoints && x == hdl {
      assert r.remoteEndpoints[key] == x;
    }
    if exists k :: k in g.remoteEndpoints && g.remoteEndpoints[k] == x {
      var k :| k in g.remoteEndpoints && g.remoteEndpoints[k] == x;
      assert r.remoteEndpoints[k] == x;
    }
    if exists k :: k in r.remoteEndpoints && r.remoteEndpoints[k] == x {
      var k :| k in r.remoteEndpoints && r.remoteEndpoints[k] == x;
      assert k in g.remoteEndpoints || (k == key && x == hdl);
    }
  }

  /** Every pending endpoint id was handed out by `next_endpoint_id()` before. */
  ghost predicate EndpointsIssued(m: Multiplexer)
  {
    forall e :: e in m.registry.pendingEndpoints ==> e < m.servantIds
  }

  /**
   Registering a freshly generated id with `add_pending_endpoint` never clobbers
   an earlier registration: the new id resolves to `hdl`, every earlier id keeps
   its servant, and all pending ids stay below the counter.
   */
  lemma {:induction false} FreshEndpointRegisters(m: Multiplexer, hdl: DgramHandle)
    requires m.servantIds < MaxInt64
    requires EndpointsIssued(m)
    ensures var (m1, ep) := NextEndpointId(m);
            var m2 := m1.(registry := Registry.AddPendingEndpoint(m1.registry, ep, hdl));
            && ep !in m.registry.pendingEndpoints
            && m2.registry.pendingEndpoints == m.registry.pendingEndpoints[ep := hdl]
            && EndpointsIssued(m2)
  {
    var (m1, ep) := NextEndpointId(m);
    assert ep == m.servantIds;
    var m2 := m1.(registry := Registry.AddPendingEndpoint(m1.registry, ep, hdl));
    assert m2.registry.pendingEndpoints == m.registry.pendingEndpoints[ep := hdl];
  }

  /**
   A client/server pair: after `prepare_connection` the server accepts `hdl` on
   `src` (nothing else waited there), and a non-empty write by the client's
   `peer_hdl` reaches `hdl` as exactly the bytes written, when the server's read
   policy takes everything available.
   */
  lemma ClientServerRoundTrip(m: Multiplexer, peer: Multiplexer, st: Stream.Storage, src: AcceptHandle,
                              hdl: ConnectionHandle, host: string, port: Port, peerHdl: ConnectionHandle,
                              bytes: Bytes, amount: Stream.ReadAmount)
    requires st.Valid()
    requires Registry.PendingFor(m.registry.pendingConnects, src) == []
    requires Stream.Bounded(amount) && forall c, n :: amount(c, n) == n
    requires bytes != []
    ensures var (server, client, st1) := PrepareConnection(m, peer, st, src, hdl, host, port, peerHdl);
            && Registry.AcceptConnection(server.registry, src).1 == Some(hdl)
            && Registry.HasPendingScribe(client.registry, host, port)
            && Stream.ReadData(server.scribes, Stream.WriteOutput(client.scribes, st1, peerHdl, bytes), hdl, amount).chunks
               == [bytes]
  {
    var (server, client, st1) := PrepareConnection(m, peer, st, src, hdl, host, port, peerHdl);
    assert Registry.PendingFor(server.registry.pendingConnects, src) == [hdl] + [];
    Registry.AcceptTakesFront(server.registry, src, hdl, []);
    Stream.GreedyPeerReceivesWrite(client.scribes, server.scribes, st1, peerHdl, hdl, bytes, amount);
  }
}
