/**
 The stream (connection) path of the test multiplexer.

 Each connection record refers to two byte buffers held in a `Storage` that
 all multiplexers of one test share: its input (the virtual network buffer,
 data that has arrived but has not been read) and its output (data the
 connection wrote). Two records are entangled when each one's output buffer is
 the other's input buffer, which models a full-duplex pipe between two
 multiplexers.

 How many bytes one read may take is decided by the receive policy, whose
 semantics are not part of this model: a read is parameterised by a
 `ReadAmount` function from the configured policy and the number of available
 bytes to the number of bytes to take, never more than are available.
 */
module Stream {
  import opened Base

  type BufferId = nat

  /** Reference-counted shared buffers, addressed by id. */
  datatype Storage = Storage(buffers: map<BufferId, Bytes>, nextId: nat)
  {
    /** Every buffer in use has an id below `nextId`, so `nextId` is free. */
    ghost predicate Valid()
    {
      forall b :: b in buffers ==> b < nextId
    }
  }

  /** Makes a new, empty buffer. */
  function Allocate(st: Storage): (r: (Storage, BufferId))
    requires st.Valid()
    ensures r.1 !in st.buffers
    ensures r.0.buffers == st.buffers[r.1 := []]
    ensures r.0.Valid()
    ensures r.0.nextId > r.1
  {
    (Storage(st.buffers[st.nextId := []], st.nextId + 1), st.nextId)
  }

  /** `receive_policy::config`: an opaque policy flag and a size. */
  datatype ReceiveConfig = ReceiveConfig(flag: nat, size: nat)

  /** A value-initialised configuration. */
  const DefaultReceiveConfig := ReceiveConfig(0, 0)

  /** How many of `n` available bytes one read under a policy takes. */
  type ReadAmount = (ReceiveConfig, nat) -> nat

  ghost predicate Bounded(amount: ReadAmount)
  {
    forall c, n :: amount(c, n) <= n
  }

  /** `scribe_data` without the collaborator object. */
  datatype ScribeData = ScribeData(
    input: BufferId,          // vn_buf: the virtual network buffer
    output: BufferId,         // wr_buf: what the connection wrote
    rdBuf: Bytes,             // the bytes of the last read
    recvConf: ReceiveConfig,
    stoppedReading: bool,
    passiveMode: bool,
    ackWrites: bool)

  type Scribes = map<ConnectionHandle, ScribeData>

  /** A record over buffers `input` and `output` with default settings. */
  function FreshScribe(input: BufferId, output: BufferId): ScribeData
  {
    ScribeData(input, output, [], DefaultReceiveConfig, false, false, false)
  }

  /** One side's output storage is the other side's input storage, and vice versa. */
  predicate Entangled(a: ScribeData, b: ScribeData)
  {
    a.input == b.output && a.output == b.input && a.input != a.output
  }

  /** `hdl` has a record whose buffers exist. */
  predicate Attached(scribes: Scribes, st: Storage, hdl: ConnectionHandle)
  {
    hdl in scribes && scribes[hdl].input in st.buffers && scribes[hdl].output in st.buffers
  }

  /** A read does nothing while the connection is closed for reading or inactive. */
  predicate Halted(sd: ScribeData)
  {
    sd.stoppedReading || sd.passiveMode
  }

  /** `virtual_network_buffer(hdl)`. */
  function VirtualNetworkBuffer(scribes: Scribes, st: Storage, hdl: ConnectionHandle): Bytes
    requires Attached(scribes, st, hdl)
  {
    st.buffers[scribes[hdl].input]
  }

  /** `output_buffer(hdl)`. */
  function OutputBuffer(scribes: Scribes, st: Storage, hdl: ConnectionHandle): Bytes
    requires Attached(scribes, st, hdl)
  {
    st.buffers[scribes[hdl].output]
  }

  /** Appends to buffer `b`, touching no other buffer. */
  function AppendTo(st: Storage, b: BufferId, bytes: Bytes): (r: Storage)
    requires b in st.buffers
    ensures r.buffers.Keys == st.buffers.Keys
    ensures r.buffers[b] == st.buffers[b] + bytes
    ensures forall c :: c in st.buffers && c != b ==> r.buffers[c] == st.buffers[c]
    ensures r.nextId == st.nextId
  {
    st.(buffers := st.buffers[b := st.buffers[b] + bytes])
  }

  /** The connection writes `bytes`: they go to the end of its output buffer. */
  function WriteOutput(scribes: Scribes, st: Storage, hdl: ConnectionHandle, bytes: Bytes): (r: Storage)
    requires Attached(scribes, st, hdl)
    ensures r.buffers.Keys == st.buffers.Keys
    ensures OutputBuffer(scribes, r, hdl) == OutputBuffer(scribes, st, hdl) + bytes
    ensures forall c :: c in st.buffers && c != scribes[hdl].output ==> r.buffers[c] == st.buffers[c]
  {
    AppendTo(st, scribes[hdl].output, bytes)
  }

  /**
   Every chunk is exactly as long as the policy allows on what was still
   unread when it was taken: itself, the chunks after it and `rest`.
   */
  ghost predicate PolicySized(chunks: seq<Bytes>, rest: Bytes, conf: ReceiveConfig, amount: ReadAmount)
    decreases |chunks|
  {
    chunks != [] ==>
      && |chunks[0]| == amount(conf, |Concat(chunks)| + |rest|)
      && PolicySized(chunks[1..], rest, conf, amount)
  }

  /**
   Repeated reads from `vn` until the policy allows no more: the chunks taken,
   in order, and what is left.
   */
  function ReadChunks(vn: Bytes, conf: ReceiveConfig, amount: ReadAmount): (r: (seq<Bytes>, Bytes))
    requires Bounded(amount)
    ensures Concat(r.0) + r.1 == vn
    ensures amount(conf, |r.1|) == 0
    ensures r.0 == [] <==> amount(conf, |vn|) == 0
    ensures PolicySized(r.0, r.1, conf, amount)
    ensures forall i :: 0 <= i < |r.0| ==> r.0[i] != []
    decreases |vn|
  {
    var k := amount(conf, |vn|);
    if k == 0 then ([], vn)
    else
      var (cs, rest) := ReadChunks(vn[k..], conf, amount);
      ChunkInFront(vn, k, cs, rest);
      assert ([vn[..k]] + cs)[1..] == cs;
      ([vn[..k]] + cs, rest)
  }

  /** Putting the first `k` bytes in front of a split of the rest splits all of `vn`. */
  lemma ChunkInFront(vn: Bytes, k: nat, cs: seq<Bytes>, rest: Bytes)
    requires 0 < k <= |vn|
    requires Concat(cs) + rest == vn[k..]
    requires forall i :: 0 <= i < |cs| ==> cs[i] != []
    ensures Concat([vn[..k]] + cs) + rest == vn
    ensures forall i :: 0 <= i < |[vn[..k]] + cs| ==> ([vn[..k]] + cs)[i] != []
  {
    ConcatCons(vn[..k], cs);
    assert vn[..k] + Concat(cs) + rest == vn[..k] + (Concat(cs) + rest);
    assert vn[..k] + vn[k..] == vn;
    forall i | 0 <= i < |[vn[..k]] + cs|
      ensures ([vn[..k]] + cs)[i] != []
    {
      if i > 0 {
        assert ([vn[..k]] + cs)[i] == cs[i - 1];
      } else {
        assert |vn[..k]| == k;
      }
    }
  }

  /**
   `amount` is the policy "exactly `n` bytes": a read takes `n` bytes once at
   least `n` are available, and nothing before that.
   */
  ghost predicate Exactly(amount: ReadAmount, conf: ReceiveConfig, n: nat)
  {
    forall m: nat :: amount(conf, m) == (if m >= n then n else 0)
  }

  /** Policy-sized non-empty chunks under an "exactly `n`" policy are `n` bytes each. */
  lemma {:induction false} ExactSized(cs: seq<Bytes>, rest: Bytes, conf: ReceiveConfig, amount: ReadAmount, n: nat)
    requires 0 < n && Exactly(amount, conf, n)
    requires PolicySized(cs, rest, conf, amount)
    requires forall i :: 0 <= i < |cs| ==> cs[i] != []
    ensures forall i :: 0 <= i < |cs| ==> |cs[i]| == n
    ensures |Concat(cs)| == |cs| * n
    decreases |cs|
  {
    if cs != [] {
      var tail := cs[1..];
      assert forall i :: 0 <= i < |tail| ==> tail[i] == cs[i + 1];
      ExactSized(tail, rest, conf, amount, n);
      assert |cs[0]| == n;
      assert (|tail| + 1) * n == |tail| * n + n;
    }
  }

  /**
   Under an "exactly `n`" policy the reads cut `vn` into whole units of `n`
   bytes, and fewer than `n` bytes are left over.
   */
  lemma {:induction false} ExactChunks(vn: Bytes, conf: ReceiveConfig, amount: ReadAmount, n: nat)
    requires Bounded(amount)
    requires 0 < n && Exactly(amount, conf, n)
    ensures var (cs, rest) := ReadChunks(vn, conf, amount);
            && (forall i :: 0 <= i < |cs| ==> |cs[i]| == n)
            && |cs| * n + |rest| == |vn|
            && |rest| < n
  {
    var (cs, rest) := ReadChunks(vn, conf, amount);
    ExactSized(cs, rest, conf, amount, n);
    assert amount(conf, |rest|) == 0;
  }

  /** The outcome of a read on the stream path. */
  datatype StreamRead = StreamRead(scribes: Scribes, storage: Storage, chunks: seq<Bytes>, read: bool)

  /**
   `read_data(hdl)`: reads from the virtual network buffer until the policy no
   longer allows it. Only a prefix is consumed, chunk by chunk in order, and the
   last chunk is left in the read buffer. Returns whether anything was read.
   */
  function ReadData(scribes: Scribes, st: Storage, hdl: ConnectionHandle, amount: ReadAmount): (r: StreamRead)
    requires Bounded(amount)
    requires Attached(scribes, st, hdl)
    ensures r.read <==> r.chunks != []
    ensures Attached(r.scribes, r.storage, hdl)
    ensures r.scribes.Keys == scribes.Keys
    ensures r.scribes[hdl] == scribes[hdl].(rdBuf := r.scribes[hdl].rdBuf)
    ensures forall h :: h in scribes && h != hdl ==> r.scribes[h] == scribes[h]
    ensures Concat(r.chunks) + VirtualNetworkBuffer(r.scribes, r.storage, hdl)
            == VirtualNetworkBuffer(scribes, st, hdl)
    ensures r.storage.buffers.Keys == st.buffers.Keys && r.storage.nextId == st.nextId
    ensures forall c :: c in st.buffers && c != scribes[hdl].input ==> r.storage.buffers[c] == st.buffers[c]
    ensures Halted(scribes[hdl]) ==> r == StreamRead(scribes, st, [], false)
    ensures !Halted(scribes[hdl]) ==>
      amount(scribes[hdl].recvConf, |VirtualNetworkBuffer(r.scribes, r.storage, hdl)|) == 0
    ensures !Halted(scribes[hdl]) ==>
      (r.read <==> amount(scribes[hdl].recvConf, |VirtualNetworkBuffer(scribes, st, hdl)|) > 0)
    ensures PolicySized(r.chunks, VirtualNetworkBuffer(r.scribes, r.storage, hdl), scribes[hdl].recvConf, amount)
    ensures forall i :: 0 <= i < |r.chunks| ==> r.chunks[i] != []
    ensures r.read ==> r.scribes[hdl].rdBuf == r.chunks[|r.chunks| - 1]
    ensures !r.read ==> r.scribes == scribes && r.storage == st
  {
    var sd := scribes[hdl];
    if Halted(sd) then StreamRead(scribes, st, [], false)
    else
      var (chunks, rest) := ReadChunks(st.buffers[sd.input], sd.recvConf, amount);
      if chunks == [] then
        assert rest == st.buffers[sd.input];
        StreamRead(scribes, st, [], false)
      else
        var sd' := sd.(rdBuf := chunks[|chunks| - 1]);
        StreamRead(scribes[hdl := sd'], st.(buffers := st.buffers[sd.input := rest]), chunks, true)
  }

  /**
   `virtual_send(hdl, buf)`: `buf` arrives on the wire, at the end of the
   virtual network buffer, and `read_data(hdl)` runs.
   */
  function VirtualSend(scribes: Scribes, st: Storage, hdl: ConnectionHandle, buf: Bytes, amount: ReadAmount): (r: StreamRead)
    requires Bounded(amount)
    requires Attached(scribes, st, hdl)
    ensures Attached(r.scribes, r.storage, hdl)
    ensures Concat(r.chunks) + VirtualNetworkBuffer(r.scribes, r.storage, hdl)
            == VirtualNetworkBuffer(scribes, st, hdl) + buf
    ensures Halted(scribes[hdl]) ==>
      && r.chunks == []
      && VirtualNetworkBuffer(r.scribes, r.storage, hdl) == VirtualNetworkBuffer(scribes, st, hdl) + buf
    ensures !Halted(scribes[hdl]) ==>
      (r.read <==> amount(scribes[hdl].recvConf, |VirtualNetworkBuffer(scribes, st, hdl)| + |buf|) > 0)
    ensures PolicySized(r.chunks, VirtualNetworkBuffer(r.scribes, r.storage, hdl), scribes[hdl].recvConf, amount)
    ensures r.storage.buffers.Keys == st.buffers.Keys
    ensures forall c :: c in st.buffers && c != scribes[hdl].input ==> r.storage.buffers[c] == st.buffers[c]
    ensures r.scribes.Keys == scribes.Keys
    ensures r.scribes[hdl] == scribes[hdl].(rdBuf := r.scribes[hdl].rdBuf)
    ensures forall h :: h in scribes && h != hdl ==> r.scribes[h] == scribes[h]
    ensures r == ReadData(scribes, AppendTo(st, scribes[hdl].input, buf), hdl, amount)
  {
    ReadData(scribes, AppendTo(st, scribes[hdl].input, buf), hdl, amount)
  }

  // ---------------------------------------------------------------------------
  // Properties relating several calls
  // ---------------------------------------------------------------------------

  /**
   `read_data(hdl)` under an "exactly `n`" policy: with fewer than `n` bytes
   pending nothing is read; otherwise the reads take whole units of `n` bytes
   and fewer than `n` bytes stay pending.
   */
  lemma ExactPolicyRead(scribes: Scribes, st: Storage, hdl: ConnectionHandle, amount: ReadAmount, n: nat)
    requires Bounded(amount)
    requires Attached(scribes, st, hdl) && !Halted(scribes[hdl])
    requires 0 < n && Exactly(amount, scribes[hdl].recvConf, n)
    ensures var r := ReadData(scribes, st, hdl, amount);
            var left := VirtualNetworkBuffer(r.scribes, r.storage, hdl);
            && (r.read <==> |VirtualNetworkBuffer(scribes, st, hdl)| >= n)
            && (forall i :: 0 <= i < |r.chunks| ==> |r.chunks[i]| == n)
            && |r.chunks| * n + |left| == |VirtualNetworkBuffer(scribes, st, hdl)|
            && |left| < n
  {
    var r := ReadData(scribes, st, hdl, amount);
    var left := VirtualNetworkBuffer(r.scribes, r.storage, hdl);
    ExactSized(r.chunks, left, scribes[hdl].recvConf, amount, n);
    assert amount(scribes[hdl].recvConf, |left|) == 0;
  }

  /**
   Entanglement: what one side writes is exactly what the other side finds at
   the end of its virtual network buffer.
   */
  lemma WriteReachesPeer(a: Scribes, b: Scribes, st: Storage, ha: ConnectionHandle, hb: ConnectionHandle, bytes: Bytes)
    requires Attached(a, st, ha) && Attached(b, st, hb)
    requires Entangled(a[ha], b[hb])
    ensures VirtualNetworkBuffer(b, WriteOutput(a, st, ha, bytes), hb) == VirtualNetworkBuffer(b, st, hb) + bytes
    ensures OutputBuffer(b, WriteOutput(a, st, ha, bytes), hb) == OutputBuffer(b, st, hb)
  {
  }

  /**
   A write on one side followed by a read on the other: the peer consumes the
   bytes that were waiting followed by the written ones, in order, with nothing
   lost or duplicated, and the writer's own input is untouched.
   */
  lemma {:induction false} WriteThenPeerReads(a: Scribes, b: Scribes, st: Storage, ha: ConnectionHandle,
                                              hb: ConnectionHandle, bytes: Bytes, amount: ReadAmount)
    requires Bounded(amount)
    requires Attached(a, st, ha) && Attached(b, st, hb)
    requires Entangled(a[ha], b[hb])
    ensures var r := ReadData(b, WriteOutput(a, st, ha, bytes), hb, amount);
            && Concat(r.chunks) + VirtualNetworkBuffer(r.scribes, r.storage, hb)
               == VirtualNetworkBuffer(b, st, hb) + bytes
            && r.storage.buffers[a[ha].input] == st.buffers[a[ha].input]
  {
    WriteReachesPeer(a, b, st, ha, hb, bytes);
  }

  /**
   With a policy that takes everything available, a peer with nothing pending
   receives a non-empty write as exactly one chunk holding exactly those bytes.
   */
  lemma {:induction false} GreedyPeerReceivesWrite(a: Scribes, b: Scribes, st: Storage, ha: ConnectionHandle,
                                                   hb: ConnectionHandle, bytes: Bytes, amount: ReadAmount)
    requires Bounded(amount)
    requires forall c, n :: amount(c, n) == n
    requires Attached(a, st, ha) && Attached(b, st, hb)
    requires Entangled(a[ha], b[hb])
    requires !Halted(b[hb])
    requires VirtualNetworkBuffer(b, st, hb) == [] && bytes != []
    ensures ReadData(b, WriteOutput(a, st, ha, bytes), hb, amount).chunks == [bytes]
    ensures ReadData(b, WriteOutput(a, st, ha, bytes), hb, amount).scribes[hb].rdBuf == bytes
  {
    var st' := WriteOutput(a, st, ha, bytes);
    WriteReachesPeer(a, b, st, ha, hb, bytes);
    assert st'.buffers[b[hb].input] == bytes;
    var (cs, rest) := ReadChunks(bytes, b[hb].recvConf, amount);
    assert amount(b[hb].recvConf, |bytes|) == |bytes|;
    assert bytes[|bytes|..] == [];
    assert bytes[..|bytes|] == bytes;
    assert ReadChunks([], b[hb].recvConf, amount) == ([], []);
    assert cs == [bytes];
  }

  /** A connection closed for reading accumulates what arrives, in arrival order. */
  lemma {:induction false} StoppedReadingAccumulates(scribes: Scribes, st: Storage, hdl: ConnectionHandle,
                                                     b1: Bytes, b2: Bytes, amount: ReadAmount)
    requires Bounded(amount)
    requires Attached(scribes, st, hdl)
    requires scribes[hdl].stoppedReading
    ensures var r1 := VirtualSend(scribes, st, hdl, b1, amount);
            var r2 := VirtualSend(r1.scribes, r1.storage, hdl, b2, amount);
            && r1.chunks == [] && r2.chunks == []
            && VirtualNetworkBuffer(r2.scribes, r2.storage, hdl) == VirtualNetworkBuffer(scribes, st, hdl) + b1 + b2
  {
    var r1 := VirtualSend(scribes, st, hdl, b1, amount);
    assert r1.scribes == scribes;
  }

  /** One step of test code driving an entangled pair: `a` writes, or `b` reads. */
  datatype PipeStep = Write(bytes: Bytes) | Read

  /**
   Runs `steps` over the pair `(ha in a, hb in b)`, returning the final
   records and storage, everything written by `a` and everything read by `b`.
   */
  function RunPipe(a: Scribes, b: Scribes, st: Storage, ha: ConnectionHandle, hb: ConnectionHandle,
                   steps: seq<PipeStep>, amount: ReadAmount): (r: (Scribes, Storage, Bytes, Bytes))
    requires Bounded(amount)
    requires Attached(a, st, ha) && Attached(b, st, hb)
    requires Entangled(a[ha], b[hb])
    ensures Attached(a, r.1, ha) && Attached(r.0, r.1, hb) && Entangled(a[ha], r.0[hb])
    ensures r.1.buffers[a[ha].input] == st.buffers[a[ha].input]
    decreases |steps|
  {
    if steps == [] then (b, st, [], [])
    else match steps[0]
      case Write(bytes) =>
        var st' := WriteOutput(a, st, ha, bytes);
        var (b2, st2, written, received) := RunPipe(a, b, st', ha, hb, steps[1..], amount);
        (b2, st2, bytes + written, received)
      case Read =>
        var rd := ReadData(b, st, hb, amount);
        var (b2, st2, written, received) := RunPipe(a, rd.scribes, rd.storage, ha, hb, steps[1..], amount);
        (b2, st2, written, Concat(rd.chunks) + received)
  }

  /**
   Entanglement symmetry: however writes and reads interleave, what `b` has read
   followed by what still waits for it is what waited at the start followed by
   everything `a` wrote; no byte is lost, duplicated or reordered.
   */
  lemma {:induction false} PipePreservesBytes(a: Scribes, b: Scribes, st: Storage, ha: ConnectionHandle,
                                              hb: ConnectionHandle, steps: seq<PipeStep>, amount: ReadAmount)
    requires Bounded(amount)
    requires Attached(a, st, ha) && Attached(b, st, hb)
    requires Entangled(a[ha], b[hb])
    ensures var (b', st', written, received) := RunPipe(a, b, st, ha, hb, steps, amount);
            received + VirtualNetworkBuffer(b', st', hb) == VirtualNetworkBuffer(b, st, hb) + written
    decreases |steps|
  {
    if steps != [] {
      match steps[0]
      case Write(bytes) =>
        var st' := WriteOutput(a, st, ha, bytes);
        WriteReachesPeer(a, b, st, ha, hb, bytes);
        PipePreservesBytes(a, b, st', ha, hb, steps[1..], amount);
        var (b2, st2, written, received) := RunPipe(a, b, st', ha, hb, steps[1..], amount);
        Regroup([], VirtualNetworkBuffer(b, st', hb), VirtualNetworkBuffer(b, st, hb), bytes,
                received, VirtualNetworkBuffer(b2, st2, hb), written);
      case Read =>
        var rd := ReadData(b, st, hb, amount);
        PipePreservesBytes(a, rd.scribes, rd.storage, ha, hb, steps[1..], amount);
        var (b2, st2, written, received) := RunPipe(a, rd.scribes, rd.storage, ha, hb, steps[1..], amount);
        Regroup(Concat(rd.chunks), VirtualNetworkBuffer(rd.scribes, rd.storage, hb),
                VirtualNetworkBuffer(b, st, hb), [], received, VirtualNetworkBuffer(b2, st2, hb), written);
    }
  }

  /** One step of `PipePreservesBytes`: consumed `c`, appended `w`, then the rest of the run. */
  lemma Regroup(c: Bytes, v1: Bytes, v0: Bytes, w: Bytes, received: Bytes, v2: Bytes, written: Bytes)
    requires c + v1 == v0 + w
    requires received + v2 == v1 + written
    ensures (c + received) + v2 == v0 + (w + written)
  {
    calc {
      (c + received) + v2;
      c + (received + v2);
      c + (v1 + written);
      (c + v1) + written;
      (v0 + w) + written;
      v0 + (w + written);
    }
  }
}
