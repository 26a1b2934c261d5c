/**
 The datagram path of the test multiplexer.

 A datagram record holds a queue of jobs, each a peer endpoint id with one
 datagram's bytes. Datagrams are message-oriented: a read takes exactly one
 whole job from the front of the queue, never part of one and never two
 joined together.
 */
module Datagram {
  import opened Base

  /** `job_type`: the peer endpoint id and the bytes of one datagram. */
  datatype Job = Job(endpoint: Int64, payload: Bytes)

  /** `dgram_servant_data` without the collaborator objects and the servants map. */
  datatype DgramData = DgramData(
    vnBuf: seq<Job>,        // the virtual network buffer: datagrams not yet read
    wrBuf: seq<Job>,        // the output queue
    rdBuf: Job,             // the last datagram read
    stoppedReading: bool,
    passiveMode: bool,
    ackWrites: bool,
    port: Port,
    localPort: Port,
    datagramSize: SizeT)

  type Dgrams = map<DgramHandle, DgramData>

  /** A read does nothing while the servant is closed for reading or inactive. */
  predicate Halted(d: DgramData)
  {
    d.stoppedReading || d.passiveMode
  }

  /** `virtual_network_buffer(hdl)` for datagram servants. */
  function VirtualNetworkBuffer(dgrams: Dgrams, hdl: DgramHandle): seq<Job>
    requires hdl in dgrams
  {
    dgrams[hdl].vnBuf
  }

  /** The datagram `(ep, buf)` arrives on the wire for `src`. */
  function Arrive(dgrams: Dgrams, src: DgramHandle, ep: Int64, buf: Bytes): (r: Dgrams)
    requires src in dgrams
    ensures r.Keys == dgrams.Keys
    ensures r[src] == dgrams[src].(vnBuf := dgrams[src].vnBuf + [Job(ep, buf)])
    ensures forall h :: h in dgrams && h != src ==> r[h] == dgrams[h]
  {
    dgrams[src := dgrams[src].(vnBuf := dgrams[src].vnBuf + [Job(ep, buf)])]
  }

  /**
   `read_data(hdl)` for datagram servants: moves the front job, whole, into the
   read buffer. Returns whether a datagram was read.
   */
  function ReadData(dgrams: Dgrams, hdl: DgramHandle): (r: (Dgrams, bool))
    requires hdl in dgrams
    ensures r.1 <==> !Halted(dgrams[hdl]) && dgrams[hdl].vnBuf != []
    ensures r.0.Keys == dgrams.Keys
    ensures r.1 ==> && [r.0[hdl].rdBuf] + r.0[hdl].vnBuf == dgrams[hdl].vnBuf
                    && r.0[hdl] == dgrams[hdl].(vnBuf := r.0[hdl].vnBuf, rdBuf := r.0[hdl].rdBuf)
    ensures !r.1 ==> r.0 == dgrams
    ensures forall h :: h in dgrams && h != hdl ==> r.0[h] == dgrams[h]
  {
    var d := dgrams[hdl];
    if Halted(d) || d.vnBuf == [] then (dgrams, false)
    else
      assert d.vnBuf == [d.vnBuf[0]] + d.vnBuf[1..];
      (dgrams[hdl := d.(vnBuf := d.vnBuf[1..], rdBuf := d.vnBuf[0])], true)
  }

  /**
   `virtual_send(src, ep, buf)`: exactly one job `(ep, buf)` joins the end of
   `src`'s virtual network buffer, then `read_data(src)` runs.
   */
  function VirtualSend(dgrams: Dgrams, src: DgramHandle, ep: Int64, buf: Bytes): (r: (Dgrams, bool))
    requires src in dgrams
    ensures r.0.Keys == dgrams.Keys
    ensures Halted(dgrams[src]) ==> !r.1 && r.0[src].vnBuf == dgrams[src].vnBuf + [Job(ep, buf)]
    ensures !Halted(dgrams[src]) ==>
      && r.1
      && [r.0[src].rdBuf] + r.0[src].vnBuf == dgrams[src].vnBuf + [Job(ep, buf)]
    ensures forall h :: h in dgrams && h != src ==> r.0[h] == dgrams[h]
    ensures r.0[src] == dgrams[src].(vnBuf := r.0[src].vnBuf, rdBuf := r.0[src].rdBuf)
    ensures Halted(dgrams[src]) ==> r.0[src].rdBuf == dgrams[src].rdBuf
    ensures r == ReadData(Arrive(dgrams, src, ep, buf), src)
  {
    ReadData(Arrive(dgrams, src, ep, buf), src)
  }

  /** `k` successive calls of `read_data(hdl)`, with the datagram each one read. */
  function ReadMany(dgrams: Dgrams, hdl: DgramHandle, k: nat): (r: (Dgrams, seq<Job>))
    requires hdl in dgrams
    ensures r.0.Keys == dgrams.Keys
    ensures |r.1| <= k
    ensures forall h :: h in dgrams && h != hdl ==> r.0[h] == dgrams[h]
    decreases k
  {
    if k == 0 then (dgrams, [])
    else
      var (d1, ok) := ReadData(dgrams, hdl);
      if !ok then (d1, [])
      else
        var (d2, jobs) := ReadMany(d1, hdl, k - 1);
        (d2, [d1[hdl].rdBuf] + jobs)
  }

  /** The queued datagrams are read whole, in arrival order. */
  lemma {:induction false} ReadsAreFifo(dgrams: Dgrams, hdl: DgramHandle, k: nat)
    requires hdl in dgrams
    requires !Halted(dgrams[hdl])
    requires k <= |dgrams[hdl].vnBuf|
    ensures ReadMany(dgrams, hdl, k).1 == dgrams[hdl].vnBuf[..k]
    ensures ReadMany(dgrams, hdl, k).0[hdl].vnBuf == dgrams[hdl].vnBuf[k..]
    decreases k
  {
    if k > 0 {
      var (d1, ok) := ReadData(dgrams, hdl);
      var q := dgrams[hdl].vnBuf;
      assert d1[hdl].rdBuf == q[0] && d1[hdl].vnBuf == q[1..] by {
        assert [d1[hdl].rdBuf] + d1[hdl].vnBuf == q;
        assert ([d1[hdl].rdBuf] + d1[hdl].vnBuf)[0] == d1[hdl].rdBuf;
        assert ([d1[hdl].rdBuf] + d1[hdl].vnBuf)[1..] == d1[hdl].vnBuf;
      }
      ReadsAreFifo(d1, hdl, k - 1);
      assert q[1..][..k - 1] == q[1..k];
      assert [q[0]] + q[1..k] == q[..k];
      assert q[1..][k - 1..] == q[k..];
    }
  }

  /** Sends `(ep, buf)` for each element of `jobs`, in order. */
  function SendAll(dgrams: Dgrams, src: DgramHandle, jobs: seq<Job>): (r: Dgrams)
    requires src in dgrams
    ensures r.Keys == dgrams.Keys
    ensures forall h :: h in dgrams && h != src ==> r[h] == dgrams[h]
    decreases |jobs|
  {
    if jobs == [] then dgrams
    else SendAll(VirtualSend(dgrams, src, jobs[0].endpoint, jobs[0].payload).0, src, jobs[1..])
  }

  /**
   While `src` is closed for reading, sends queue up unchanged: every datagram
   is kept whole, with its endpoint id, in send order.
   */
  lemma {:induction false} SendsQueueWhileStopped(dgrams: Dgrams, src: DgramHandle, jobs: seq<Job>)
    requires src in dgrams
    requires Halted(dgrams[src])
    ensures SendAll(dgrams, src, jobs)[src] == dgrams[src].(vnBuf := dgrams[src].vnBuf + jobs)
    decreases |jobs|
  {
    if jobs != [] {
      var d1 := VirtualSend(dgrams, src, jobs[0].endpoint, jobs[0].payload).0;
      assert d1[src] == dgrams[src].(vnBuf := dgrams[src].vnBuf + [jobs[0]]);
      SendsQueueWhileStopped(d1, src, jobs[1..]);
      assert dgrams[src].vnBuf + [jobs[0]] + jobs[1..] == dgrams[src].vnBuf + jobs;
    }
  }

  /**
   Datagrams sent while reading was stopped are delivered whole and in send
   order, each with the endpoint id it was sent with, once reading resumes.
   */
  lemma SendThenResumeDelivers(dgrams: Dgrams, src: DgramHandle, jobs: seq<Job>)
    requires src in dgrams
    requires dgrams[src].stoppedReading && !dgrams[src].passiveMode
    requires dgrams[src].vnBuf == []
    ensures var sent := SendAll(dgrams, src, jobs);
            var resumed := sent[src := sent[src].(stoppedReading := false)];
            ReadMany(resumed, src, |jobs|).1 == jobs
  {
    SendsQueueWhileStopped(dgrams, src, jobs);
    var sent := SendAll(dgrams, src, jobs);
    var resumed := sent[src := sent[src].(stoppedReading := false)];
    assert resumed[src].vnBuf == jobs;
    ReadsAreFifo(resumed, src, |jobs|);
    assert jobs[..|jobs|] == jobs;
  }

  /** A datagram sent to an idle, reading servant is read at once, exactly as sent. */
  lemma SendToIdleIsReadWhole(dgrams: Dgrams, src: DgramHandle, ep: Int64, buf: Bytes)
    requires src in dgrams
    requires !Halted(dgrams[src]) && dgrams[src].vnBuf == []
    ensures VirtualSend(dgrams, src, ep, buf).1
    ensures VirtualSend(dgrams, src, ep, buf).0[src].rdBuf == Job(ep, buf)
    ensures VirtualSend(dgrams, src, ep, buf).0[src].vnBuf == []
  {
    var r := VirtualSend(dgrams, src, ep, buf).0;
    assert [r[src].rdBuf] + r[src].vnBuf == [Job(ep, buf)];
    assert ([r[src].rdBuf] + r[src].vnBuf)[0] == r[src].rdBuf;
  }
}
