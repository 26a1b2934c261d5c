/**
 Shared vocabulary of the test multiplexer model: fixed-width integers of the
 C++ interface, handles, opaque execution units and byte buffers.
 */
module Base {

  datatype Option<+T> = None | Some(value: T)

  /** `size_t` is 64 bits wide and wraps around modulo 2^64. */
  const SizeTLimit: int := 0x1_0000_0000_0000_0000
  type SizeT = x: int | 0 <= x < SizeTLimit

  /** `int64_t`: signed overflow is undefined behaviour, so callers must avoid it. */
  const MinInt64: int := -0x8000_0000_0000_0000
  const MaxInt64: int := 0x7FFF_FFFF_FFFF_FFFF
  type Int64 = x: int | MinInt64 <= x <= MaxInt64

  /** `uint16_t` port numbers. */
  type Port = x: int | 0 <= x < 0x1_0000

  /** `buffer_type` is a vector of `char`; each element is one octet. */
  type Byte = bv8
  type Bytes = seq<Byte>

  /** One handle namespace per endpoint kind, each backed by an integer id. */
  datatype ConnectionHandle = ConnectionHandle(id: Int64)
  datatype AcceptHandle = AcceptHandle(id: Int64)
  datatype DgramHandle = DgramHandle(id: Int64)

  /** A `(host, port)` key of the reservation maps. */
  datatype HostPort = HostPort(host: string, port: Port)

  /** A resumable unit of work; its code belongs to the runtime and is opaque here. */
  datatype Runnable = Runnable(id: nat)

  /** A `std::function<void()>` installed by test code; opaque here. */
  datatype Callback = Callback(id: nat)

  /** The bytes of consecutive reads, joined in order. */
  function Concat(chunks: seq<Bytes>): Bytes
  {
    if chunks == [] then [] else chunks[0] + Concat(chunks[1..])
  }

  lemma ConcatCons(c: Bytes, cs: seq<Bytes>)
    ensures Concat([c] + cs) == c + Concat(cs)
  {
    assert ([c] + cs)[1..] == cs;
  }

  lemma {:induction false} ConcatAppend(a: seq<Bytes>, b: seq<Bytes>)
    ensures Concat(a + b) == Concat(a) + Concat(b)
    decreases |a|
  {
    if a == [] {
      assert a + b == b;
    } else {
      assert (a + b)[1..] == a[1..] + b;
      ConcatAppend(a[1..], b);
    }
  }

  /**
   Insert-if-absent, the behaviour of `emplace` on the reservation maps: an
   existing entry is kept, a missing one is added.
   */
  function Emplace<K, V>(m: map<K, V>, k: K, v: V): (r: map<K, V>)
    ensures k in r
    ensures r.Keys == m.Keys + {k}
    ensures forall x :: x in m ==> r[x] == m[x]
    ensures k !in m ==> r[k] == v
  {
    if k in m then m else m[k := v]
  }
}
