# Test multiplexer model

A Dafny model of `caf::io::network::test_multiplexer`. This is the
deterministic, in-process stand-in for the network reactor in the C++ Actor
Framework's I/O layer. Tests drive it by hand. There are no sockets and no OS
polling, and pending work runs only when test code steps the runnable queue.

The model is a single immutable state record, `TestMultiplexer.Multiplexer`,
with pure transition functions. It has four parts, one module each:

- `RunQueue`: the FIFO list of deferred runnables (`resumables_`) and the
  inlining shortcut. The shortcut is the inline counter (`inline_runnables_`)
  plus a one-shot callback (`inline_runnable_callback_`). Runnables and
  callbacks are opaque tokens. Running one appends an event to an execution
  log, which is what test code observes.
- `Registry`: the pending-operation maps. These are reserved outbound targets
  (`scribes_`), reserved acceptor ports (`doormen_`), acceptor records
  (`doorman_data_`), local and remote datagram reservations, pending endpoint
  ids, and the pending-connect multimap.
- `Stream`: connection records (`scribe_data`). Each refers to an input buffer
  (the virtual network buffer) and an output buffer in a `Storage` that all
  multiplexers of one test share. Two connections are *entangled* when each
  one's output buffer is the other's input buffer.
- `Datagram`: datagram records (`dgram_servant_data`), whose virtual network
  buffer is a queue of `(endpoint id, bytes)` jobs.

`Base` holds the fixed-width integer types, handles and byte buffers.
`TestMultiplexer` holds the operations that span components:
`prepare_connection` cross-wires two multiplexers, and `next_endpoint_id`
generates ids.

The header `libcaf_io/caf/io/network/test_multiplexer.hpp` gives the class
declaration, its doc comments, and the inline bodies of the inlining controls
(lines 274-292). The other operations are modelled from their declarations and
doc comments. Where those leave a choice open, the model makes one fixed
choice and says so here:

- **Inlining.** `exec_later` runs a new unit at once while the inline counter
  is positive, and lowers the counter by one. The installed callback fires
  right after that unit and is then removed. The doc comments at lines 289
  and 381 describe the callback as a one-shot handler "triggered on the next
  inlined runnable".
- **Counter width.** `inline_runnables_` is a `size_t`, so
  `inline_next_runnables` adds modulo 2^64.
- **Pending-connect order.** The pending-connect multimap is an unordered
  multimap in the source. The model keeps its entries in insertion order, and
  an accept takes the earliest entry for its acceptor. The stated properties
  about other acceptors and about the multiset of entries hold whichever
  entry is taken.
- **Reservations.** `provide_*` and `add_pending_endpoint` insert only when
  the key is absent, as `emplace` does. An existing reservation is kept.
- **When reads do nothing.** A read, stream or datagram, is a no-op while the
  handle is stopped for reading or in passive mode.
- **Receive policy.** The policy is a parameter. A stream read takes a
  `ReadAmount` function from the configured policy and the available byte
  count to the number of bytes one read takes, and that number never exceeds
  what is available. `read_data` repeats single reads "until the configured
  read policy no longer allows receiving" (lines 247-249). Each read takes
  exactly what the policy allows on the bytes still pending, and none is made
  when the policy allows nothing. The "exactly n bytes" policy is worked out as
  a lemma.
- **`virtual_send(hdl, buf)`.** This appends to `hdl`'s own virtual network
  buffer and then runs `read_data(hdl)` (lines 254-256). Bytes reach the other
  end of an entangled pair through the writer's output buffer, which is the
  peer's virtual network buffer.
- **`next_endpoint_id`.** It returns the current counter value and then
  advances the counter.

## Model

| member | source | states |
|---|---|---|
| RunQueue.ExecLater | libcaf_io/caf/io/network/test_multiplexer.hpp:378-382 | with a positive inline counter the unit runs at once, the counter drops by one, and the installed callback fires after it and is uninstalled; with a zero counter the unit joins the back of the queue and nothing runs |
| RunQueue.TryExecRunnable | libcaf_io/caf/io/network/test_multiplexer.hpp:268-269 | returns true iff a runnable was queued; then exactly the front unit runs and is removed; otherwise nothing changes |
| RunQueue.FlushRunnables | libcaf_io/caf/io/network/test_multiplexer.hpp:271-272 | leaves the queue empty after running every pending unit once, in queue order; inline settings are untouched |
| RunQueue.InlineNextRunnables | libcaf_io/caf/io/network/test_multiplexer.hpp:274-277 | raises the inline counter by `num`, modulo 2^64 as `size_t` does, and changes nothing else |
| RunQueue.InlineNextRunnable | libcaf_io/caf/io/network/test_multiplexer.hpp:279-282 | is the `num == 1` case, so the counter grows by one when it does not wrap |
| RunQueue.ResetInlining | libcaf_io/caf/io/network/test_multiplexer.hpp:284-287 | sets the inline counter to zero and changes nothing else |
| RunQueue.AfterNextInlinedRunnable | libcaf_io/caf/io/network/test_multiplexer.hpp:289-292 | installs the given callback in place of any earlier one and changes nothing else |
| RunQueue.QueuedWhenNotInlining | libcaf_io/caf/io/network/test_multiplexer.hpp:360-363 | with inlining off, any number of schedules only append the units to the queue, in call order |
| RunQueue.InlinedWhileCounterLasts | libcaf_io/caf/io/network/test_multiplexer.hpp:378-382 | while the counter covers them, scheduled units run immediately in order and leave the queue untouched; the callback fires exactly once, right after the first of them, and is gone afterwards |
| RunQueue.InlinedAreExecuted | libcaf_io/caf/io/network/test_multiplexer.hpp:274-275 | units scheduled while the counter lasts appear in the execution log in scheduling order |
| RunQueue.InliningScenario | libcaf_io/caf/io/network/test_multiplexer.hpp:274-292 | after `inline_next_runnables(k)`, the first k scheduled units run at schedule time and later ones queue in order; a flush then runs those, so every unit runs exactly once and in order |
| RunQueue.FifoDrain | libcaf_io/caf/io/network/test_multiplexer.hpp:265-272 | with inlining off, flushing after a run of schedules executes the queued units and then the new ones in exactly scheduling order, and empties the queue |
| RunQueue.InlineCounterAdds | libcaf_io/caf/io/network/test_multiplexer.hpp:275-277 | without wrap-around the counter grows by exactly `num`, and two raises equal one raise by the sum |
| RunQueue.ResetInliningQueuesAll | libcaf_io/caf/io/network/test_multiplexer.hpp:284-287 | after a reset, whatever the counter was, every scheduled unit joins the queue in order and nothing runs; resetting again changes nothing |
| RunQueue.CallbackReplacedAndOneShot | libcaf_io/caf/io/network/test_multiplexer.hpp:289-292 | installing a second callback replaces the first, so only the second fires after the next inlined unit, and the unit after that fires nothing |
| Registry.ProvideScribe | libcaf_io/caf/io/network/test_multiplexer.hpp:98-99 | afterwards `has_pending_scribe(host, port)` holds; a new key maps to `hdl`; existing reservations and every other map are unchanged |
| Registry.ProvideAcceptor | libcaf_io/caf/io/network/test_multiplexer.hpp:101 | afterwards the port is reserved; a new port maps to `hdl`; existing reservations and every other map are unchanged |
| Registry.ProvideLocalDgramServant | libcaf_io/caf/io/network/test_multiplexer.hpp:103 | afterwards the local datagram port is reserved, mapping to `hdl` if it was free; nothing else changes |
| Registry.ProvideRemoteDgramServant | libcaf_io/caf/io/network/test_multiplexer.hpp:105-106 | afterwards `has_pending_remote_endpoint(host, port)` holds, mapping to `hdl` if it was free; nothing else changes |
| Registry.AddPendingEndpoint | libcaf_io/caf/io/network/test_multiplexer.hpp:206-207 | afterwards endpoint id `ep` is pending, resolving to `hdl` if it was not pending before; other ids are unchanged |
| Registry.HasPendingScribe | libcaf_io/caf/io/network/test_multiplexer.hpp:228 | true iff an outbound reservation exists for `(host, port)` |
| Registry.HasPendingRemoteEndpoint | libcaf_io/caf/io/network/test_multiplexer.hpp:230 | true iff a remote datagram reservation exists for `(host, port)` |
| Registry.SetDoormanPort | libcaf_io/caf/io/network/test_multiplexer.hpp:172 | the port of acceptor `hdl` becomes `port`, creating its record if needed; other acceptor records are unchanged |
| Registry.IsKnownPort | libcaf_io/caf/io/network/test_multiplexer.hpp:67-69 | true iff the port is bound by some acceptor record or reserved through `provide_acceptor` |
| Registry.IsKnownAcceptHandle | libcaf_io/caf/io/network/test_multiplexer.hpp:71-73 | true iff the acceptor has a record or some reserved port names it |
| Registry.AddPendingConnect | libcaf_io/caf/io/network/test_multiplexer.hpp:196-197 | adds exactly one `(src, hdl)` entry, so repeated calls on one acceptor accumulate in order; other acceptors' waiting lines are unchanged |
| Registry.AcceptConnection | libcaf_io/caf/io/network/test_multiplexer.hpp:232-233 | removes exactly one entry for `src` and reports its connection, or returns none and changes nothing iff none waits; other acceptors' entries are unchanged |
| Registry.RemoveFirst | libcaf_io/caf/io/network/test_multiplexer.hpp:209-210 | taking one entry out of the multimap removes exactly that pair from the multiset of entries |
| Registry.TryAcceptConnection | libcaf_io/caf/io/network/test_multiplexer.hpp:235-236 | accepts something iff any connection is pending, and then exactly the earliest pending pair; only the pending connects change |
| Registry.AcceptTakesFront | libcaf_io/caf/io/network/test_multiplexer.hpp:232-233 | the accepted connection is the front of `src`'s waiting line and the rest of the line stays |
| Registry.AcceptAfterAdd | libcaf_io/caf/io/network/test_multiplexer.hpp:196-197 | two connections added on an idle acceptor are accepted in the order they were added |
| Registry.KnownPortAfterProvide | libcaf_io/caf/io/network/test_multiplexer.hpp:101 | after `provide_acceptor(p, h)` exactly the previously known ports and `p` are known |
| Registry.KnownPortAfterBind | libcaf_io/caf/io/network/test_multiplexer.hpp:172 | binding acceptor `hdl` to `p` makes `p` known; a port stays known only if reserved or bound by another acceptor |
| Registry.KnownAcceptHandleAfterProvide | libcaf_io/caf/io/network/test_multiplexer.hpp:71-73 | after `provide_acceptor(p, h)` the known acceptor handles are the earlier ones plus `h` exactly when `p` was not reserved before |
| Registry.KnownAcceptHandleAfterBind | libcaf_io/caf/io/network/test_multiplexer.hpp:172 | binding acceptor `h` to a port makes `h` known and leaves every other handle as known as before |
| Registry.TryAcceptIsAccept | libcaf_io/caf/io/network/test_multiplexer.hpp:232-236 | whenever something is pending, `try_accept_connection()` has the same effect and result as `accept_connection` on the acceptor of the entry it takes |
| Registry.TryAcceptAfterAdd | libcaf_io/caf/io/network/test_multiplexer.hpp:196-197 | on an idle registry, the one connection just added is what `try_accept_connection()` takes, after which nothing is pending and a second try accepts nothing |
| Stream.Allocate | libcaf_io/caf/io/network/test_multiplexer.hpp:116 | a new shared buffer is empty and is distinct from every buffer already in use |
| Stream.VirtualNetworkBuffer | libcaf_io/caf/io/network/test_multiplexer.hpp:119-121 | the bytes that have arrived for `hdl` and are not read yet: the contents of its input buffer |
| Stream.OutputBuffer | libcaf_io/caf/io/network/test_multiplexer.hpp:131-132 | the bytes `hdl` has written: the contents of its output buffer, which is the peer's input buffer when entangled |
| Stream.WriteOutput | libcaf_io/caf/io/network/test_multiplexer.hpp:131-132 | a write appends to the connection's output buffer and leaves every other buffer unchanged |
| Stream.ReadChunks | libcaf_io/caf/io/network/test_multiplexer.hpp:247-249 | the chunks taken, joined and followed by what is left, are the original input; every chunk is non-empty and exactly as long as the policy allows on the bytes still pending when it was taken; no chunk is taken iff the policy allows nothing on the whole input; it stops exactly when the policy allows no more |
| Stream.ExactChunks | libcaf_io/caf/io/network/test_multiplexer.hpp:247-249 | under the policy "exactly n bytes", the reads cut the input into chunks of exactly n bytes each, and fewer than n bytes are left |
| Stream.ReadData | libcaf_io/caf/io/network/test_multiplexer.hpp:247-249 | when not stopped or passive, reads iff the policy allows something on the pending bytes; every read takes exactly what the policy allows on what is still pending; only a prefix is consumed, in order, and reading stops when the policy allows no more; a no-op when stopped or passive; the last chunk stays in the read buffer; other buffers and connections are unchanged |
| Stream.VirtualSend | libcaf_io/caf/io/network/test_multiplexer.hpp:254-256 | is `read_data(hdl)` run after `buf` is appended to `hdl`'s virtual network buffer: reads iff not halted and the policy allows something on old ++ `buf`, each read policy-sized; what was read followed by what is left is old ++ `buf`; when stopped the buffer is exactly old ++ `buf`; other connection records and buffers are unchanged |
| Stream.ExactPolicyRead | libcaf_io/caf/io/network/test_multiplexer.hpp:247-249 | under "exactly n bytes", `read_data(hdl)` reads iff at least n bytes are pending; then it takes whole units of n bytes and fewer than n stay pending, so fewer than n pending bytes are never read |
| Stream.WriteReachesPeer | libcaf_io/caf/io/network/test_multiplexer.hpp:316-319 | for entangled connections, bytes written by one side appear at the end of the other's virtual network buffer, and the other's output is unchanged |
| Stream.WriteThenPeerReads | libcaf_io/caf/io/network/test_multiplexer.hpp:316-319 | after one side writes, the other side's read yields its waiting bytes followed by the written ones, and the writer's input is untouched |
| Stream.GreedyPeerReceivesWrite | libcaf_io/caf/io/network/test_multiplexer.hpp:304-319 | with a policy that takes all available bytes, an idle peer receives a non-empty write as exactly one chunk equal to the written bytes |
| Stream.StoppedReadingAccumulates | libcaf_io/caf/io/network/test_multiplexer.hpp:156-158 | a connection closed for reading delivers nothing, and sends accumulate in arrival order |
| Stream.PipePreservesBytes | libcaf_io/caf/io/network/test_multiplexer.hpp:316-319 | for any interleaving of writes on one side and reads on the other, bytes read followed by bytes still waiting equal the bytes waiting at the start followed by all bytes written |
| Datagram.Arrive | libcaf_io/caf/io/network/test_multiplexer.hpp:258-259 | exactly one job `(ep, buf)` is appended to the servant's queue and no other servant changes |
| Datagram.VirtualNetworkBuffer | libcaf_io/caf/io/network/test_multiplexer.hpp:123-125 | the datagrams that have arrived for `hdl` and are not read yet, as a queue of jobs |
| Datagram.ReadData | libcaf_io/caf/io/network/test_multiplexer.hpp:251-252 | reads iff the servant is reading and its queue is non-empty; then exactly the front job moves whole into the read buffer and the rest of the queue stays in order |
| Datagram.VirtualSend | libcaf_io/caf/io/network/test_multiplexer.hpp:258-260 | is `read_data(src)` after `(ep, buf)` joins the queue: when stopped, the queue becomes old ++ [(ep, buf)] and the read buffer is kept; otherwise a read happens and the job read followed by the queue left equals old ++ [(ep, buf)]; only the queue and read buffer of `src` change, and no other servant does |
| Datagram.ReadsAreFifo | libcaf_io/caf/io/network/test_multiplexer.hpp:113-114 | k successive reads return exactly the first k queued jobs, whole and in order, and leave the rest |
| Datagram.SendsQueueWhileStopped | libcaf_io/caf/io/network/test_multiplexer.hpp:258-260 | sends to a servant closed for reading queue the jobs unchanged, with their endpoint ids, in send order |
| Datagram.SendThenResumeDelivers | libcaf_io/caf/io/network/test_multiplexer.hpp:251-260 | datagrams sent while reading was stopped are read back exactly as sent, in order, once reading resumes |
| Datagram.SendToIdleIsReadWhole | libcaf_io/caf/io/network/test_multiplexer.hpp:258-260 | a datagram sent to an idle, reading servant is read at once as exactly `(ep, buf)`, leaving the queue empty |
| TestMultiplexer.PrepareConnection | libcaf_io/caf/io/network/test_multiplexer.hpp:199-204 | equals `add_pending_connect(src, hdl)` here plus `provide_scribe(host, port, peer_hdl)` on the peer; `peer.has_pending_scribe(host, port)` holds; `hdl` and `peer_hdl` get fresh, empty, entangled buffers; existing buffers and other connections are unchanged |
| TestMultiplexer.NextEndpointId | libcaf_io/caf/io/network/test_multiplexer.hpp:108-109 | returns an id at least the current counter and strictly below the advanced counter, and changes nothing else |
| TestMultiplexer.NextEndpointIds | libcaf_io/caf/io/network/test_multiplexer.hpp:384 | k calls return k strictly increasing ids, all from the range the counter passed through |
| TestMultiplexer.EndpointIdsAreFresh | libcaf_io/caf/io/network/test_multiplexer.hpp:108-109 | ids are pairwise distinct, and no later call returns an id handed out before |
| TestMultiplexer.FreshEndpointRegisters | libcaf_io/caf/io/network/test_multiplexer.hpp:206-207 | registering an id just returned by `next_endpoint_id()` never overwrites an earlier pending endpoint: it maps the new id to `hdl`, keeps every other entry, and all pending ids stay below the counter |
| TestMultiplexer.IsKnownDgramHandle | libcaf_io/caf/io/network/test_multiplexer.hpp:75 | true iff the datagram handle has a record or some local or remote reservation names it |
| TestMultiplexer.KnownDgramAfterProvideLocal | libcaf_io/caf/io/network/test_multiplexer.hpp:103 | after `provide_dgram_servant(p, h)` the known datagram handles are the earlier ones plus `h` exactly when port `p` was not reserved before |
| TestMultiplexer.KnownDgramAfterProvideRemote | libcaf_io/caf/io/network/test_multiplexer.hpp:105-106 | after `provide_dgram_servant(host, p, h)` the known datagram handles are the earlier ones plus `h` exactly when `(host, p)` was not reserved before |
| TestMultiplexer.ClientServerRoundTrip | libcaf_io/caf/io/network/test_multiplexer.hpp:199-204 | after `prepare_connection`, the server accepts `hdl` on `src`, the client holds the reservation, and a client write reaches the server's read as exactly the bytes written |

## Left out

- Thread confinement (`tid_`), the mutex and condition variable, and the blocking `exec_runnable`: they exist for concurrency, and the model is single-threaded.
- Collaborator objects: the `ptr` and `impl_ptr` fields, the `servants` map of datagram records (its values are servant objects), `last_sender`, `make_supervisor`, `run`, `run_once` and `try_run_once`. Their code is outside this class.
- Servant factories: the `native_socket` overloads, `new_tcp_scribe`, `new_tcp_doorman`, `new_scribe(connection_handle)`, `new_doorman(accept_handle, port)`, the `new_dgram_servant*` functions, and `new_remote_udp_endpoint`/`new_local_udp_endpoint`. They build collaborator objects, and their bodies are not in the header. The records they would create are plain datatype values here.
- Error codes (refused, address unavailable, message too large, already bound) and the datagram size limit: nothing in the header states when they arise.
- `read_data()` over all connections, and `try_read_data` in both forms: their bodies are not in the header, and their doc comments (lines 238-245) say only that they try or poll reads across connections.
- Write acknowledgements (`ack_writes`): the flag is modelled, but the acknowledgement is delivered through collaborator objects.
- Runnables that reschedule themselves when executed: a runnable's code is opaque, so executing it only records it in the log.
- The datagram `output_buffer` and `input_buffer` references: the read buffer is the `rdBuf` field. The outgoing queue `wrBuf` is modelled as state only, because it is filled by collaborator writes.
- Reference accessors (`bool&`, `uint16_t&`, buffer references): these are record fields, updated with datatype update expressions. Explicit setters are given for the acceptor port and the connection write path.
- Stream.ReadData: a read stops only when the policy allows nothing more. It does not model the consumer switching itself to passive mode during delivery, because that decision is made by collaborator code.
- TestMultiplexer.PrepareConnection: does not detect a handle that is already in use. It overwrites the record, because the header does not say how that case is handled.
- TestMultiplexer.NextEndpointId: requires that the counter is below the largest `int64_t`. Signed overflow is undefined behaviour in the source.
- Stream.VirtualNetworkBuffer, Stream.OutputBuffer, Stream.WriteOutput, Stream.ReadData, Stream.VirtualSend, Datagram.VirtualNetworkBuffer, Datagram.Arrive, Datagram.ReadData, Datagram.VirtualSend: require a record for the handle, so using an unknown handle is treated as misuse and excluded. The header declares default constructors for both record kinds (lines 316-319 and 346-351), but it does not say whether these operations create a record on first use.
- Registry.AcceptConnection, Registry.TryAcceptConnection: acceptor records (`doorman_data_`), their `stopped_reading` and `passive_mode` flags, and the order in which acceptors were created play no part. The header states no such dependence for `accept_connection` (lines 232-233), and an unordered multimap fixes no listener order for `try_accept_connection` (lines 235-236), so the model takes the earliest pending entry.
- Shared datagram records: the source holds `dgram_servant_data` through `shared_ptr` (lines 38, 90-91, 358), so two handles can share one record, and two records can share job queues (lines 346-351). Here each handle owns a plain record value, and datagram records are never entangled.
- TestMultiplexer.PrepareConnection: `m` and `peer` are distinct instances. The source allows `peer` to be the same multiplexer (line 203), which this signature cannot express.
