# aesdsocket: packet reassembly, append and echo

A model of the connection handler of `aesdsocket`, a TCP server that logs
newline-terminated packets. The server accepts one client at a time and
buffers whatever the client sends. Every complete packet (the bytes through
a `'\n'`) is appended to the data file `/var/tmp/aesdsocketdata`. The whole
file is then read back and sent to the client, 1024 bytes per read. A
partial packet after the last delimiter stays in the buffer until the next
chunk arrives. It is dropped when the peer closes the connection, when
`recv()` fails, or when the buffer cannot be grown.

The project is split into five modules:

- `Framing` (`framing.dfy`) holds the bytes, the delimiter and `BUFSIZE`.
  It defines the specification of reassembly: `SplitLines` splits a byte
  stream into its complete packets and the retained tail. `Find` is
  `memchr`. `SplitFrom` is the cursor-based scan, and `Reassemble` feeds
  chunks one at a time.
- `LogStore` (`log_store.dfy`) holds the data file. `DataFile` is a class
  with an append-only `data` field. `ServeLine` and `Serve` specify what
  one packet, and then a run of packets, does to the log and which log
  contents are echoed. `Pieces` and `SendsOf` specify how an echo is cut
  into `read()`/`send()` pieces.
- `Handler` (`handler.dfy`) mirrors `handle_client` as imperative code. A
  `Connection` keeps the packet buffer as an `array<byte>` plus a length,
  grown by `Receive` (realloc, memcpy and the NUL terminator). `ServeAll`
  runs the delimiter loop with a `memchr` cursor. `ServePacket` does the
  append, `EchoLog` runs the read-back loop, and `Compact` does the memmove
  that keeps the tail. `HandleClient` runs the receive loop. Every method is
  proved against the specification functions of the first two modules.
- `Guarantees` (`guarantees.dfy`) states what a whole connection
  guarantees. The packets served do not depend on how the bytes were
  chunked. A partial packet is never logged. With no file failures the log
  grows by exactly the packets, and each is answered with the whole log.
  The log is never truncated. Nothing after the first failed `recv()` or
  `realloc()` is seen.
- `Lifecycle` (`lifecycle.dfy`) covers the server around the connections.
  It holds the listening and client handles. `ServeClient` serves one
  accepted client, then closes the handle and resets it to -1. `Run` is
  the accept loop. `Cleanup` closes whichever handles are not -1. The
  module proves that a later client's echoes contain everything earlier
  clients logged.

The environment enters as inputs:

- The results of `recv()` are a sequence of `RecvResult` values.
- The outcome of the k-th `realloc` of a connection is `allocOk(k)`.
- For the k-th packet of a connection, `io(k)` is a `LineIo`. It says
  whether the append `open()` succeeds, what `write()` returns (-1, or a
  byte count, which may be short), and whether the read-back `open()`
  succeeds.
- A `ClientSocket` records every buffer offered to `send()`.

Behaviours of the code that are easy to misread:

- Only -1 from `write()` is treated as failure. A short write appends a
  prefix of the packet, and the echo still happens. A failed write also
  does not skip the echo: the file is still reopened and sent back
  (`LogStore.ServeLineSpec`).
- The return value of `send()` is ignored. Nothing retries a short send, so
  the model records only what is offered to `send()`.
- The scan for delimiters restarts from the front of the buffer after every
  chunk, not from the previous scan position. The outcome is the same,
  because the retained tail never holds a delimiter
  (`Guarantees.PendingHasNoDelimiter`, `Framing.ChunkingInvariance`).
- After a failed append `open()`, the scan moves on to the next packet in
  the same buffer. It does not go back to `recv()`.

## Model

| member | source | states |
|---|---|---|
| Framing.Find | server/aesdsocket.c:141-143 | the index memchr finds lies in the searched range and holds the delimiter |
| Framing.FindSpec | server/aesdsocket.c:143 | the found delimiter is the first one from the cursor; none is found exactly when the rest of the buffer holds no delimiter |
| Framing.FindAt | server/aesdsocket.c:143 | a delimiter with none before it, from the cursor on, is the one memchr stops at |
| Framing.FindShift | server/aesdsocket.c:143 | searching from `start - packet` in the suffix finds the same delimiter, shifted, as searching the whole buffer |
| Framing.SplitLinesFirst | server/aesdsocket.c:143-144 | the first packet runs from the start through the first delimiter (length nl - start + 1), and the rest is split the same way |
| Framing.SplitFromSlice | server/aesdsocket.c:141-170 | the cursor scan from `start` splits exactly the bytes from `start` on |
| Framing.SplitLinesTail | server/aesdsocket.c:172-177 | the retained tail holds no delimiter; packets are found iff the buffer holds a delimiter; without one the buffer is kept unchanged |
| Framing.SplitLinesPackets | server/aesdsocket.c:143-144 | every extracted line is non-empty, ends in the delimiter and holds no other one |
| Framing.SplitLinesConcat | server/aesdsocket.c:141-177 | the packets in order, followed by the retained tail, give back the buffer as it was before the scan |
| Framing.SplitLinesUnique | server/aesdsocket.c:141-177 | any reading of the buffer as complete packets plus a delimiter-free tail is the one the scan produces |
| Framing.SplitLinesAppend | server/aesdsocket.c:128-177 | splitting a longer stream gives the packets of the first part, then those of its tail followed by the rest |
| Framing.ChunkingInvariance | server/aesdsocket.c:128-177 | feeding chunks one at a time yields the same packets and tail as splitting their concatenation at once |
| Framing.ChunkingStep | server/aesdsocket.c:128-177 | one more chunk keeps the chunk-by-chunk reassembly equal to splitting the whole stream |
| LogStore.Written | server/aesdsocket.c:153-155 | what reaches the file is a prefix of the packet: nothing on -1, min(count, length) bytes otherwise |
| LogStore.PiecesSpec | server/aesdsocket.c:159-167 | the read-back pieces join to the whole log and each holds 1 to BUFSIZE bytes |
| LogStore.ServeLineSpec | server/aesdsocket.c:147-167 | a failed open skips the packet (no append, no echo); a failed write leaves the log unchanged but the echo still happens; a full write grows the log by exactly the packet; the echo is the whole current log |
| LogStore.ServeAppend | server/aesdsocket.c:143-170 | serving two runs of packets in turn is serving them all, with outcomes indexed by packet number |
| LogStore.ServeGrowsLog | server/aesdsocket.c:147 | the log only grows (append mode, never truncated) and every echo is a snapshot between the old and the new log |
| LogStore.ServeLogIsAppends | server/aesdsocket.c:147-156 | the log after a run is the old log followed by what each packet appended, in order |
| LogStore.ServeAllSucceed | server/aesdsocket.c:147-167 | with no file failures the log grows by exactly the packets, in order, and every packet is echoed |
| LogStore.ServeEchoes | server/aesdsocket.c:147-167 | with no file failures the k-th echo is the old log followed by packets 0 through k |
| LogStore.SendsOfAppend | server/aesdsocket.c:159-165 | the sends for two runs of echoes are the sends of each, in order |
| LogStore.SendsOfConcat | server/aesdsocket.c:159-165 | the bytes offered to send() are exactly the echoed log contents, joined |
| LogStore.DataFile.constructor | server/aesdsocket.c:147 | a data file not yet created is empty; the first append open creates it (O_CREAT) |
| LogStore.DataFile.Append | server/aesdsocket.c:147-156 | a failed open changes nothing; otherwise the written prefix is appended at the end and nothing is truncated |
| LogStore.DataFile.Read | server/aesdsocket.c:163 | a read returns the next min(BUFSIZE, remaining) bytes at the offset |
| Handler.MemChr | server/aesdsocket.c:143 | the loop returns the first delimiter at or after the cursor, or none |
| Handler.ClientSocket.constructor | server/aesdsocket.c:121 | nothing has been sent on a new connection |
| Handler.ClientSocket.Send | server/aesdsocket.c:164 | the buffer is recorded as offered to send(), after everything offered before |
| Handler.Connection.constructor | server/aesdsocket.c:122-124 | a new connection has an empty buffer and has served no packet |
| Handler.Connection.Receive | server/aesdsocket.c:129-138 | after realloc and memcpy the buffer is the old bytes followed by the chunk, its length grows by the chunk's length and a NUL follows; a failed realloc frees the buffer |
| Handler.Connection.EchoLog | server/aesdsocket.c:159-167 | the read-back loop offers the whole log to send() in BUFSIZE pieces, in order |
| Handler.Connection.Compact | server/aesdsocket.c:172-177 | after the memmove the buffer holds exactly the bytes from the cursor on |
| Handler.Connection.ServePacket | server/aesdsocket.c:146-167 | the log and the sends change as ServeLine specifies for this packet's file outcomes |
| Handler.Connection.ServeAll | server/aesdsocket.c:140-170 | the delimiter loop serves exactly the packets SplitLines finds, in order, and stops with the cursor at the retained tail |
| Handler.Connection.Scan | server/aesdsocket.c:140-177 | after the scan the buffer holds exactly the SplitLines tail, and the log and sends are those of serving its packets |
| Handler.Connection.Feed | server/aesdsocket.c:128-177 | one chunk: on a failed realloc nothing is logged or sent and the buffer is gone; otherwise the packets of the old tail followed by the chunk are served and their tail is kept |
| Handler.HandleClient | server/aesdsocket.c:121-182 | the whole connection logs and sends exactly what serving the packets of the delivered chunks specifies |
| Handler.FeedStep | server/aesdsocket.c:128-177 | one more chunk extends the reassembled packets and continues serving where the earlier packets left off |
| Guarantees.PendingHasNoDelimiter | server/aesdsocket.c:172-177 | between recv() calls the buffer never holds a delimiter |
| Guarantees.LoneNewline | server/aesdsocket.c:143-144 | a lone newline is a one-byte packet and leaves nothing behind |
| Guarantees.SessionSplitsStream | server/aesdsocket.c:128-177 | a connection serves exactly the packets of all the bytes it buffered, joined |
| Guarantees.SessionIgnoresChunking | server/aesdsocket.c:128-177 | two connections delivering the same bytes, chunked differently, log and send the same |
| Guarantees.SessionWithoutDelimiter | server/aesdsocket.c:178-180 | bytes with no delimiter are never logged and nothing is sent; the partial packet is dropped |
| Guarantees.SessionEchoesEveryPacket | server/aesdsocket.c:141-167 | with no file failures the log grows by exactly the complete packets, the partial one is not logged, and packet k is answered with the old log plus packets 0 through k |
| Guarantees.SessionAppendOnly | server/aesdsocket.c:147 | after a connection the log extends the old one and every echo lies between the two |
| Guarantees.DeliveredStops | server/aesdsocket.c:128-134 | the chunks buffered end at the first recv() returning 0 or -1, or at the first failed realloc |
| Guarantees.SessionStopsAt | server/aesdsocket.c:128-134 | what the peer sends after such a recv() or realloc is never logged or answered |
| Lifecycle.Server.constructor | server/aesdsocket.c:21-22 | the client handle starts at -1 and no handle has been closed |
| Lifecycle.Server.ServeClient | server/aesdsocket.c:232-235 | an accepted client is served as HandleClient specifies, its handle is closed once and reset to -1, and the listening handle is untouched |
| Lifecycle.Server.Run | server/aesdsocket.c:208-236 | clients are served one after another against the same file; each accepted handle is closed in order; each client is offered its session's echoes; a failed accept leaves -1 |
| Lifecycle.Server.Cleanup | server/aesdsocket.c:38-46 | each handle not -1 is closed once, client first, and both end at -1 |
| Lifecycle.FdsAreAccepted | server/aesdsocket.c:212-235 | every accepted handle is among those closed, every handle closed is one accept returned, none is -1, and no more are closed than accepts returned |
| Lifecycle.LogGrows | server/aesdsocket.c:208-236 | the data file only grows across connections |
| Lifecycle.LogAfterPrefix | server/aesdsocket.c:208-236 | the log after any prefix of the clients is a prefix of the log after all of them |
| Lifecycle.LaterClientSeesEarlier | server/aesdsocket.c:208-236 | every log echoed to a client starts with everything earlier clients logged and is part of the final log |

## Left out

- Signals and the `caught_signal` flag are left out, because they are asynchronous interruption. The accept loop ends when its finite sequence of accepts runs out.
- Socket setup, `daemonize`, `inet_ntop` and the peer address are left out, because they are operating-system plumbing. `accept()` is an input.
- The syslog calls are left out, because they have no functional effect.
- `unlink` of the data file and `closelog` in `cleanup` are left out. Only the close-once and reset-to-−1 pattern of the handles is modelled.
- finder-app/writer.c is not part of this model.
- Delivery by `send()` is not modelled. The model records what is offered to `send()`, not what the peer receives, because the return value is ignored.
- Errors in the middle of reading back the file, and failures of `close()`, are left out. A read of a regular file is taken to return min(BUFSIZE, remaining) bytes.
- Chunk size: the model does not bound a chunk by BUFSIZE. Every property holds for chunks of any size.
- Handler.Connection.Scan: the scan reads a snapshot of the buffered bytes, because the code reads the buffer during the scan and never writes it. Only the memmove in `Compact` updates the array in place.
- Handler.Connection.Receive: a successful realloc always yields a fresh array. Growing in place is not distinguished, because the contents are the same either way.
- Pointer arithmetic is modelled as indices: `start - packet` is the cursor and `nl` is an index.
- Environment outcomes are indexed by packet number and realloc number within a connection. An outcome that depends on time or on other processes is not modelled.
- A data file left behind by an earlier run is not modelled separately: every property is stated for an arbitrary starting log, but nothing creates or empties the file at startup. SIGPIPE raised by `send()` to a peer that has gone away, which can end the process before `cleanup()`, is not modelled either.
