/** What one connection of the server guarantees, stated over the whole
    session: the packets served are those of the byte stream however it was
    chunked, a partial packet is never logged, every complete packet is
    appended and answered with the whole log, and the log only grows. */
module Guarantees {
  import opened Framing
  import opened LogStore
  import opened Handler

  /** Between two recv() calls the buffer never holds a delimiter: only the
      partial packet after the last one is kept. */
  lemma PendingHasNoDelimiter(chunks: seq<seq<byte>>)
    ensures Newline !in Reassemble([], chunks).1
  {
    ChunkingInvariance([], chunks);
    SplitLinesTail([] + Concat(chunks));
  }

  /** A lone delimiter is a packet of one byte. */
  lemma LoneNewline()
    ensures SplitLines([Newline]) == ([[Newline]], [])
  {
    var s: seq<byte> := [Newline];
    var none: seq<byte> := [];
    SplitLinesFirst(s, 0);
    assert s[1..] == none && s[..1] == s;
    assert Find(none, 0) == None;
    assert SplitLines(none) == ([], none);
    assert SplitLines(s) == ([s] + [], none);
    assert [s] + [] == [[Newline]];
  }

  /** A connection serves exactly the packets SplitLines finds in all the
      bytes it buffered, joined into one stream. */
  lemma SessionSplitsStream(log: seq<byte>, recvs: seq<RecvResult>, allocOk: nat -> bool, io: nat -> LineIo)
    ensures Session(log, recvs, allocOk, io)
            == Serve(log, SplitLines(Concat(Delivered(recvs, allocOk, 0))).0, io, 0)
  {
    var chunks := Delivered(recvs, allocOk, 0);
    ChunkingInvariance([], chunks);
    assert [] + Concat(chunks) == Concat(chunks);
  }

  /** Chunk boundaries do not matter: two connections that deliver the same
      bytes, however split across recv() calls, log and send the same. */
  lemma SessionIgnoresChunking(log: seq<byte>, recvs1: seq<RecvResult>, allocOk1: nat -> bool,
                               recvs2: seq<RecvResult>, allocOk2: nat -> bool, io: nat -> LineIo)
    requires Concat(Delivered(recvs1, allocOk1, 0)) == Concat(Delivered(recvs2, allocOk2, 0))
    ensures Session(log, recvs1, allocOk1, io) == Session(log, recvs2, allocOk2, io)
  {
    SessionSplitsStream(log, recvs1, allocOk1, io);
    SessionSplitsStream(log, recvs2, allocOk2, io);
  }

  /** Bytes with no delimiter are never logged and nothing is sent: the
      partial packet is dropped with the buffer. */
  lemma SessionWithoutDelimiter(log: seq<byte>, recvs: seq<RecvResult>, allocOk: nat -> bool, io: nat -> LineIo)
    requires Newline !in Concat(Delivered(recvs, allocOk, 0))
    ensures Session(log, recvs, allocOk, io) == (log, [])
  {
    SessionSplitsStream(log, recvs, allocOk, io);
    SplitLinesTail(Concat(Delivered(recvs, allocOk, 0)));
  }

  /** When the buffered stream is complete packets followed by a partial one
      and every file operation succeeds: the log grows by exactly the
      packets, the partial one is not logged, and the k-th packet is answered
      with the old log followed by packets 0 through k. */
  lemma SessionEchoesEveryPacket(log: seq<byte>, recvs: seq<RecvResult>, allocOk: nat -> bool, io: nat -> LineIo,
                                 packets: seq<seq<byte>>, tail: seq<byte>)
    requires Concat(Delivered(recvs, allocOk, 0)) == Concat(packets) + tail
    requires forall i | 0 <= i < |packets| :: IsPacket(packets[i])
    requires Newline !in tail
    requires AllSucceed(packets, io, 0)
    ensures var s := Session(log, recvs, allocOk, io);
            && s.0 == log + Concat(packets)
            && |s.1| == |packets|
            && forall k | 0 <= k < |packets| :: s.1[k] == log + Concat(packets[..k + 1])
  {
    var stream := Concat(Delivered(recvs, allocOk, 0));
    SessionSplitsStream(log, recvs, allocOk, io);
    SplitLinesUnique(packets, tail);
    assert SplitLines(stream).0 == packets;
    assert Session(log, recvs, allocOk, io) == Serve(log, packets, io, 0);
    ServeAllSucceed(log, packets, io, 0);
    ServeEchoes(log, packets, io, 0);
  }

  /** Nothing is truncated: the log after a connection extends the log before
      it, and every echo is a snapshot taken in between. */
  lemma SessionAppendOnly(log: seq<byte>, recvs: seq<RecvResult>, allocOk: nat -> bool, io: nat -> LineIo)
    ensures var s := Session(log, recvs, allocOk, io);
            log <= s.0 && forall i | 0 <= i < |s.1| :: log <= s.1[i] <= s.0
  {
    var lines := Reassemble([], Delivered(recvs, allocOk, 0)).0;
    ServeGrowsLog(log, lines, io, 0);
  }

  /** Everything after the recv() that ends the loop, or the chunk whose
      realloc fails, is ignored. */
  lemma {:induction false} DeliveredStops(recvs: seq<RecvResult>, allocOk: nat -> bool, from: nat, i: nat)
    requires from <= i < |recvs| && (!MoreData(recvs[i]) || !allocOk(i))
    ensures Delivered(recvs, allocOk, from) == Delivered(recvs[..i], allocOk, from)
    decreases i - from
  {
    if from < i && MoreData(recvs[from]) && allocOk(from) {
      DeliveredStops(recvs, allocOk, from + 1, i);
      assert recvs[..i][from] == recvs[from];
    }
  }

  /** A connection ends at the first recv() that returns 0 or -1, or at the
      first failed realloc: what the peer sends afterwards is never logged or
      answered. */
  lemma SessionStopsAt(log: seq<byte>, recvs: seq<RecvResult>, allocOk: nat -> bool, io: nat -> LineIo, i: nat)
    requires i < |recvs| && (!MoreData(recvs[i]) || !allocOk(i))
    ensures Session(log, recvs, allocOk, io) == Session(log, recvs[..i], allocOk, io)
  {
    DeliveredStops(recvs, allocOk, 0, i);
  }
}
