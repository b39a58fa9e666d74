/** The connection handler: one client's receive loop. Each received chunk is
    appended to a growable packet buffer; the buffer is scanned for complete
    packets, each of which is appended to the data file and answered with the
    whole file; the partial packet after the last delimiter is moved to the
    front of the buffer and kept for the next chunk. */
module Handler {
  import opened Framing
  import opened LogStore

  /** What one recv() on the client socket returned: some bytes, 0 (the peer
      closed the connection) or -1. */
  datatype RecvResult = Received(data: seq<byte>) | PeerClosed | RecvFailed

  /** The receive loop goes on while recv() returns a positive count. */
  predicate MoreData(r: RecvResult)
  {
    r.Received? && |r.data| > 0
  }

  /** The chunks the receive loop buffers, from the i-th recv() on: it stops
      at the first recv() that returns 0 or -1, and at the first chunk whose
      realloc fails (that chunk is lost with the buffer). realloc number i is
      answered by allocOk(i). */
  function Delivered(recvs: seq<RecvResult>, allocOk: nat -> bool, i: nat): seq<seq<byte>>
    requires i <= |recvs|
    decreases |recvs| - i
  {
    if i == |recvs| || !MoreData(recvs[i]) || !allocOk(i) then []
    else [recvs[i].data] + Delivered(recvs, allocOk, i + 1)
  }

  /** One connection, as a function of the log it starts from: the packets of
      the delivered chunks, served in order. Result: the final log, and the
      echoed contents in order. */
  function Session(log: seq<byte>, recvs: seq<RecvResult>, allocOk: nat -> bool, io: nat -> LineIo)
    : (seq<byte>, seq<seq<byte>>)
  {
    Serve(log, Reassemble([], Delivered(recvs, allocOk, 0)).0, io, 0)
  }

  /** memchr(buf + from, '\n', |buf| - from): the first delimiter in the
      buffered bytes from `from` on, if any. */
  method MemChr(buf: seq<byte>, from: nat) returns (nl: Option<nat>)
    requires from <= |buf|
    ensures nl == Find(buf, from)
  {
    var i := from;
    while i < |buf|
      invariant from <= i <= |buf|
      invariant Find(buf, from) == Find(buf, i)
    {
      if buf[i] == Newline {
        return Some(i);
      }
      i := i + 1;
    }
    return None;
  }

  /** The accepted client socket. `sent` records every buffer offered to
      send() on it, in order. */
  class ClientSocket {
    var sent: seq<seq<byte>>

    constructor ()
      ensures sent == []
    {
      sent := [];
    }

    /** send() of one buffer; its return value is never looked at. */
    method Send(piece: seq<byte>)
      modifies this
      ensures sent == old(sent) + [piece]
    {
      sent := sent + [piece];
    }
  }

  /** The state handle_client keeps for one connection. `packet` and
      `packetLen` are the reassembly buffer; `lineNo` counts the packets taken
      out so far and selects the environment's answers for the next one. */
  class Connection {
    const file: DataFile
    const client: ClientSocket
    var packet: array<byte>
    var packetLen: nat
    var lineNo: nat

    ghost predicate Valid()
      reads this
    {
      packetLen <= packet.Length
    }

    /** The bytes buffered and not yet taken out as packets. */
    ghost function Pending(): seq<byte>
      reads this, packet
      requires Valid()
    {
      packet[..packetLen]
    }

    /** A fresh connection: no buffer yet (packet = NULL, packet_len = 0). */
    constructor (file: DataFile, client: ClientSocket)
      ensures Valid() && this.file == file && this.client == client
      ensures Pending() == [] && lineNo == 0
    {
      this.file := file;
      this.client := client;
      packet := new byte[0];
      packetLen := 0;
      lineNo := 0;
    }

    /** realloc the buffer to hold the chunk and a terminator, copy the chunk
        after the buffered bytes, and terminate. When the allocation fails the
        buffer is freed and the connection is abandoned. */
    method Receive(chunk: seq<byte>, allocOk: bool) returns (ok: bool)
      requires Valid()
      modifies this
      ensures Valid() && lineNo == old(lineNo)
      ensures ok == allocOk
      ensures ok ==> fresh(packet) && packetLen == old(packetLen) + |chunk|
                     && Pending() == old(Pending()) + chunk
                     && packetLen < packet.Length && packet[packetLen] == Nul
      ensures !ok ==> Pending() == []
    {
      if !allocOk {
        packet := new byte[0];
        packetLen := 0;
        return false;
      }
      var grown := new byte[packetLen + |chunk| + 1];
      forall i | 0 <= i < packetLen {
        grown[i] := packet[i];
      }
      forall i | 0 <= i < |chunk| {
        grown[packetLen + i] := chunk[i];
      }
      grown[packetLen + |chunk|] := Nul;
      assert grown[..packetLen + |chunk|] == packet[..packetLen] + chunk;
      packet := grown;
      packetLen := packetLen + |chunk|;
      return true;
    }

    /** The echo: read the whole data file from the start, BUFSIZE bytes at a
        time, and offer each piece to send() as it is read. */
    method EchoLog()
      modifies client
      ensures client.sent == old(client.sent) + Pieces(file.data)
    {
      var off := 0;
      var piece := file.Read(off);
      while |piece| > 0
        invariant off <= |file.data|
        invariant |piece| == Min(BufSize, |file.data| - off)
        invariant piece == file.data[off..off + |piece|]
        invariant client.sent + Pieces(file.data[off..]) == old(client.sent) + Pieces(file.data)
        decreases |file.data| - off
      {
        var rest := file.data[off..];
        assert rest[..|piece|] == piece;
        assert Pieces(rest) == [piece] + Pieces(rest[|piece|..]);
        assert rest[|piece|..] == file.data[off + |piece|..];
        Assoc(client.sent, [piece], Pieces(file.data[off + |piece|..]));
        client.Send(piece);
        off := off + |piece|;
        piece := file.Read(off);
      }
      assert file.data[off..] == [];
    }

    /** memmove the bytes from `start` on to the front of the buffer, when
        there are any and they are not already there, and keep only them. */
    method Compact(start: nat)
      requires Valid() && start <= packetLen
      modifies this`packetLen, packet
      ensures Valid()
      ensures Pending() == old(Pending())[start..]
    {
      var remaining := packetLen - start;
      ghost var before := packet[..];
      if remaining > 0 && start != 0 {
        var i := 0;
        while i < remaining
          invariant packetLen == old(packetLen)
          invariant start + remaining == packetLen <= packet.Length == |before|
          invariant i <= remaining
          invariant forall k | 0 <= k < i :: packet[k] == before[start + k]
          invariant forall k | i <= k < packet.Length :: packet[k] == before[k]
        {
          packet[i] := packet[start + i];
          i := i + 1;
        }
      }
      packetLen := remaining;
      assert packet[..packetLen] == before[start..start + remaining];
    }

    /** One packet taken out of the buffer: append it to the data file and, if
        that open succeeded, echo the whole file when it can be opened again. */
    method ServePacket(line: seq<byte>, io: LineIo)
      modifies client, file
      ensures var step := ServeLine(old(file.data), line, io);
              file.data == step.0 && client.sent == old(client.sent) + SendsOf(step.1)
    {
      var appended := file.Append(line, io.appendOpenOk, io.write);
      if appended && io.readOpenOk {
        EchoLog();
        assert SendsOf([file.data]) == Pieces(file.data) by {
          assert [file.data][..0] == [];
        }
      }
    }

    /** The delimiter loop over the buffered bytes `buf`: memchr from the
        cursor, serve the packet through the delimiter, move the cursor past
        it, until no delimiter is left. Returns the final cursor and the
        number of packets served. */
    method ServeAll(buf: seq<byte>, io: nat -> LineIo, base: nat) returns (start: nat, taken: nat)
      modifies client, file
      ensures var split := SplitLines(buf);
              var served := Serve(old(file.data), split.0, io, base);
              && start <= |buf| && buf[start..] == split.1
              && taken == |split.0|
              && file.data == served.0
              && client.sent == old(client.sent) + SendsOf(served.1)
    {
      ghost var log0, sent0 := file.data, client.sent;
      ghost var lines, tail := SplitFrom(buf, 0).0, SplitFrom(buf, 0).1;
      ghost var found: seq<seq<byte>> := [];
      ghost var served := Serve(log0, found, io, base);
      start, taken := 0, 0;
      var nl := MemChr(buf, start);
      while nl.Some?
        invariant start <= |buf| && nl == Find(buf, start)
        invariant found + SplitFrom(buf, start).0 == lines && SplitFrom(buf, start).1 == tail
        invariant taken == |found|
        invariant served == Serve(log0, found, io, base)
        invariant file.data == served.0 && client.sent == sent0 + SendsOf(served.1)
        decreases |buf| - start
      {
        var end := nl.value + 1;
        var line := buf[start..end];
        TakePacket(buf, start, found, lines, tail);
        var lineIo := io(base + taken);
        assert lineIo == io(base + |found|);
        ghost var step := ServeLine(served.0, line, lineIo);
        ghost var sentBefore := client.sent;
        ServePacket(line, lineIo);
        assert file.data == step.0;
        assert client.sent == sentBefore + SendsOf(step.1);
        ServeStep(log0, found, line, io, base, served, step);
        SendsOfAppend(served.1, step.1);
        Assoc(sent0, SendsOf(served.1), SendsOf(step.1));
        found := found + [line];
        served := (step.0, served.1 + step.1);
        taken := taken + 1;
        start := end;
        nl := MemChr(buf, start);
      }
      assert SplitFrom(buf, start) == ([], buf[start..]);
      assert found == lines;
      SplitFromSlice(buf, 0);
      assert buf[0..] == buf;
    }

    /** The scan of handle_client: serve every complete packet in the buffer,
        from the front, then memmove what follows the last delimiter to the
        front and keep only it. The scan reads the buffered bytes and never
        writes them, so it is given them as one value. */
    method Scan(io: nat -> LineIo)
      requires Valid()
      modifies this, packet, client, file
      ensures Valid() && packet == old(packet)
      ensures var split := SplitLines(old(Pending()));
              var served := Serve(old(file.data), split.0, io, old(lineNo));
              && Pending() == split.1
              && lineNo == old(lineNo) + |split.0|
              && file.data == served.0
              && client.sent == old(client.sent) + SendsOf(served.1)
    {
      var buf := packet[..packetLen];
      var start, taken := ServeAll(buf, io, lineNo);
      lineNo := lineNo + taken;
      Compact(start);
    }

    /** One chunk from recv(): buffer it, then take out and serve every
        complete packet. On success the buffer keeps only a partial packet. */
    method Feed(chunk: seq<byte>, allocOk: bool, io: nat -> LineIo) returns (ok: bool)
      requires Valid()
      modifies this, client, file
      ensures Valid() && ok == allocOk
      ensures !ok ==> Pending() == [] && file.data == old(file.data)
                      && client.sent == old(client.sent) && lineNo == old(lineNo)
      ensures ok ==> var split := SplitLines(old(Pending()) + chunk);
                     var served := Serve(old(file.data), split.0, io, old(lineNo));
                     && Pending() == split.1
                     && lineNo == old(lineNo) + |split.0|
                     && file.data == served.0
                     && client.sent == old(client.sent) + SendsOf(served.1)
    {
      ok := Receive(chunk, allocOk);
      if ok {
        Scan(io);
      }
    }
  }

  /** Taking out the packet that ends at the next delimiter moves the
      cursor past it and leaves the rest of the split unchanged. */
  lemma TakePacket(buf: seq<byte>, start: nat, found: seq<seq<byte>>,
                   lines: seq<seq<byte>>, tail: seq<byte>)
    requires start <= |buf| && Find(buf, start).Some?
    requires found + SplitFrom(buf, start).0 == lines && SplitFrom(buf, start).1 == tail
    ensures var end := Find(buf, start).value + 1;
            (found + [buf[start..end]]) + SplitFrom(buf, end).0 == lines && SplitFrom(buf, end).1 == tail
  {
    var end := Find(buf, start).value + 1;
    Assoc(found, [buf[start..end]], SplitFrom(buf, end).0);
  }

  /** Serving one more packet extends Serve by one ServeLine step. */
  lemma ServeStep(log: seq<byte>, found: seq<seq<byte>>, line: seq<byte>, io: nat -> LineIo, base: nat,
                  prev: (seq<byte>, seq<seq<byte>>), step: (seq<byte>, seq<seq<byte>>))
    requires prev == Serve(log, found, io, base)
    requires step == ServeLine(prev.0, line, io(base + |found|))
    ensures Serve(log, found + [line], io, base) == (step.0, prev.1 + step.1)
  {
    assert (found + [line])[..|found|] == found;
  }

  /** handle_client: a fresh buffer, then one Feed per recv() that returned
      data, until the peer closes, recv() fails or a realloc fails; then the
      buffer, with any partial packet in it, is dropped. */
  method HandleClient(file: DataFile, client: ClientSocket, recvs: seq<RecvResult>,
                      allocOk: nat -> bool, io: nat -> LineIo)
    modifies file, client
    ensures var s := Session(old(file.data), recvs, allocOk, io);
            file.data == s.0 && client.sent == old(client.sent) + SendsOf(s.1)
  {
    ghost var log0, sent0 := file.data, client.sent;
    ghost var got: seq<seq<byte>> := [];
    ghost var re := Reassemble([], got);
    ghost var served := Serve(log0, re.0, io, 0);
    var conn := new Connection(file, client);
    var i := 0;
    while i < |recvs| && MoreData(recvs[i])
      invariant i <= |recvs|
      invariant conn.file == file && conn.client == client && conn.Valid()
      invariant got + Delivered(recvs, allocOk, i) == Delivered(recvs, allocOk, 0)
      invariant re == Reassemble([], got) && served == Serve(log0, re.0, io, 0)
      invariant conn.Pending() == re.1 && conn.lineNo == |re.0|
      invariant file.data == served.0 && client.sent == sent0 + SendsOf(served.1)
      decreases |recvs| - i
    {
      var chunk := recvs[i].data;
      ghost var sentBefore := client.sent;
      var ok := conn.Feed(chunk, allocOk(i), io);
      if !ok {
        assert Delivered(recvs, allocOk, i) == [];
        break;
      }
      ghost var split := SplitLines(re.1 + chunk);
      ghost var more := Serve(served.0, split.0, io, |re.0|);
      assert client.sent == sentBefore + SendsOf(more.1);
      FeedStep(log0, got, chunk, io, re, served, split, more);
      Assoc(sent0, SendsOf(served.1), SendsOf(more.1));
      assert Delivered(recvs, allocOk, i) == [chunk] + Delivered(recvs, allocOk, i + 1);
      Assoc(got, [chunk], Delivered(recvs, allocOk, i + 1));
      got := got + [chunk];
      re := (re.0 + split.0, split.1);
      served := (more.0, served.1 + more.1);
      i := i + 1;
    }
    assert got == Delivered(recvs, allocOk, 0);
  }

  /** Feeding one more chunk extends the reassembled packets by the packets
      SplitLines finds in the retained tail followed by the chunk, and
      serving them continues from where the earlier packets left off. */
  lemma FeedStep(log: seq<byte>, got: seq<seq<byte>>, chunk: seq<byte>, io: nat -> LineIo,
                 prev: (seq<seq<byte>>, seq<byte>), first: (seq<byte>, seq<seq<byte>>),
                 split: (seq<seq<byte>>, seq<byte>), second: (seq<byte>, seq<seq<byte>>))
    requires prev == Reassemble([], got) && first == Serve(log, prev.0, io, 0)
    requires split == SplitLines(prev.1 + chunk) && second == Serve(first.0, split.0, io, |prev.0|)
    ensures Reassemble([], got + [chunk]) == (prev.0 + split.0, split.1)
    ensures Serve(log, prev.0 + split.0, io, 0) == (second.0, first.1 + second.1)
    ensures SendsOf(first.1 + second.1) == SendsOf(first.1) + SendsOf(second.1)
  {
    ReassembleStep([], got, chunk);
    ServeAppend(log, prev.0, split.0, io, 0);
    SendsOfAppend(first.1, second.1);
  }
}
