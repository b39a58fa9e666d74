/** The data file /var/tmp/aesdsocketdata: an append-only byte log shared by
    all connections of one server run, and the pure specification of what
    serving a sequence of complete packets does to it and sends back. */
module LogStore {
  import opened Framing

  /** What write(2) reported for one packet: -1, or the number of bytes written. */
  datatype WriteResult = WriteFailed | Wrote(count: nat)

  /** The environment's answers for the file operations of one packet: whether
      the open for appending succeeded, what the write reported, and whether
      the open for reading back succeeded. */
  datatype LineIo = LineIo(appendOpenOk: bool, write: WriteResult, readOpenOk: bool)

  /** The bytes of `line` that reach the file. A write never transfers more
      than it was asked to, so a larger count stands for the whole line. */
  function Written(line: seq<byte>, w: WriteResult): (r: seq<byte>)
    ensures r <= line
    ensures w.WriteFailed? ==> r == []
    ensures w.Wrote? ==> |r| == Min(w.count, |line|)
  {
    match w
    case WriteFailed => []
    case Wrote(n) => line[..Min(n, |line|)]
  }

  function Min(a: nat, b: nat): nat
  {
    if a < b then a else b
  }

  /** The pieces in which the whole log is read back and sent: BUFSIZE bytes at
      a time, the last piece shorter. */
  function Pieces(d: seq<byte>): seq<seq<byte>>
    decreases |d|
  {
    if |d| == 0 then []
    else
      var n := Min(BufSize, |d|);
      [d[..n]] + Pieces(d[n..])
  }

  /** The pieces join back into the whole log, and each fits the read buffer. */
  lemma {:induction false} PiecesSpec(d: seq<byte>)
    ensures Concat(Pieces(d)) == d
    ensures forall i | 0 <= i < |Pieces(d)| :: 0 < |Pieces(d)[i]| <= BufSize
    decreases |d|
  {
    if |d| > 0 {
      var n := Min(BufSize, |d|);
      var rest := Pieces(d[n..]);
      PiecesSpec(d[n..]);
      assert Pieces(d) == [d[..n]] + rest;
      assert ([d[..n]] + rest)[1..] == rest;
      assert d == d[..n] + d[n..];
    }
  }

  /** One packet: append it to the log, then (if the log could be reopened)
      echo the whole log. Result: the new log, and the echoed contents (none or
      one). */
  function ServeLine(log: seq<byte>, line: seq<byte>, io: LineIo): (seq<byte>, seq<seq<byte>>)
  {
    if !io.appendOpenOk then (log, [])
    else
      var log' := log + Written(line, io.write);
      (log', if io.readOpenOk then [log'] else [])
  }

  /** A packet whose open fails is skipped (no append, no echo); a failed write
      leaves the log as it was but the echo still happens; otherwise the log
      grows by a prefix of the packet, all of it when the write is complete,
      and the echo is the whole log as it now is. */
  lemma ServeLineSpec(log: seq<byte>, line: seq<byte>, io: LineIo)
    ensures var r := ServeLine(log, line, io);
            && log <= r.0 && r.0[|log|..] <= line
            && (!io.appendOpenOk ==> r == (log, []))
            && (io.appendOpenOk && io.write.WriteFailed? ==> r.0 == log)
            && (io.appendOpenOk && io.write.Wrote? && io.write.count >= |line| ==> r.0 == log + line)
            && |r.1| == (if io.appendOpenOk && io.readOpenOk then 1 else 0)
            && (forall i | 0 <= i < |r.1| :: r.1[i] == r.0)
  {
    if io.appendOpenOk {
      var log' := log + Written(line, io.write);
      assert log'[|log|..] == Written(line, io.write);
    }
  }

  /** Packets served in order; packet k uses the environment's answers
      io(base + k). Result: the final log, and every echo in order. */
  function Serve(log: seq<byte>, lines: seq<seq<byte>>, io: nat -> LineIo, base: nat)
    : (seq<byte>, seq<seq<byte>>)
    decreases |lines|
  {
    if lines == [] then (log, [])
    else
      var n := |lines| - 1;
      var prev := Serve(log, lines[..n], io, base);
      var step := ServeLine(prev.0, lines[n], io(base + n));
      (step.0, prev.1 + step.1)
  }

  /** Serving two runs of packets one after the other is serving them all. */
  lemma {:induction false} ServeAppend(log: seq<byte>, a: seq<seq<byte>>, b: seq<seq<byte>>,
                                       io: nat -> LineIo, base: nat)
    ensures var first := Serve(log, a, io, base);
            var second := Serve(first.0, b, io, base + |a|);
            Serve(log, a + b, io, base) == (second.0, first.1 + second.1)
    decreases |b|
  {
    if b == [] {
      assert a + b == a;
      var first := Serve(log, a, io, base);
      assert first.1 + [] == first.1;
    } else {
      var n := |b| - 1;
      var first := Serve(log, a, io, base);
      var mid := Serve(first.0, b[..n], io, base + |a|);
      ServeAppend(log, a, b[..n], io, base);
      assert (a + b)[..|a + b| - 1] == a + b[..n];
      assert (a + b)[|a + b| - 1] == b[n];
      assert |a + b| - 1 == |a| + n;
      var step := ServeLine(mid.0, b[n], io(base + |a| + n));
      assert Serve(log, a + b, io, base) == (step.0, (first.1 + mid.1) + step.1);
      assert Serve(first.0, b, io, base + |a|) == (step.0, mid.1 + step.1);
      Assoc(first.1, mid.1, step.1);
    }
  }

  /** The log only ever grows (no truncation), and every echo is a snapshot of
      it taken after the start and before the end of the run. */
  lemma {:induction false} ServeGrowsLog(log: seq<byte>, lines: seq<seq<byte>>, io: nat -> LineIo, base: nat)
    ensures var r := Serve(log, lines, io, base);
            log <= r.0 && |r.1| <= |lines| &&
            forall i | 0 <= i < |r.1| :: log <= r.1[i] <= r.0
    decreases |lines|
  {
    if lines != [] {
      var n := |lines| - 1;
      var prev := Serve(log, lines[..n], io, base);
      var step := ServeLine(prev.0, lines[n], io(base + n));
      ServeGrowsLog(log, lines[..n], io, base);
      ServeLineSpec(prev.0, lines[n], io(base + n));
      var r := Serve(log, lines, io, base);
      assert r == (step.0, prev.1 + step.1);
      forall i | 0 <= i < |r.1|
        ensures log <= r.1[i] <= r.0
      {
        if i < |prev.1| {
          assert r.1[i] == prev.1[i];
        } else {
          assert r.1[i] == step.1[i - |prev.1|];
        }
      }
    }
  }

  /** The bytes one packet adds to the log: nothing when the open fails,
      otherwise what the write transferred. */
  function AppendedBy(line: seq<byte>, io: LineIo): seq<byte>
  {
    if io.appendOpenOk then Written(line, io.write) else []
  }

  /** What each packet of a run adds to the log, in order. */
  function Appended(lines: seq<seq<byte>>, io: nat -> LineIo, base: nat): seq<seq<byte>>
    decreases |lines|
  {
    if lines == [] then []
    else
      var n := |lines| - 1;
      Appended(lines[..n], io, base) + [AppendedBy(lines[n], io(base + n))]
  }

  /** The log after a run is the log before it followed by what each packet
      added, in packet order: appends never overwrite or reorder. */
  lemma {:induction false} ServeLogIsAppends(log: seq<byte>, lines: seq<seq<byte>>, io: nat -> LineIo, base: nat)
    ensures Serve(log, lines, io, base).0 == log + Concat(Appended(lines, io, base))
    decreases |lines|
  {
    if lines != [] {
      var n := |lines| - 1;
      var init := Appended(lines[..n], io, base);
      var last := AppendedBy(lines[n], io(base + n));
      ServeLogIsAppends(log, lines[..n], io, base);
      ConcatAppend(init, [last]);
      assert Concat([last]) == last + Concat([]);
      Assoc(log, Concat(init), last);
    }
  }

  /** Every file operation for this packet succeeds and the write is complete. */
  predicate Succeeds(io: LineIo, line: seq<byte>)
  {
    io.appendOpenOk && io.readOpenOk && io.write.Wrote? && io.write.count >= |line|
  }

  /** Every packet of a run, the k-th answered by io(base + k), succeeds. */
  predicate AllSucceed(lines: seq<seq<byte>>, io: nat -> LineIo, base: nat)
  {
    forall k | 0 <= k < |lines| :: Succeeds(io(base + k), lines[k])
  }

  /** With no file failures, the log grows by exactly the packets and every
      packet is echoed, the last echo being the whole new log. */
  lemma {:induction false} ServeAllSucceed(log: seq<byte>, lines: seq<seq<byte>>,
                                           io: nat -> LineIo, base: nat)
    requires AllSucceed(lines, io, base)
    ensures var r := Serve(log, lines, io, base);
            && r.0 == log + Concat(lines)
            && |r.1| == |lines|
            && (lines != [] ==> r.1[|lines| - 1] == r.0)
    decreases |lines|
  {
    if lines == [] {
      assert log + Concat(lines) == log;
    } else {
      var n := |lines| - 1;
      var init := lines[..n];
      assert forall k | 0 <= k < n :: init[k] == lines[k];
      ServeAllSucceed(log, init, io, base);
      assert Succeeds(io(base + n), lines[n]);
      ConcatLast(lines);
      Assoc(log, Concat(init), lines[n]);
    }
  }

  /** With no file failures, the k-th echo is the old log followed by the
      packets up to and including the k-th. */
  lemma ServeEchoes(log: seq<byte>, lines: seq<seq<byte>>, io: nat -> LineIo, base: nat)
    requires AllSucceed(lines, io, base)
    ensures |Serve(log, lines, io, base).1| == |lines|
    ensures forall k | 0 <= k < |lines| :: Serve(log, lines, io, base).1[k] == log + Concat(lines[..k + 1])
  {
    ServeAllSucceed(log, lines, io, base);
    forall k | 0 <= k < |lines|
      ensures Serve(log, lines, io, base).1[k] == log + Concat(lines[..k + 1])
    {
      var a, b := lines[..k + 1], lines[k + 1..];
      assert a + b == lines;
      assert forall j | 0 <= j < |a| :: a[j] == lines[j];
      ServeAllSucceed(log, a, io, base);
      ServeAppend(log, a, b, io, base);
    }
  }

  /** The send() calls that echo the given log contents, in order. */
  function SendsOf(echoes: seq<seq<byte>>): (sends: seq<seq<byte>>)
  {
    if echoes == [] then []
    else SendsOf(echoes[..|echoes| - 1]) + Pieces(echoes[|echoes| - 1])
  }

  lemma {:induction false} SendsOfAppend(a: seq<seq<byte>>, b: seq<seq<byte>>)
    ensures SendsOf(a + b) == SendsOf(a) + SendsOf(b)
    decreases |b|
  {
    if b == [] {
      assert a + b == a;
    } else {
      var n := |b| - 1;
      SendsOfAppend(a, b[..n]);
      assert (a + b)[..|a + b| - 1] == a + b[..n];
      assert (a + b)[|a + b| - 1] == b[n];
      Assoc(SendsOf(a), SendsOf(b[..n]), Pieces(b[n]));
    }
  }

  /** Everything the client is offered is exactly the echoed contents, joined. */
  lemma {:induction false} SendsOfConcat(echoes: seq<seq<byte>>)
    ensures Concat(SendsOf(echoes)) == Concat(echoes)
    decreases |echoes|
  {
    if echoes != [] {
      var n := |echoes| - 1;
      SendsOfConcat(echoes[..n]);
      ConcatAppend(SendsOf(echoes[..n]), Pieces(echoes[n]));
      PiecesSpec(echoes[n]);
      ConcatLast(echoes);
    }
  }

  /** The file itself. Its contents survive from one connection to the next. */
  class DataFile {
    var data: seq<byte>

    constructor ()
      ensures data == []
    {
      data := [];
    }

    /** open(O_WRONLY | O_CREAT | O_APPEND), write the packet, close. Nothing
        is ever truncated; if the open fails nothing is written. */
    method Append(line: seq<byte>, openOk: bool, w: WriteResult) returns (ok: bool)
      modifies this
      ensures ok == openOk
      ensures data == if openOk then old(data) + Written(line, w) else old(data)
    {
      ok := openOk;
      if ok {
        data := data + Written(line, w);
      }
    }

    /** read() of at most BUFSIZE bytes at offset `off` of a regular file:
        the next bytes, as many as are left up to BUFSIZE; none at the end. */
    method Read(off: nat) returns (piece: seq<byte>)
      requires off <= |data|
      ensures |piece| == Min(BufSize, |data| - off)
      ensures piece == data[off..off + |piece|]
    {
      piece := data[off..off + Min(BufSize, |data| - off)];
    }
  }
}
