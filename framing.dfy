/** Packet framing for the socket server: bytes, the newline delimiter, and the
    pure specification of how a received byte stream splits into complete,
    newline-terminated packets plus a retained partial tail. */
module Framing {

  /** One octet as received from the socket or stored in the data file. */
  type byte = b: int | 0 <= b < 256

  /** The packet delimiter, '\n'. */
  const Newline: byte := 10

  /** The terminator stored just past the buffered bytes, '\0'. */
  const Nul: byte := 0

  /** BUFSIZE: the size of the receive buffer and of each read of the data file. */
  const BufSize: nat := 1024

  datatype Option<T> = None | Some(value: T)

  /** The byte strings of `ss`, joined in order. */
  function Concat(ss: seq<seq<byte>>): seq<byte>
  {
    if ss == [] then [] else ss[0] + Concat(ss[1..])
  }

  lemma {:induction false} ConcatAppend(a: seq<seq<byte>>, b: seq<seq<byte>>)
    ensures Concat(a + b) == Concat(a) + Concat(b)
  {
    if a == [] {
      assert a + b == b;
    } else {
      assert (a + b)[1..] == a[1..] + b;
      ConcatAppend(a[1..], b);
    }
  }

  lemma {:induction false} ConcatLast(ss: seq<seq<byte>>)
    requires ss != []
    ensures Concat(ss) == Concat(ss[..|ss| - 1]) + ss[|ss| - 1]
  {
    var last := ss[|ss| - 1];
    assert ss == ss[..|ss| - 1] + [last];
    ConcatAppend(ss[..|ss| - 1], [last]);
    assert Concat([last]) == last + Concat([]);
  }

  /** A complete packet: at least one byte, ends in the delimiter and holds no other one. */
  predicate IsPacket(p: seq<byte>)
  {
    |p| > 0 && p[|p| - 1] == Newline && Newline !in p[..|p| - 1]
  }

  /** memchr from `i`: the index of the first delimiter at or after `i`, if any. */
  function Find(s: seq<byte>, i: nat): (r: Option<nat>)
    requires i <= |s|
    ensures r.Some? ==> i <= r.value < |s| && s[r.value] == Newline
    decreases |s| - i
  {
    if i == |s| then None
    else if s[i] == Newline then Some(i)
    else Find(s, i + 1)
  }

  /** Find stops at the first delimiter, and finds none only when there is none. */
  lemma {:induction false} FindSpec(s: seq<byte>, i: nat)
    requires i <= |s|
    ensures Find(s, i).Some? ==> Newline !in s[i..Find(s, i).value]
    ensures Find(s, i).None? <==> Newline !in s[i..]
    decreases |s| - i
  {
    if i < |s| && s[i] != Newline {
      FindSpec(s, i + 1);
      assert s[i..] == [s[i]] + s[i + 1..];
      if Find(s, i).Some? {
        assert s[i..Find(s, i).value] == [s[i]] + s[i + 1..Find(s, i).value];
      }
    }
  }

  /** A delimiter with none before it, from `i` on, is the one Find stops at. */
  lemma {:induction false} FindAt(s: seq<byte>, i: nat, j: nat)
    requires i <= j < |s| && s[j] == Newline && Newline !in s[i..j]
    ensures Find(s, i) == Some(j)
    decreases j - i
  {
    if i < j {
      assert s[i] == s[i..j][0];
      assert s[i + 1..j] == s[i..j][1..];
      FindAt(s, i + 1, j);
    }
  }

  /** Searching a suffix is searching the whole from the same place. */
  lemma {:induction false} FindShift(s: seq<byte>, i: nat, j: nat)
    requires i <= j <= |s|
    ensures Find(s[i..], j - i) == match Find(s, j) case None => None case Some(k) => Some(k - i)
    decreases |s| - j
  {
    if j < |s| {
      assert s[i..][j - i] == s[j];
      if s[j] != Newline {
        FindShift(s, i, j + 1);
      }
    }
  }

  /** Splits `s` into its complete packets, in arrival order, and the partial
      tail after the last delimiter. */
  function SplitLines(s: seq<byte>): (seq<seq<byte>>, seq<byte>)
    decreases |s|
  {
    match Find(s, 0)
    case None => ([], s)
    case Some(k) =>
      var rest := SplitLines(s[k + 1..]);
      ([s[..k + 1]] + rest.0, rest.1)
  }

  /** The first packet of `s` runs through its first delimiter, at `e`. */
  lemma SplitLinesFirst(s: seq<byte>, e: nat)
    requires e < |s| && s[e] == Newline && Newline !in s[..e]
    ensures SplitLines(s) == ([s[..e + 1]] + SplitLines(s[e + 1..]).0, SplitLines(s[e + 1..]).1)
  {
    FindAt(s, 0, e);
  }

  /** SplitLines as handle_client computes it: a cursor `i` into the buffer,
      moved past each delimiter memchr finds. */
  function SplitFrom(s: seq<byte>, i: nat): (seq<seq<byte>>, seq<byte>)
    requires i <= |s|
    decreases |s| - i
  {
    match Find(s, i)
    case None => ([], s[i..])
    case Some(k) =>
      var rest := SplitFrom(s, k + 1);
      ([s[i..k + 1]] + rest.0, rest.1)
  }

  /** Scanning from cursor `i` splits exactly the bytes from `i` on. */
  lemma {:induction false} SplitFromSlice(s: seq<byte>, i: nat)
    requires i <= |s|
    ensures SplitFrom(s, i) == SplitLines(s[i..])
    decreases |s| - i
  {
    FindShift(s, i, i);
    match Find(s, i)
    case None =>
    case Some(k) =>
      SplitFromSlice(s, k + 1);
      assert s[i..][..k - i + 1] == s[i..k + 1];
      assert s[i..][k - i + 1..] == s[k + 1..];
  }

  /** The retained tail holds no delimiter, and there are packets exactly
      when `s` holds a delimiter; without one, the bytes are all kept as they
      are (the buffer is not moved). */
  lemma {:induction false} SplitLinesTail(s: seq<byte>)
    ensures Newline !in SplitLines(s).1
    ensures SplitLines(s).0 == [] <==> Newline !in s
    ensures Newline !in s ==> SplitLines(s).1 == s
    decreases |s|
  {
    FindSpec(s, 0);
    if Find(s, 0).Some? {
      SplitLinesTail(s[Find(s, 0).value + 1..]);
    }
  }

  /** Every piece SplitLines yields is one complete packet. */
  lemma {:induction false} SplitLinesPackets(s: seq<byte>)
    ensures forall i | 0 <= i < |SplitLines(s).0| :: IsPacket(SplitLines(s).0[i])
    decreases |s|
  {
    FindSpec(s, 0);
    if Find(s, 0).Some? {
      var k := Find(s, 0).value;
      var line := s[..k + 1];
      var rest := SplitLines(s[k + 1..]);
      SplitLinesPackets(s[k + 1..]);
      assert SplitLines(s).0 == [line] + rest.0;
      assert IsPacket(line) by { assert line[..k] == s[..k]; }
    }
  }

  /** The packets of `s` followed by its tail give back `s`. */
  lemma {:induction false} SplitLinesConcat(s: seq<byte>)
    ensures Concat(SplitLines(s).0) + SplitLines(s).1 == s
    decreases |s|
  {
    if Find(s, 0).Some? {
      var k := Find(s, 0).value;
      var line := s[..k + 1];
      var rest := SplitLines(s[k + 1..]);
      SplitLinesConcat(s[k + 1..]);
      assert SplitLines(s) == ([line] + rest.0, rest.1);
      ConcatCons(line, rest.0);
      Assoc(line, Concat(rest.0), rest.1);
      SliceJoin(s, k + 1);
    }
  }

  /** SplitLines is the only way to read `s` as packets followed by a
      delimiter-free tail. */
  lemma {:induction false} SplitLinesUnique(lines: seq<seq<byte>>, tail: seq<byte>)
    requires forall i | 0 <= i < |lines| :: IsPacket(lines[i])
    requires Newline !in tail
    ensures SplitLines(Concat(lines) + tail) == (lines, tail)
  {
    var s := Concat(lines) + tail;
    if lines != [] {
      var p := lines[0];
      var rest := Concat(lines[1..]) + tail;
      assert IsPacket(p);
      assert s == p + rest;
      assert s[..|p| - 1] == p[..|p| - 1];
      FindAt(s, 0, |p| - 1);
      assert s[..|p|] == p;
      assert s[|p|..] == rest;
      SplitLinesUnique(lines[1..], tail);
      assert SplitLines(s) == ([p] + lines[1..], tail);
      assert [p] + lines[1..] == lines;
    } else {
      assert s == tail;
      FindSpec(s, 0);
    }
  }

  /** Splitting a longer stream: the packets of `s`, then the packets of the
      tail of `s` followed by `t`. */
  lemma {:induction false} SplitLinesAppend(s: seq<byte>, t: seq<byte>)
    ensures var a := SplitLines(s);
            var b := SplitLines(a.1 + t);
            SplitLines(s + t) == (a.0 + b.0, b.1)
  {
    var a := SplitLines(s);
    var b := SplitLines(a.1 + t);
    SplitLinesPackets(s);
    SplitLinesPackets(a.1 + t);
    SplitLinesTail(a.1 + t);
    AllPacketsAppend(a.0, b.0);
    SplitLinesConcat(s);
    SplitLinesConcat(a.1 + t);
    ConcatAppend(a.0, b.0);
    Regroup(s, t, Concat(a.0), a.1, Concat(b.0), b.1);
    SplitLinesUnique(a.0 + b.0, b.1);
  }

  lemma Regroup(s: seq<byte>, t: seq<byte>, x: seq<byte>, y: seq<byte>, u: seq<byte>, v: seq<byte>)
    requires s == x + y && y + t == u + v
    ensures s + t == (x + u) + v
  {
    calc {
      s + t;
      (x + y) + t;
      x + (y + t);
      x + (u + v);
      (x + u) + v;
    }
  }

  lemma ConcatCons(p: seq<byte>, ps: seq<seq<byte>>)
    ensures Concat([p] + ps) == p + Concat(ps)
  {
    assert ([p] + ps)[1..] == ps;
  }

  lemma SliceJoin<T>(s: seq<T>, k: nat)
    requires k <= |s|
    ensures s[..k] + s[k..] == s
  {
  }

  lemma Assoc<T>(x: seq<T>, y: seq<T>, z: seq<T>)
    ensures x + (y + z) == (x + y) + z
  {
  }

  lemma AllPacketsAppend(a: seq<seq<byte>>, b: seq<seq<byte>>)
    requires forall i | 0 <= i < |a| :: IsPacket(a[i])
    requires forall i | 0 <= i < |b| :: IsPacket(b[i])
    ensures forall i | 0 <= i < |a + b| :: IsPacket((a + b)[i])
  {
    forall i | 0 <= i < |a + b|
      ensures IsPacket((a + b)[i])
    {
      if i >= |a| {
        assert (a + b)[i] == b[i - |a|];
      }
    }
  }


  /** The reassembler fed chunk by chunk, starting from `pending`: every packet
      completed so far, and the retained tail. */
  function Reassemble(pending: seq<byte>, chunks: seq<seq<byte>>): (seq<seq<byte>>, seq<byte>)
  {
    if chunks == [] then ([], pending)
    else
      var prev := Reassemble(pending, chunks[..|chunks| - 1]);
      var step := SplitLines(prev.1 + chunks[|chunks| - 1]);
      (prev.0 + step.0, step.1)
  }

  /** One more chunk: the packets so far, then those of the tail followed by the chunk. */
  lemma ReassembleStep(pending: seq<byte>, chunks: seq<seq<byte>>, chunk: seq<byte>)
    ensures var prev := Reassemble(pending, chunks);
            var step := SplitLines(prev.1 + chunk);
            Reassemble(pending, chunks + [chunk]) == (prev.0 + step.0, step.1)
  {
    assert (chunks + [chunk])[..|chunks|] == chunks;
  }

  /** Chunk boundaries never move packet boundaries: feeding the chunks one at
      a time gives the packets and tail of their concatenation. */
  lemma {:induction false} ChunkingInvariance(pending: seq<byte>, chunks: seq<seq<byte>>)
    requires Newline !in pending
    ensures Reassemble(pending, chunks) == SplitLines(pending + Concat(chunks))
  {
    if chunks == [] {
      assert pending + Concat(chunks) == pending;
    } else {
      ChunkingInvariance(pending, chunks[..|chunks| - 1]);
      ChunkingStep(pending, chunks);
    }
  }

  /** One more chunk keeps the reassembler in step with SplitLines. */
  lemma {:induction false} ChunkingStep(pending: seq<byte>, chunks: seq<seq<byte>>)
    requires chunks != []
    requires Reassemble(pending, chunks[..|chunks| - 1])
             == SplitLines(pending + Concat(chunks[..|chunks| - 1]))
    ensures Reassemble(pending, chunks) == SplitLines(pending + Concat(chunks))
  {
    var init, last := chunks[..|chunks| - 1], chunks[|chunks| - 1];
    var s := pending + Concat(init);
    var a := SplitLines(s);
    var b := SplitLines(a.1 + last);
    assert Reassemble(pending, chunks) == (a.0 + b.0, b.1);
    SplitLinesAppend(s, last);
    assert SplitLines(s + last) == (a.0 + b.0, b.1);
    ConcatLast(chunks);
    Assoc(pending, Concat(init), last);
  }
}
