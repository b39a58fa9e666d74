/** The server around the connections: the listening handle and the handle
    of the client being served, the accept loop that serves one client at a
    time against the same data file, and the cleanup that closes whichever
    handles are still open. */
module Lifecycle {
  import opened Framing
  import opened LogStore
  import opened Handler
  import opened Guarantees

  /** One return of accept(): a failure, after which the loop goes on, or a
      connected peer together with what its recv() calls return and how the
      environment behaves while it is served. */
  datatype Accept =
    | AcceptFailed
    | Accepted(fd: nat, recvs: seq<RecvResult>, allocOk: nat -> bool, io: nat -> LineIo)

  /** The handles a sequence of accepts yields, in order; each is closed
      once its client has been served. */
  function Fds(accepts: seq<Accept>): seq<int>
    decreases |accepts|
  {
    if accepts == [] then []
    else
      var last := accepts[|accepts| - 1];
      Fds(accepts[..|accepts| - 1]) + (if last.Accepted? then [last.fd as int] else [])
  }

  /** The data file after serving the accepted connections one after the
      other, each starting from the log the previous ones left. */
  function LogAfter(log: seq<byte>, accepts: seq<Accept>): seq<byte>
    decreases |accepts|
  {
    if accepts == [] then log
    else
      var last := accepts[|accepts| - 1];
      var before := LogAfter(log, accepts[..|accepts| - 1]);
      if last.Accepted? then Session(before, last.recvs, last.allocOk, last.io).0 else before
  }

  /** The logs the k-th accepted client is echoed: its session run against
      the log its predecessors left. */
  function Echoes(log: seq<byte>, accepts: seq<Accept>, k: nat): seq<seq<byte>>
    requires k < |accepts|
  {
    var a := accepts[k];
    if a.Accepted? then Session(LogAfter(log, accepts[..k]), a.recvs, a.allocOk, a.io).1 else []
  }

  /** The handles still open, as cleanup finds them: -1 marks a closed one. */
  function StillOpen(fd: int): seq<int>
  {
    if fd == -1 then [] else [fd]
  }

  class Server {
    var serverFd: int
    var clientFd: int
    /** Every handle passed to close(), in order. */
    var closed: seq<int>
    const file: DataFile

    constructor (listenFd: nat, file: DataFile)
      ensures serverFd == listenFd && clientFd == -1 && closed == [] && this.file == file
    {
      serverFd := listenFd;
      clientFd := -1;
      closed := [];
      this.file := file;
    }

    /** One accepted client: it becomes the current client handle, is served
        to the end of its connection, is closed, and the handle is marked
        closed again. */
    method ServeClient(fd: nat, client: ClientSocket, recvs: seq<RecvResult>,
                       allocOk: nat -> bool, io: nat -> LineIo)
      modifies this, file, client
      ensures var s := Session(old(file.data), recvs, allocOk, io);
              file.data == s.0 && client.sent == old(client.sent) + SendsOf(s.1)
      ensures closed == old(closed) + [fd as int]
      ensures clientFd == -1 && serverFd == old(serverFd)
    {
      clientFd := fd;
      HandleClient(file, client, recvs, allocOk, io);
      closed := closed + [clientFd];
      clientFd := -1;
    }

    /** The accept loop: every accepted client in turn, each with a socket of
        its own, until the loop is told to stop. A failed accept leaves -1 in
        the client handle and the loop goes on. */
    method Run(accepts: seq<Accept>) returns (replies: seq<seq<seq<byte>>>)
      modifies this, file
      ensures file.data == LogAfter(old(file.data), accepts)
      ensures closed == old(closed) + Fds(accepts)
      ensures |replies| == |accepts|
      ensures forall k | 0 <= k < |accepts| :: replies[k] == SendsOf(Echoes(old(file.data), accepts, k))
      ensures serverFd == old(serverFd)
      ensures accepts != [] ==> clientFd == -1
      ensures accepts == [] ==> clientFd == old(clientFd)
    {
      ghost var log0, closed0 := file.data, closed;
      replies := [];
      var i := 0;
      while i < |accepts|
        invariant i <= |accepts| && |replies| == i
        invariant file.data == LogAfter(log0, accepts[..i])
        invariant closed == closed0 + Fds(accepts[..i])
        invariant forall k | 0 <= k < i :: replies[k] == SendsOf(Echoes(log0, accepts, k))
        invariant serverFd == old(serverFd)
        invariant i > 0 ==> clientFd == -1
        invariant i == 0 ==> clientFd == old(clientFd)
      {
        var a := accepts[i];
        assert accepts[..i + 1][..i] == accepts[..i];
        if a.AcceptFailed? {
          clientFd := -1;
          replies := replies + [[]];
        } else {
          var client := new ClientSocket();
          ServeClient(a.fd, client, a.recvs, a.allocOk, a.io);
          Assoc(closed0, Fds(accepts[..i]), [a.fd as int]);
          replies := replies + [client.sent];
        }
        i := i + 1;
      }
      assert accepts[..i] == accepts;
    }

    /** cleanup(): close the client handle, then the listening handle, each
        only if it is still open, and mark both closed. */
    method Cleanup()
      modifies this
      ensures closed == old(closed) + StillOpen(old(clientFd)) + StillOpen(old(serverFd))
      ensures clientFd == -1 && serverFd == -1
    {
      if clientFd != -1 {
        closed := closed + [clientFd];
        clientFd := -1;
      }
      if serverFd != -1 {
        closed := closed + [serverFd];
        serverFd := -1;
      }
    }
  }

  /** The handles the accept loop closes are exactly the ones accept()
      returned: every accepted handle is among them, each of them was
      returned by some accept, and a failed accept (-1) adds none. */
  lemma {:induction false} FdsAreAccepted(accepts: seq<Accept>)
    ensures |Fds(accepts)| <= |accepts|
    ensures forall k | 0 <= k < |accepts| && accepts[k].Accepted? :: accepts[k].fd as int in Fds(accepts)
    ensures forall h | h in Fds(accepts) ::
              h != -1 && exists k | 0 <= k < |accepts| :: accepts[k].Accepted? && accepts[k].fd as int == h
    decreases |accepts|
  {
    if accepts != [] {
      var n := |accepts| - 1;
      var init := accepts[..n];
      FdsAreAccepted(init);
      forall k | 0 <= k < |accepts| && accepts[k].Accepted?
        ensures accepts[k].fd as int in Fds(accepts)
      {
        if k < n {
          assert init[k] == accepts[k];
        }
      }
      forall h | h in Fds(accepts)
        ensures h != -1 && exists k | 0 <= k < |accepts| :: accepts[k].Accepted? && accepts[k].fd as int == h
      {
        if h in Fds(init) {
          var k :| 0 <= k < |init| && init[k].Accepted? && init[k].fd as int == h;
          assert accepts[k] == init[k];
        } else {
          assert accepts[n].Accepted? && accepts[n].fd as int == h;
        }
      }
    }
  }

  /** The data file only grows across clients: whatever an earlier client
      logged is still in the file, at the same place, when a later client is
      served and echoed the log. */
  lemma {:induction false} LogAfterPrefix(log: seq<byte>, accepts: seq<Accept>, i: nat)
    requires i <= |accepts|
    ensures log <= LogAfter(log, accepts[..i]) <= LogAfter(log, accepts)
    decreases |accepts|
  {
    if i < |accepts| {
      var init := accepts[..|accepts| - 1];
      assert init[..i] == accepts[..i];
      LogAfterPrefix(log, init, i);
      var last := accepts[|accepts| - 1];
      if last.Accepted? {
        SessionAppendOnly(LogAfter(log, init), last.recvs, last.allocOk, last.io);
      }
    } else {
      assert accepts[..i] == accepts;
      LogGrows(log, accepts);
    }
  }

  lemma {:induction false} LogGrows(log: seq<byte>, accepts: seq<Accept>)
    ensures log <= LogAfter(log, accepts)
    decreases |accepts|
  {
    if accepts != [] {
      var init := accepts[..|accepts| - 1];
      LogGrows(log, init);
      var last := accepts[|accepts| - 1];
      if last.Accepted? {
        SessionAppendOnly(LogAfter(log, init), last.recvs, last.allocOk, last.io);
      }
    }
  }

  /** A later client's echoes contain everything earlier clients logged: each
      log the k-th client is echoed starts with the log as it stood after
      clients 0 .. j-1, for every j <= k, and is part of the final log. */
  lemma LaterClientSeesEarlier(log: seq<byte>, accepts: seq<Accept>, j: nat, k: nat)
    requires j <= k < |accepts|
    ensures forall r | r in Echoes(log, accepts, k) ::
              LogAfter(log, accepts[..j]) <= r <= LogAfter(log, accepts)
  {
    var a := accepts[k];
    if a.Accepted? {
      var before := LogAfter(log, accepts[..k]);
      assert accepts[..k][..j] == accepts[..j];
      LogAfterPrefix(log, accepts[..k], j);
      SessionAppendOnly(before, a.recvs, a.allocOk, a.io);
      assert accepts[..k + 1][..k] == accepts[..k];
      LogAfterPrefix(log, accepts, k + 1);
      forall r | r in Echoes(log, accepts, k)
        ensures LogAfter(log, accepts[..j]) <= r <= LogAfter(log, accepts)
      {
        var i :| 0 <= i < |Echoes(log, accepts, k)| && Echoes(log, accepts, k)[i] == r;
      }
    }
  }
}
