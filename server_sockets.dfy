/** The listening-socket table of the synchronous server: `CreateSocket`
    opens, binds and starts listening on one socket, and
    `InitializeServerSockets` fills the server's fixed table of
    `SERVER_SOCKETS_COUNT` descriptors, one per port of
    `kServerBasePort .. kServerBasePort + SERVER_SOCKETS_COUNT - 1`.
    The kernel's answers to socket(2), bind(2) and listen(2) are inputs. */
module ServerSockets {
  import opened Errors

  const SERVER_SOCKETS_COUNT: nat := 10
  const kServerBasePort: nat := 10000
  const kSocketPendingConnections: nat := 5

  /** The kernel's answers to the three calls that set up one socket:
      socket(2) yields the new descriptor; bind(2) and listen(2) yield 0. */
  datatype SocketSteps = SocketSteps(socket: SysResult, bind: SysResult, listen: SysResult)

  /** A call `CreateSocket` issues, with the arguments that matter here. */
  datatype SocketCall = OpenSocket | Bind(fd: int, port: nat) | Listen(fd: int, backlog: nat)

  /** What `CreateSocket` returns (a descriptor or -1) and the calls it issued. */
  datatype Attempt = Attempt(fd: int, calls: seq<SocketCall>)

  /** All three set-up calls for one socket succeed. */
  predicate Succeeds(s: SocketSteps)
  {
    s.socket.Success? && s.bind.Success? && s.listen.Success?
  }

  /** Opens a stream socket, binds it to `port` on the loopback address and
      listens with a backlog of `kSocketPendingConnections`, stopping at the
      first call that fails. The three failure codes it can return are all
      equal to `kSocketFailed`, so the caller sees every failure. */
  function CreateSocket(port: nat, s: SocketSteps): (a: Attempt)
    ensures a.fd == kSocketFailed <==> !Succeeds(s)
    ensures a.fd != kSocketFailed ==>
              a.fd == s.socket.value &&
              a.calls == [OpenSocket, Bind(a.fd, port), Listen(a.fd, kSocketPendingConnections)]
    ensures |a.calls| == if s.socket.Failure? then 1 else if s.bind.Failure? then 2 else 3
    ensures a.calls[0] == OpenSocket
    ensures s.socket.Success? ==> a.calls[1] == Bind(s.socket.value, port)
    ensures s.socket.Success? && s.bind.Success? ==> a.calls[2] == Listen(s.socket.value, kSocketPendingConnections)
    ensures forall c :: c in a.calls && c.Bind? ==> c.port == port
  {
    var sockfd := ReturnValue(s.socket);
    if sockfd == kSocketFailed then
      Attempt(kSocketFailed, [OpenSocket])
    else if ReturnValue(s.bind) == kBindFailed then
      Attempt(kBindFailed, [OpenSocket, Bind(sockfd, port)])
    else if ReturnValue(s.listen) == kListenFailed then
      Attempt(kListenFailed, [OpenSocket, Bind(sockfd, port), Listen(sockfd, kSocketPendingConnections)])
    else
      Attempt(sockfd, [OpenSocket, Bind(sockfd, port), Listen(sockfd, kSocketPendingConnections)])
  }

  /** The index of the first slot whose set-up fails, or `|steps|` if none does. */
  function FirstFailure(steps: seq<SocketSteps>): (f: nat)
    ensures f <= |steps|
    ensures forall i :: 0 <= i < f ==> Succeeds(steps[i])
    ensures f < |steps| ==> !Succeeds(steps[f])
  {
    if steps == [] || !Succeeds(steps[0]) then 0 else 1 + FirstFailure(steps[1..])
  }

  /** The calls issued for slots `0 .. n-1`, slot `i` using port `kServerBasePort + i`. */
  function IssuedCalls(steps: seq<SocketSteps>, n: nat): seq<SocketCall>
    requires n <= |steps|
  {
    if n == 0 then [] else IssuedCalls(steps, n - 1) + CreateSocket(kServerBasePort + n - 1, steps[n - 1]).calls
  }

  /** Every slot before the first failure was bound to its own port and
      set listening on the descriptor the kernel gave it, and no call binds
      a port outside `kServerBasePort .. kServerBasePort + n - 1`. */
  lemma {:induction false} IssuedCallsBindSlots(steps: seq<SocketSteps>, n: nat)
    requires n <= |steps|
    ensures forall i :: 0 <= i < n && Succeeds(steps[i]) ==>
              Bind(steps[i].socket.value, kServerBasePort + i) in IssuedCalls(steps, n) &&
              Listen(steps[i].socket.value, kSocketPendingConnections) in IssuedCalls(steps, n)
    ensures forall c :: c in IssuedCalls(steps, n) && c.Bind? ==>
              kServerBasePort <= c.port < kServerBasePort + n
  {
    if n > 0 {
      IssuedCallsBindSlots(steps, n - 1);
      var last := CreateSocket(kServerBasePort + n - 1, steps[n - 1]);
      assert IssuedCalls(steps, n) == IssuedCalls(steps, n - 1) + last.calls;
      if Succeeds(steps[n - 1]) {
        assert last.calls[1] == Bind(steps[n - 1].socket.value, kServerBasePort + n - 1);
        assert last.calls[2] == Listen(steps[n - 1].socket.value, kSocketPendingConnections);
      }
    }
  }

  /** The server's table of listening descriptors (`struct Server`). */
  class Server {
    var sockets: array<int>

    constructor ()
      ensures sockets.Length == SERVER_SOCKETS_COUNT && fresh(sockets)
    {
      sockets := new int[SERVER_SOCKETS_COUNT];
    }

    /** Creates the listening sockets slot by slot, slot `i` on port
        `kServerBasePort + i`, and returns -1 at the first slot that fails;
        that slot then holds -1 and later slots are left as they were. */
    method InitializeServerSockets(steps: seq<SocketSteps>) returns (code: int, calls: seq<SocketCall>)
      requires sockets.Length == SERVER_SOCKETS_COUNT
      requires |steps| == SERVER_SOCKETS_COUNT
      modifies sockets
      ensures code == 0 || code == kServerSocketInitFailed
      ensures code == 0 <==> FirstFailure(steps) == SERVER_SOCKETS_COUNT
      ensures forall i :: 0 <= i < FirstFailure(steps) ==> sockets[i] == steps[i].socket.value
      ensures FirstFailure(steps) < SERVER_SOCKETS_COUNT ==> sockets[FirstFailure(steps)] == kSocketFailed
      ensures forall i :: FirstFailure(steps) < i < SERVER_SOCKETS_COUNT ==> sockets[i] == old(sockets[i])
      ensures calls == IssuedCalls(steps, if code == 0 then SERVER_SOCKETS_COUNT else FirstFailure(steps) + 1)
      ensures forall i :: 0 <= i < FirstFailure(steps) ==>
                Bind(sockets[i], kServerBasePort + i) in calls &&
                Listen(sockets[i], kSocketPendingConnections) in calls
    {
      calls := [];
      var i := 0;
      while i < SERVER_SOCKETS_COUNT
        invariant i <= FirstFailure(steps)
        invariant forall j :: 0 <= j < i ==> sockets[j] == steps[j].socket.value
        invariant forall j :: i <= j < SERVER_SOCKETS_COUNT ==> sockets[j] == old(sockets[j])
        invariant calls == IssuedCalls(steps, i)
      {
        var attempt := CreateSocket(kServerBasePort + i, steps[i]);
        sockets[i] := attempt.fd;
        calls := calls + attempt.calls;
        if sockets[i] == kSocketFailed {
          assert i == FirstFailure(steps);
          IssuedCallsBindSlots(steps, i + 1);
          code := kSocketFailed;
          return;
        }
        i := i + 1;
      }
      assert i == FirstFailure(steps);
      IssuedCallsBindSlots(steps, SERVER_SOCKETS_COUNT);
      code := 0;
    }
  }
}
