/** The per-thread echo loop of a worker (`WorkerFunction`). A worker takes
    one client descriptor at a time from its input pipe, arms the
    connection timer, echoes what it reads back to the client until
    `kWorkerBufferSize` bytes have passed or the peer closes, then disarms
    the timer, shuts the descriptor down and closes it. An interrupted read
    or write (`EINTR`) abandons the connection; any other failure ends the
    process.

    Every system call's result is an input: a `ConnScript` holds the
    kernel's answers for one connection. The model records each call the
    worker issues as an `Effect`, and how the connection ended. */
module Worker {
  import opened Errors

  type byte = bv8

  /** The per-connection quota, also the size of the echo buffer. */
  const kWorkerBufferSize: nat := 16

  /** What one read(2) of the client socket reports: the bytes it delivered
      (none at end of stream), or the errno of its failure. */
  datatype ReadReply = Data(bytes: seq<byte>) | ReadError(errno: nat)

  /** The kernel's answers for one pass of the echo loop: the read, and the
      write that echoes its bytes (ignored when the read delivers nothing). */
  datatype IoStep = IoStep(read: ReadReply, write: SysResult)

  /** The kernel's answers for one connection, in the order the worker asks:
      the read of the descriptor from the worker's pipe, arming the timer,
      the passes of the echo loop, disarming the timer, and the errno that
      shutdown(2) and close(2) leave (0 when both succeed). */
  datatype ConnScript = ConnScript(take: SysResult, arm: SysResult, steps: seq<IoStep>,
                                   disarm: SysResult, closeErrno: nat)

  /** Every pass of the loop but the last delivers at least one byte, so
      `kWorkerBufferSize` passes always suffice. */
  predicate WellFormed(sc: ConnScript)
  {
    |sc.steps| >= kWorkerBufferSize
  }

  /** One call the worker issues on a connection, with what it passed and
      what it was told. */
  datatype Effect =
    | Arm(fd: int)                                          // timer_settime with the time quota
    | Read(fd: int, request: nat, reply: ReadReply)         // read(clientfd, buffer, request)
    | Write(fd: int, bytes: seq<byte>, result: SysResult)   // write(clientfd, buffer, |bytes|)
    | Disarm(fd: int)                                       // timer_settime with an empty time
    | Shutdown(fd: int)                                     // shutdown(clientfd, SHUT_RDWR)
    | Close(fd: int)                                        // close(clientfd)
    | QuotaInfo(reported: nat)                              // the INFO line, which names kWorkerBufferSize

  /** Why the echo loop stopped. */
  datatype LoopExit = QuotaReached | PeerClosed | Interrupted | IoFailed

  /** The calls of the echo loop, why it stopped and `processed_bytes` at that point. */
  datatype LoopRun = LoopRun(effects: seq<Effect>, exit: LoopExit, processed: nat)

  /** How one connection ended: closed normally with the bytes processed,
      abandoned after `EINTR`, or the process ended (`LOG_FATAL`, or a bare
      `exit` when disarming the timer fails). */
  datatype ConnEnd = Finished(processed: nat) | Abandoned | Fatal | Exited

  /** The calls for one connection, how it ended, and the thread's errno
      when the worker goes back for the next descriptor. */
  datatype ConnRun = ConnRun(effects: seq<Effect>, end: ConnEnd, errno: nat)

  /** The connections a worker served, in order, and whether the process ended. */
  datatype WorkerRun = WorkerRun(runs: seq<ConnRun>, halted: bool)

  /** What read(2) delivers when `reply` is what the socket has: never more
      than the `request` bytes asked for. */
  function Deliver(reply: ReadReply, request: nat): (r: ReadReply)
    ensures r.Data? <==> reply.Data?
    ensures r.Data? ==> |r.bytes| <= request && r.bytes <= reply.bytes
    ensures r.Data? && |reply.bytes| <= request ==> r == reply
    ensures r.ReadError? ==> r == reply
  {
    if reply.Data? && |reply.bytes| > request then Data(reply.bytes[..request]) else reply
  }

  /** The C return value of read(2): -1 on failure, the byte count otherwise. */
  function ReadReturn(reply: ReadReply): int
  {
    if reply.ReadError? then -1 else |reply.bytes|
  }

  function Prepend(es: seq<Effect>, r: LoopRun): LoopRun
  {
    LoopRun(es + r.effects, r.exit, r.processed)
  }

  /** The echo loop from pass `k` with `processed` bytes already processed:
      read at most the bytes that remain of the quota, stop on end of
      stream, and write back exactly what was read. */
  function EchoLoop(fd: int, steps: seq<IoStep>, k: nat, processed: nat): (r: LoopRun)
    requires processed <= kWorkerBufferSize
    requires k + (kWorkerBufferSize - processed) <= |steps|
    ensures r.processed <= kWorkerBufferSize
    decreases kWorkerBufferSize - processed
  {
    if processed == kWorkerBufferSize then
      LoopRun([], QuotaReached, processed)
    else
      var request := kWorkerBufferSize - processed;
      var reply := Deliver(steps[k].read, request);
      var read := Read(fd, request, reply);
      match reply
      case ReadError(e) =>
        LoopRun([read], if e == EINTR then Interrupted else IoFailed, processed)
      case Data(got) =>
        if |got| == 0 then
          LoopRun([read], PeerClosed, processed)
        else
          var write := Write(fd, got, steps[k].write);
          if steps[k].write.Failure? then
            LoopRun([read, write], if steps[k].write.errno == EINTR then Interrupted else IoFailed,
                    processed + |got|)
          else
            Prepend([read, write], EchoLoop(fd, steps, k + 1, processed + |got|))
  }

  /** One connection on descriptor `fd`, the thread's errno being `errno`
      when it starts. */
  function Serve(fd: int, sc: ConnScript, errno: nat): (r: ConnRun)
    requires WellFormed(sc)
    ensures r.effects != [] && r.effects[0] == Arm(fd)
  {
    if sc.arm.Failure? then
      ConnRun([Arm(fd)], Fatal, sc.arm.errno)
    else
      var loop := EchoLoop(fd, sc.steps, 0, 0);
      var echoed := [Arm(fd)] + loop.effects;
      match loop.exit
      case Interrupted => ConnRun(echoed, Abandoned, EINTR)
      case IoFailed => ConnRun(echoed, Fatal, errno)
      case _ =>
        if sc.disarm.Failure? then
          ConnRun(echoed + [Disarm(fd)], Exited, sc.disarm.errno)
        else
          var closed := echoed + [Disarm(fd), Shutdown(fd), Close(fd)];
          var errnoAfterClose := if sc.closeErrno != 0 then sc.closeErrno else errno;
          if errnoAfterClose != 0 then
            ConnRun(closed, Finished(loop.processed), 0)
          else
            ConnRun(closed + [QuotaInfo(kWorkerBufferSize)], Finished(loop.processed), 0)
  }

  predicate AllWellFormed(scripts: seq<ConnScript>)
  {
    forall i :: 0 <= i < |scripts| ==> WellFormed(scripts[i])
  }

  /** The worker thread's outer loop over the descriptors of its pipe, in
      pipe order, until the process ends or the pipe holds no more. */
  function RunWorker(inbox: seq<int>, scripts: seq<ConnScript>, errno: nat): (w: WorkerRun)
    requires |scripts| == |inbox| && AllWellFormed(scripts)
    ensures |w.runs| <= |inbox|
    decreases |inbox|
  {
    if inbox == [] then
      WorkerRun([], false)
    else if scripts[0].take.Failure? then
      WorkerRun([], true)
    else
      var r := Serve(inbox[0], scripts[0], errno);
      if r.end.Fatal? || r.end.Exited? then
        WorkerRun([r], true)
      else
        var rest := RunWorker(inbox[1..], scripts[1..], r.errno);
        WorkerRun([r] + rest.runs, rest.halted)
  }

  /** The bytes the reads among `effects` delivered, in order. */
  function Received(effects: seq<Effect>): seq<byte>
  {
    if effects == [] then []
    else (if effects[0].Read? && effects[0].reply.Data? then effects[0].reply.bytes else [])
         + Received(effects[1..])
  }

  /** The bytes the writes among `effects` were given, in order. */
  function Echoed(effects: seq<Effect>): seq<byte>
  {
    if effects == [] then []
    else (if effects[0].Write? then effects[0].bytes else []) + Echoed(effects[1..])
  }

  /** The bytes the successful writes among `effects` sent, in order. */
  function Sent(effects: seq<Effect>): seq<byte>
  {
    if effects == [] then []
    else (if effects[0].Write? && effects[0].result.Success? then effects[0].bytes else []) + Sent(effects[1..])
  }

  /** The bytes of a write that failed as the last of `effects`, if there is one. */
  function Unsent(effects: seq<Effect>): seq<byte>
  {
    if effects != [] && effects[|effects| - 1].Write? && effects[|effects| - 1].result.Failure?
    then effects[|effects| - 1].bytes else []
  }

  /** A read or write the kernel failed. */
  predicate FailedCall(e: Effect)
  {
    (e.Read? && e.reply.ReadError?) || (e.Write? && e.result.Failure?)
  }

  function CallErrno(e: Effect): nat
    requires FailedCall(e)
  {
    if e.Read? then e.reply.errno else e.result.errno
  }

  /** A call the loop never issues: the timer, shutdown, close and the INFO line. */
  predicate IsConnectionControl(e: Effect)
  {
    e.Arm? || e.Disarm? || e.Shutdown? || e.Close? || e.QuotaInfo?
  }

  // ---------------------------------------------------------------------
  // Imperative worker

  lemma PrependPrepend(a: seq<Effect>, b: seq<Effect>, r: LoopRun)
    ensures Prepend(a + b, r) == Prepend(a, Prepend(b, r))
  {
    assert (a + b) + r.effects == a + (b + r.effects);
  }

  /** Copies `bytes` to the front of `buffer`, as read(2) does. */
  method FillBuffer(buffer: array<byte>, bytes: seq<byte>)
    requires |bytes| <= buffer.Length
    modifies buffer
    ensures buffer[..|bytes|] == bytes
    ensures buffer[|bytes|..] == old(buffer[|bytes|..])
  {
    var i := 0;
    while i < |bytes|
      invariant i <= |bytes|
      invariant buffer[..i] == bytes[..i]
      invariant buffer[i..] == old(buffer[i..])
    {
      buffer[i] := bytes[i];
      i := i + 1;
    }
  }

  /** One pass of the inner loop: reads into `buffer` at most what remains
      of the quota and writes back what the read delivered. `n` is what the
      read delivered; unless the pass stopped the loop, the rest of the loop
      goes on from pass `k + 1` with `n` more bytes processed. */
  method EchoPass(clientfd: int, steps: seq<IoStep>, k: nat, processed: nat, buffer: array<byte>)
    returns (effects: seq<Effect>, exit: LoopExit, n: nat, stopped: bool)
    requires buffer.Length == kWorkerBufferSize && processed < kWorkerBufferSize
    requires k + (kWorkerBufferSize - processed) <= |steps|
    modifies buffer
    ensures processed + n <= kWorkerBufferSize
    ensures stopped ==> EchoLoop(clientfd, steps, k, processed) == LoopRun(effects, exit, processed + n)
    ensures !stopped ==> 0 < n
    ensures !stopped ==>
      EchoLoop(clientfd, steps, k, processed) == Prepend(effects, EchoLoop(clientfd, steps, k + 1, processed + n))
  {
    var request := kWorkerBufferSize - processed;
    var reply := Deliver(steps[k].read, request);
    exit := QuotaReached;
    n := 0;
    stopped := true;
    var bytes := ReadReturn(reply);
    if bytes == kReadFailed {
      effects := [Read(clientfd, request, reply)];
      exit := if reply.errno == EINTR then Interrupted else IoFailed;
      return;
    }
    n := |reply.bytes|;
    FillBuffer(buffer, reply.bytes);
    var read := Read(clientfd, request, reply);
    if n == 0 {
      effects := [read];
      exit := PeerClosed;
      return;
    }
    var result := steps[k].write;
    effects := [read, Write(clientfd, buffer[..n], result)];
    if ReturnValue(result) == kWriteFailed {
      exit := if result.errno == EINTR then Interrupted else IoFailed;
    } else {
      stopped := false;
    }
  }

  /** The inner loop of `WorkerFunction`: reads into `buffer` at most what
      remains of the quota, writes back what each read delivered, and stops
      at the quota, at end of stream or at the first failed call. */
  method EchoPasses(clientfd: int, steps: seq<IoStep>, buffer: array<byte>) returns (run: LoopRun)
    requires buffer.Length == kWorkerBufferSize && |steps| >= kWorkerBufferSize
    modifies buffer
    ensures run == EchoLoop(clientfd, steps, 0, 0)
  {
    var effects: seq<Effect> := [];
    var processed: nat := 0;
    var k: nat := 0;
    var exit := QuotaReached;
    var stopped := false;
    ghost var whole := EchoLoop(clientfd, steps, 0, 0);
    while !stopped && processed != kWorkerBufferSize
      invariant processed <= kWorkerBufferSize
      invariant k + (kWorkerBufferSize - processed) <= |steps|
      invariant !stopped ==> Prepend(effects, EchoLoop(clientfd, steps, k, processed)) == whole
      invariant stopped ==> LoopRun(effects, exit, processed) == whole
      invariant !stopped ==> exit == QuotaReached
      decreases kWorkerBufferSize - processed, if stopped then 0 else 1
    {
      var passEffects, passExit, n, passStopped := EchoPass(clientfd, steps, k, processed, buffer);
      ghost var before := effects;
      effects := effects + passEffects;
      if passStopped {
        exit := passExit;
        stopped := true;
        assert Prepend(before, LoopRun(passEffects, passExit, processed + n)) == LoopRun(effects, exit, processed + n);
      } else {
        PrependPrepend(before, passEffects, EchoLoop(clientfd, steps, k + 1, processed + n));
        k := k + 1;
      }
      processed := processed + n;
    }
    if !stopped {
      assert effects + [] == effects;
    }
    run := LoopRun(effects, exit, processed);
  }

  /** Serves one connection as `WorkerFunction` does between two reads of
      its pipe, with the 16-byte buffer that each read fills and each write
      sends back. */
  method ServeConnection(clientfd: int, sc: ConnScript, errno: nat) returns (r: ConnRun)
    requires WellFormed(sc)
    ensures r == Serve(clientfd, sc, errno)
  {
    var buffer := new byte[kWorkerBufferSize];
    var effects := [Arm(clientfd)];
    if ReturnValue(sc.arm) == kTimerSettimeFailed {
      return ConnRun(effects, Fatal, sc.arm.errno);
    }
    var loop := EchoPasses(clientfd, sc.steps, buffer);
    effects := effects + loop.effects;
    if loop.exit == Interrupted {
      return ConnRun(effects, Abandoned, EINTR);
    } else if loop.exit == IoFailed {
      return ConnRun(effects, Fatal, errno);
    }
    effects := effects + [Disarm(clientfd)];
    if ReturnValue(sc.disarm) == kTimerSettimeFailed {
      return ConnRun(effects, Exited, sc.disarm.errno);
    }
    effects := effects + [Shutdown(clientfd), Close(clientfd)];
    var errnoNow := if sc.closeErrno != 0 then sc.closeErrno else errno;
    if errnoNow != 0 {
      return ConnRun(effects, Finished(loop.processed), 0);
    }
    effects := effects + [QuotaInfo(kWorkerBufferSize)];
    r := ConnRun(effects, Finished(loop.processed), 0);
  }

  /** The worker thread: serves the descriptors of its pipe in order,
      carrying errno from one connection to the next, until one of them
      ends the process or the pipe holds no more. */
  method WorkerFunction(inbox: seq<int>, scripts: seq<ConnScript>) returns (w: WorkerRun)
    requires |scripts| == |inbox| && AllWellFormed(scripts)
    ensures w == RunWorker(inbox, scripts, 0)
  {
    var errno: nat := 0;
    var runs: seq<ConnRun> := [];
    var i := 0;
    var halted := false;
    while i < |inbox| && !halted
      invariant i <= |inbox|
      invariant !halted ==>
        var rest := RunWorker(inbox[i..], scripts[i..], errno);
        WorkerRun(runs + rest.runs, rest.halted) == RunWorker(inbox, scripts, 0)
      invariant halted ==> WorkerRun(runs, true) == RunWorker(inbox, scripts, 0)
      decreases |inbox| - i, if halted then 0 else 1
    {
      assert inbox[i..][1..] == inbox[i + 1..] && scripts[i..][1..] == scripts[i + 1..];
      if ReturnValue(scripts[i].take) == kReadFailed {
        halted := true;
      } else {
        var r := ServeConnection(inbox[i], scripts[i], errno);
        runs := runs + [r];
        if r.end.Fatal? || r.end.Exited? {
          halted := true;
        } else {
          errno := r.errno;
          i := i + 1;
        }
      }
    }
    w := WorkerRun(runs, halted);
    if !halted {
      assert inbox[i..] == [];
    }
  }
}
