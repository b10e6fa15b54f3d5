/** What the worker's echo loop guarantees: the per-connection quota, echo
    fidelity, how each kind of ending looks, and the order in which a
    worker serves the descriptors of its pipe. */
module WorkerProperties {
  import opened Errors
  import opened Worker

  lemma {:induction false} ReceivedConcat(a: seq<Effect>, b: seq<Effect>)
    ensures Received(a + b) == Received(a) + Received(b)
    decreases |a|
  {
    if a == [] {
      assert a + b == b;
    } else {
      assert (a + b)[1..] == a[1..] + b;
      ReceivedConcat(a[1..], b);
    }
  }

  lemma {:induction false} EchoedConcat(a: seq<Effect>, b: seq<Effect>)
    ensures Echoed(a + b) == Echoed(a) + Echoed(b)
    decreases |a|
  {
    if a == [] {
      assert a + b == b;
    } else {
      assert (a + b)[1..] == a[1..] + b;
      EchoedConcat(a[1..], b);
    }
  }

  lemma {:induction false} SentConcat(a: seq<Effect>, b: seq<Effect>)
    ensures Sent(a + b) == Sent(a) + Sent(b)
    decreases |a|
  {
    if a == [] {
      assert a + b == b;
    } else {
      assert (a + b)[1..] == a[1..] + b;
      SentConcat(a[1..], b);
    }
  }

  lemma SingleBytes(e: Effect)
    ensures Received([e]) == if e.Read? && e.reply.Data? then e.reply.bytes else []
    ensures Echoed([e]) == if e.Write? then e.bytes else []
  {
    assert [e][1..] == [];
  }

  lemma SingleSent(e: Effect)
    ensures Sent([e]) == if e.Write? && e.result.Success? then e.bytes else []
  {
    assert [e][1..] == [];
  }

  /** A read followed by the write of its bytes contributes them once to
      what was received and once to what was passed to writes. */
  lemma PassBytes(read: Effect, write: Effect)
    requires read.Read? && read.reply.Data? && write.Write?
    ensures Received([read, write]) == read.reply.bytes
    ensures Echoed([read, write]) == write.bytes
  {
    ReceivedConcat([read], [write]);
    EchoedConcat([read], [write]);
    assert [read] + [write] == [read, write];
    SingleBytes(read);
    SingleBytes(write);
  }

  /** The calls around the loop (arming the timer before it; disarming,
      shutdown, close and the INFO line after it) carry no bytes. */
  lemma {:induction false} ControlFramed(fd: int, loop: seq<Effect>, extra: seq<Effect>)
    requires forall e :: e in extra ==> IsConnectionControl(e)
    ensures Received([Arm(fd)] + loop + extra) == Received(loop)
    ensures Echoed([Arm(fd)] + loop + extra) == Echoed(loop)
  {
    ReceivedConcat([Arm(fd)] + loop, extra);
    ReceivedConcat([Arm(fd)], loop);
    EchoedConcat([Arm(fd)] + loop, extra);
    EchoedConcat([Arm(fd)], loop);
    SingleBytes(Arm(fd));
    NoIoBytes(extra);
  }

  /** Nor do they send any. */
  lemma ControlFramedSent(fd: int, loop: seq<Effect>, extra: seq<Effect>)
    requires forall e :: e in extra ==> IsConnectionControl(e)
    ensures Sent([Arm(fd)] + loop + extra) == Sent(loop)
  {
    SentConcat([Arm(fd)] + loop, extra);
    SentConcat([Arm(fd)], loop);
    SingleSent(Arm(fd));
    NoIoSent(extra);
  }

  /** What `Serve` appends after the loop, for a script whose timer was armed. */
  function Epilogue(fd: int, sc: ConnScript, errno: nat): seq<Effect>
    requires WellFormed(sc)
  {
    var loop := EchoLoop(fd, sc.steps, 0, 0);
    if loop.exit == Interrupted || loop.exit == IoFailed then []
    else if sc.disarm.Failure? then [Disarm(fd)]
    else if (if sc.closeErrno != 0 then sc.closeErrno else errno) != 0 then [Disarm(fd), Shutdown(fd), Close(fd)]
    else [Disarm(fd), Shutdown(fd), Close(fd), QuotaInfo(kWorkerBufferSize)]
  }

  lemma ServeShape(fd: int, sc: ConnScript, errno: nat)
    requires WellFormed(sc) && sc.arm.Success?
    ensures Serve(fd, sc, errno).effects == [Arm(fd)] + EchoLoop(fd, sc.steps, 0, 0).effects + Epilogue(fd, sc, errno)
    ensures forall e :: e in Epilogue(fd, sc, errno) ==> IsConnectionControl(e)
  {
  }

  /** Quota bound: the loop never processes more than `kWorkerBufferSize`
      bytes, `processed_bytes` is processed-so-far plus what the reads
      delivered, and every read asks for exactly what remains of the quota
      and gets no more than it asked for. */
  lemma EchoLoopQuota(fd: int, steps: seq<IoStep>, k: nat, processed: nat)
    requires processed <= kWorkerBufferSize
    requires k + (kWorkerBufferSize - processed) <= |steps|
    ensures var r := EchoLoop(fd, steps, k, processed);
      processed <= r.processed <= kWorkerBufferSize &&
      r.processed == processed + |Received(r.effects)| &&
      forall j :: 0 <= j < |r.effects| && r.effects[j].Read? ==>
        r.effects[j].request == kWorkerBufferSize - processed - |Received(r.effects[..j])| &&
        (r.effects[j].reply.Data? ==> |r.effects[j].reply.bytes| <= r.effects[j].request)
  {
    EchoLoopProcessed(fd, steps, k, processed);
    EchoLoopRequests(fd, steps, k, processed);
  }

  /** `r` ends with a byte count between `processed` and the quota, equal to
      `processed` plus what its reads delivered. */
  predicate CountsReceived(r: LoopRun, processed: nat)
  {
    processed <= r.processed <= kWorkerBufferSize &&
    r.processed == processed + |Received(r.effects)|
  }

  /** `processed_bytes` ends as processed-so-far plus what the reads delivered. */
  lemma {:induction false} EchoLoopProcessed(fd: int, steps: seq<IoStep>, k: nat, processed: nat)
    requires processed <= kWorkerBufferSize
    requires k + (kWorkerBufferSize - processed) <= |steps|
    ensures CountsReceived(EchoLoop(fd, steps, k, processed), processed)
    decreases kWorkerBufferSize - processed
  {
    var r := EchoLoop(fd, steps, k, processed);
    if processed < kWorkerBufferSize {
      var request := kWorkerBufferSize - processed;
      var reply := Deliver(steps[k].read, request);
      var read := Read(fd, request, reply);
      if reply.Data? && |reply.bytes| > 0 {
        var write := Write(fd, reply.bytes, steps[k].write);
        if steps[k].write.Success? {
          var rest := EchoLoop(fd, steps, k + 1, processed + |reply.bytes|);
          EchoLoopProcessed(fd, steps, k + 1, processed + |reply.bytes|);
          assert r == Prepend([read, write], rest);
          CountsCons(read, write, rest, processed);
        } else {
          assert r == LoopRun([read, write], r.exit, processed + |reply.bytes|);
          CountsFailedPass(read, write, r.exit, processed);
        }
      } else {
        assert r == LoopRun([read], r.exit, processed);
        CountsRead(read, r.exit, processed);
      }
    } else {
      assert r.effects == [];
    }
  }

  lemma CountsRead(read: Effect, exit: LoopExit, processed: nat)
    requires read.Read? && !(read.reply.Data? && |read.reply.bytes| > 0)
    requires processed <= kWorkerBufferSize
    ensures CountsReceived(LoopRun([read], exit, processed), processed)
  {
    SingleBytes(read);
  }

  lemma CountsFailedPass(read: Effect, write: Effect, exit: LoopExit, processed: nat)
    requires read.Read? && read.reply.Data? && write.Write?
    requires processed + |read.reply.bytes| <= kWorkerBufferSize
    ensures CountsReceived(LoopRun([read, write], exit, processed + |read.reply.bytes|), processed)
  {
    PassBytes(read, write);
  }

  lemma CountsCons(read: Effect, write: Effect, rest: LoopRun, processed: nat)
    requires read.Read? && read.reply.Data? && write.Write?
    requires CountsReceived(rest, processed + |read.reply.bytes|)
    ensures CountsReceived(Prepend([read, write], rest), processed)
  {
    ReceivedPassCons(read, write, rest.effects);
  }

  /** Each read in `es` asks for what remains of the quota, `processed`
      bytes being done before `es` began, and gets no more than it asked for. */
  predicate ReadsAskRemaining(es: seq<Effect>, processed: nat)
  {
    forall j :: 0 <= j < |es| && es[j].Read? ==>
      es[j].request == kWorkerBufferSize - processed - |Received(es[..j])| &&
      (es[j].reply.Data? ==> |es[j].reply.bytes| <= es[j].request)
  }

  lemma RequestsCons(read: Effect, write: Effect, rest: seq<Effect>, processed: nat)
    requires read.Read? && read.reply.Data? && write.Write?
    requires read.request == kWorkerBufferSize - processed && |read.reply.bytes| <= read.request
    requires ReadsAskRemaining(rest, processed + |read.reply.bytes|)
    ensures ReadsAskRemaining([read, write] + rest, processed)
  {
    var es := [read, write] + rest;
    PassBytes(read, write);
    assert es[..0] == [];
    forall j | 0 <= j < |es| && es[j].Read?
      ensures es[j].request == kWorkerBufferSize - processed - |Received(es[..j])|
      ensures es[j].reply.Data? ==> |es[j].reply.bytes| <= es[j].request
    {
      if j >= 2 {
        assert es[..j] == [read, write] + rest[..j - 2];
        ReceivedConcat([read, write], rest[..j - 2]);
        assert es[j] == rest[j - 2];
      }
    }
  }

  /** Every read of the loop asks for what remains of the quota. */
  lemma {:induction false} EchoLoopRequests(fd: int, steps: seq<IoStep>, k: nat, processed: nat)
    requires processed <= kWorkerBufferSize
    requires k + (kWorkerBufferSize - processed) <= |steps|
    ensures ReadsAskRemaining(EchoLoop(fd, steps, k, processed).effects, processed)
    decreases kWorkerBufferSize - processed
  {
    var r := EchoLoop(fd, steps, k, processed);
    if processed < kWorkerBufferSize {
      var request := kWorkerBufferSize - processed;
      var reply := Deliver(steps[k].read, request);
      var read := Read(fd, request, reply);
      if reply.Data? && |reply.bytes| > 0 && steps[k].write.Success? {
        var write := Write(fd, reply.bytes, steps[k].write);
        var rest := EchoLoop(fd, steps, k + 1, processed + |reply.bytes|);
        EchoLoopRequests(fd, steps, k + 1, processed + |reply.bytes|);
        assert r.effects == [read, write] + rest.effects;
        RequestsCons(read, write, rest.effects, processed);
      } else if reply.Data? && |reply.bytes| > 0 {
        var write := Write(fd, reply.bytes, steps[k].write);
        assert r.effects == [read, write];
        assert r.effects[..0] == [] && r.effects[..1] == [read];
        SingleBytes(read);
      } else {
        assert r.effects == [read];
        assert r.effects[..0] == [];
      }
    }
  }

  /** A read and the write of its bytes: the write sends them only when it succeeds. */
  lemma PassSent(read: Effect, write: Effect)
    requires read.Read? && write.Write?
    ensures Sent([read, write]) == if write.result.Success? then write.bytes else []
  {
    SentConcat([read], [write]);
    assert [read] + [write] == [read, write];
    SingleSent(read);
    SingleSent(write);
  }

  /** The bytes of the successful writes in `es`, followed by those of a
      write that failed as its last call, are the bytes its reads delivered. */
  predicate Balanced(es: seq<Effect>)
  {
    Sent(es) + Unsent(es) == Received(es)
  }

  /** Every byte the loop received was sent back by a successful write,
      except the bytes of a write that failed as the loop's last call. */
  lemma {:induction false} EchoLoopSent(fd: int, steps: seq<IoStep>, k: nat, processed: nat)
    requires processed <= kWorkerBufferSize
    requires k + (kWorkerBufferSize - processed) <= |steps|
    ensures Balanced(EchoLoop(fd, steps, k, processed).effects)
    decreases kWorkerBufferSize - processed
  {
    var r := EchoLoop(fd, steps, k, processed);
    if processed < kWorkerBufferSize {
      var request := kWorkerBufferSize - processed;
      var reply := Deliver(steps[k].read, request);
      var read := Read(fd, request, reply);
      if reply.Data? && |reply.bytes| > 0 {
        var write := Write(fd, reply.bytes, steps[k].write);
        if steps[k].write.Success? {
          var rest := EchoLoop(fd, steps, k + 1, processed + |reply.bytes|);
          EchoLoopSent(fd, steps, k + 1, processed + |reply.bytes|);
          assert r.effects == [read, write] + rest.effects;
          BalancedCons(read, write, rest.effects);
        } else {
          assert r.effects == [read, write];
          BalancedFailedPass(read, write);
        }
      } else {
        assert r.effects == [read];
        BalancedRead(read);
      }
    } else {
      assert r.effects == [];
    }
  }

  /** A read that ends the loop, failed or delivering nothing. */
  lemma BalancedRead(read: Effect)
    requires read.Read? && !(read.reply.Data? && |read.reply.bytes| > 0)
    ensures Balanced([read])
  {
    SingleBytes(read);
    SingleSent(read);
  }

  /** A read whose bytes the write that follows failed to send. */
  lemma BalancedFailedPass(read: Effect, write: Effect)
    requires read.Read? && read.reply.Data? && write.Write? && write.result.Failure?
    requires write.bytes == read.reply.bytes
    ensures Balanced([read, write])
  {
    PassBytes(read, write);
    PassSent(read, write);
  }

  /** A read whose bytes the write that follows sent, before more calls. */
  lemma BalancedCons(read: Effect, write: Effect, rest: seq<Effect>)
    requires read.Read? && read.reply.Data? && write.Write? && write.result.Success?
    requires write.bytes == read.reply.bytes && Balanced(rest)
    ensures Balanced([read, write] + rest)
  {
    SentPassCons(read, write, rest);
    ReceivedPassCons(read, write, rest);
  }

  /** A read and the successful write of its bytes, followed by more calls. */
  lemma SentPassCons(read: Effect, write: Effect, rest: seq<Effect>)
    requires read.Read? && write.Write? && write.result.Success?
    ensures Sent([read, write] + rest) + Unsent([read, write] + rest) ==
            write.bytes + (Sent(rest) + Unsent(rest))
  {
    PassSent(read, write);
    SentConcat([read, write], rest);
    UnsentCons(read, write, rest);
  }

  lemma ReceivedPassCons(read: Effect, write: Effect, rest: seq<Effect>)
    requires read.Read? && read.reply.Data? && write.Write?
    ensures Received([read, write] + rest) == read.reply.bytes + Received(rest)
  {
    PassBytes(read, write);
    ReceivedConcat([read, write], rest);
  }

  lemma UnsentCons(read: Effect, write: Effect, rest: seq<Effect>)
    requires write.Write? && write.result.Success?
    ensures Unsent([read, write] + rest) == Unsent(rest)
  {
    var es := [read, write] + rest;
    if rest != [] {
      assert es[|es| - 1] == rest[|rest| - 1];
    }
  }

  /** Echo fidelity: the loop issues only reads and writes on the client
      descriptor; every write sends exactly the bytes of the read just
      before it, every read that delivered bytes is followed by the write
      that sends them, and so the bytes passed to writes are the bytes received. */
  lemma EchoLoopFidelity(fd: int, steps: seq<IoStep>, k: nat, processed: nat)
    requires processed <= kWorkerBufferSize
    requires k + (kWorkerBufferSize - processed) <= |steps|
    ensures var r := EchoLoop(fd, steps, k, processed);
      Echoed(r.effects) == Received(r.effects) &&
      (forall j :: 0 <= j < |r.effects| ==>
         (r.effects[j].Read? || r.effects[j].Write?) && r.effects[j].fd == fd) &&
      (forall j :: 0 <= j < |r.effects| && r.effects[j].Write? ==>
         0 < j && r.effects[j - 1].Read? && r.effects[j - 1].reply == Data(r.effects[j].bytes)) &&
      (forall j :: 0 <= j < |r.effects| && r.effects[j].Read? && r.effects[j].reply.Data? &&
                   r.effects[j].reply.bytes != [] ==>
         j + 1 < |r.effects| && r.effects[j + 1].Write? && r.effects[j + 1].bytes == r.effects[j].reply.bytes)
  {
    EchoLoopEchoed(fd, steps, k, processed);
    EchoLoopPairs(fd, steps, k, processed);
  }

  /** The bytes the loop's writes send are the bytes its reads delivered. */
  lemma {:induction false} EchoLoopEchoed(fd: int, steps: seq<IoStep>, k: nat, processed: nat)
    requires processed <= kWorkerBufferSize
    requires k + (kWorkerBufferSize - processed) <= |steps|
    ensures var r := EchoLoop(fd, steps, k, processed);
      Echoed(r.effects) == Received(r.effects)
    decreases kWorkerBufferSize - processed
  {
    var r := EchoLoop(fd, steps, k, processed);
    if processed < kWorkerBufferSize {
      var request := kWorkerBufferSize - processed;
      var reply := Deliver(steps[k].read, request);
      var read := Read(fd, request, reply);
      if reply.Data? && |reply.bytes| > 0 {
        var write := Write(fd, reply.bytes, steps[k].write);
        PassBytes(read, write);
        if steps[k].write.Success? {
          var rest := EchoLoop(fd, steps, k + 1, processed + |reply.bytes|);
          EchoLoopEchoed(fd, steps, k + 1, processed + |reply.bytes|);
          assert r.effects == [read, write] + rest.effects;
          ReceivedConcat([read, write], rest.effects);
          EchoedConcat([read, write], rest.effects);
        } else {
          assert r.effects == [read, write];
        }
      } else {
        assert r.effects == [read];
        SingleBytes(read);
      }
    }
  }

  /** Every call in `es` is a read or a write on `fd`. */
  predicate OnlyIoOn(es: seq<Effect>, fd: int)
  {
    forall j :: 0 <= j < |es| ==> (es[j].Read? || es[j].Write?) && es[j].fd == fd
  }

  /** Every write in `es` sends exactly what the read just before it delivered. */
  predicate WritesEchoPrecedingRead(es: seq<Effect>)
  {
    forall j :: 0 <= j < |es| && es[j].Write? ==>
      0 < j && es[j - 1].Read? && es[j - 1].reply == Data(es[j].bytes)
  }

  /** Every read in `es` that delivered bytes is followed by the write of those bytes. */
  predicate ReadsAreEchoed(es: seq<Effect>)
  {
    forall j :: 0 <= j < |es| && es[j].Read? && es[j].reply.Data? && es[j].reply.bytes != [] ==>
      j + 1 < |es| && es[j + 1].Write? && es[j + 1].bytes == es[j].reply.bytes
  }

  /** A read and the write echoing it, put in front of calls that are
      paired, give calls that are paired. */
  lemma PairsCons(fd: int, read: Effect, write: Effect, rest: seq<Effect>)
    requires read.Read? && read.fd == fd && read.reply.Data? && write.Write? && write.fd == fd
    requires read.reply.bytes == write.bytes
    requires OnlyIoOn(rest, fd) && WritesEchoPrecedingRead(rest) && ReadsAreEchoed(rest)
    ensures var es := [read, write] + rest;
      OnlyIoOn(es, fd) && WritesEchoPrecedingRead(es) && ReadsAreEchoed(es)
  {
    var es := [read, write] + rest;
    forall j | 0 <= j < |es| && es[j].Write?
      ensures 0 < j && es[j - 1].Read? && es[j - 1].reply == Data(es[j].bytes)
    {
      if j >= 2 {
        assert es[j] == rest[j - 2];
        if j > 2 {
          assert es[j - 1] == rest[j - 3];
        }
      }
    }
    forall j | 0 <= j < |es| && es[j].Read? && es[j].reply.Data? && es[j].reply.bytes != []
      ensures j + 1 < |es| && es[j + 1].Write? && es[j + 1].bytes == es[j].reply.bytes
    {
      if j >= 2 {
        assert es[j] == rest[j - 2];
        assert es[j + 1] == rest[j - 1];
      }
    }
    forall j | 0 <= j < |es|
      ensures (es[j].Read? || es[j].Write?) && es[j].fd == fd
    {
      if j >= 2 {
        assert es[j] == rest[j - 2];
      }
    }
  }

  /** Every call of the loop is a read or write on `fd`, and reads that
      deliver bytes and the writes that echo them come in adjacent pairs. */
  lemma {:induction false} EchoLoopPairs(fd: int, steps: seq<IoStep>, k: nat, processed: nat)
    requires processed <= kWorkerBufferSize
    requires k + (kWorkerBufferSize - processed) <= |steps|
    ensures var r := EchoLoop(fd, steps, k, processed);
      OnlyIoOn(r.effects, fd) && WritesEchoPrecedingRead(r.effects) && ReadsAreEchoed(r.effects)
    decreases kWorkerBufferSize - processed
  {
    var r := EchoLoop(fd, steps, k, processed);
    if processed < kWorkerBufferSize {
      var request := kWorkerBufferSize - processed;
      var reply := Deliver(steps[k].read, request);
      var read := Read(fd, request, reply);
      if reply.Data? && |reply.bytes| > 0 {
        var write := Write(fd, reply.bytes, steps[k].write);
        if steps[k].write.Success? {
          var rest := EchoLoop(fd, steps, k + 1, processed + |reply.bytes|);
          EchoLoopPairs(fd, steps, k + 1, processed + |reply.bytes|);
          assert r.effects == [read, write] + rest.effects;
          PairsCons(fd, read, write, rest.effects);
        } else {
          assert r.effects == [read, write];
        }
      } else {
        assert r.effects == [read];
      }
    }
  }

  /** How the loop stops: no call fails except possibly the last; it reaches
      the quota with exactly `kWorkerBufferSize` bytes; it sees the peer
      close only on a read that delivered nothing; and it stops on a failed
      call exactly when the last call failed, `EINTR` marking interrupted. */
  lemma EchoLoopExit(fd: int, steps: seq<IoStep>, k: nat, processed: nat)
    requires processed <= kWorkerBufferSize
    requires k + (kWorkerBufferSize - processed) <= |steps|
    ensures var r := EchoLoop(fd, steps, k, processed);
      (forall j :: 0 <= j < |r.effects| - 1 ==> !FailedCall(r.effects[j])) &&
      (r.exit == QuotaReached ==> r.processed == kWorkerBufferSize) &&
      (r.exit == PeerClosed ==>
         r.processed < kWorkerBufferSize && r.effects != [] &&
         r.effects[|r.effects| - 1] == Read(fd, kWorkerBufferSize - r.processed, Data([]))) &&
      ((r.exit == Interrupted || r.exit == IoFailed) <==>
         r.effects != [] && FailedCall(r.effects[|r.effects| - 1])) &&
      (r.exit == Interrupted ==> CallErrno(r.effects[|r.effects| - 1]) == EINTR) &&
      (r.exit == IoFailed ==> CallErrno(r.effects[|r.effects| - 1]) != EINTR)
  {
    EchoLoopFailsLast(fd, steps, k, processed);
    EchoLoopExitAgrees(fd, steps, k, processed);
  }

  /** No call in `es` fails except possibly the last. */
  predicate OnlyLastMayFail(es: seq<Effect>)
  {
    forall j :: 0 <= j < |es| - 1 ==> !FailedCall(es[j])
  }

  lemma FailsLastCons(read: Effect, write: Effect, rest: seq<Effect>)
    requires !FailedCall(read) && !FailedCall(write) && OnlyLastMayFail(rest)
    ensures OnlyLastMayFail([read, write] + rest)
  {
    var es := [read, write] + rest;
    forall j | 2 <= j < |es| - 1
      ensures !FailedCall(es[j])
    {
      assert es[j] == rest[j - 2];
    }
  }

  /** Only the loop's last call can fail. */
  lemma {:induction false} EchoLoopFailsLast(fd: int, steps: seq<IoStep>, k: nat, processed: nat)
    requires processed <= kWorkerBufferSize
    requires k + (kWorkerBufferSize - processed) <= |steps|
    ensures OnlyLastMayFail(EchoLoop(fd, steps, k, processed).effects)
    decreases kWorkerBufferSize - processed
  {
    var r := EchoLoop(fd, steps, k, processed);
    if processed < kWorkerBufferSize {
      var request := kWorkerBufferSize - processed;
      var reply := Deliver(steps[k].read, request);
      var read := Read(fd, request, reply);
      if reply.Data? && |reply.bytes| > 0 && steps[k].write.Success? {
        var write := Write(fd, reply.bytes, steps[k].write);
        var rest := EchoLoop(fd, steps, k + 1, processed + |reply.bytes|);
        EchoLoopFailsLast(fd, steps, k + 1, processed + |reply.bytes|);
        assert r.effects == [read, write] + rest.effects;
        FailsLastCons(read, write, rest.effects);
      }
    }
  }

  /** The way `r` stopped agrees with its calls and bytes. */
  predicate ExitAgrees(fd: int, r: LoopRun)
  {
    (r.exit == QuotaReached ==> r.processed == kWorkerBufferSize) &&
    (r.exit == PeerClosed ==>
       r.processed < kWorkerBufferSize && r.effects != [] &&
       r.effects[|r.effects| - 1] == Read(fd, kWorkerBufferSize - r.processed, Data([]))) &&
    ((r.exit == Interrupted || r.exit == IoFailed) <==>
       r.effects != [] && FailedCall(r.effects[|r.effects| - 1])) &&
    (r.exit == Interrupted ==> CallErrno(r.effects[|r.effects| - 1]) == EINTR) &&
    (r.exit == IoFailed ==> CallErrno(r.effects[|r.effects| - 1]) != EINTR)
  }

  lemma ExitCons(fd: int, read: Effect, write: Effect, rest: LoopRun)
    requires !FailedCall(write) && ExitAgrees(fd, rest)
    ensures ExitAgrees(fd, Prepend([read, write], rest))
  {
    var es := [read, write] + rest.effects;
    if rest.effects != [] {
      assert es[|es| - 1] == rest.effects[|rest.effects| - 1];
    } else {
      assert es[|es| - 1] == write;
    }
  }

  /** The loop's exit agrees with its calls and bytes. */
  lemma {:induction false} EchoLoopExitAgrees(fd: int, steps: seq<IoStep>, k: nat, processed: nat)
    requires processed <= kWorkerBufferSize
    requires k + (kWorkerBufferSize - processed) <= |steps|
    ensures ExitAgrees(fd, EchoLoop(fd, steps, k, processed))
    decreases kWorkerBufferSize - processed
  {
    if processed < kWorkerBufferSize {
      var request := kWorkerBufferSize - processed;
      var reply := Deliver(steps[k].read, request);
      var read := Read(fd, request, reply);
      if reply.Data? && |reply.bytes| > 0 && steps[k].write.Success? {
        var write := Write(fd, reply.bytes, steps[k].write);
        EchoLoopExitAgrees(fd, steps, k + 1, processed + |reply.bytes|);
        ExitCons(fd, read, write, EchoLoop(fd, steps, k + 1, processed + |reply.bytes|));
      }
    }
  }

  /** The loop issues no timer, shutdown, close or INFO call. */
  lemma EchoLoopControlFree(fd: int, steps: seq<IoStep>)
    requires |steps| >= kWorkerBufferSize
    ensures forall e :: e in EchoLoop(fd, steps, 0, 0).effects ==> !IsConnectionControl(e)
  {
    EchoLoopFidelity(fd, steps, 0, 0);
  }

  /** A connection that finishes had its timer armed and disarmed, left the
      loop at the quota or at end of stream, and ends with the closing calls. */
  lemma FinishedShape(fd: int, sc: ConnScript, errno: nat)
    requires WellFormed(sc) && Serve(fd, sc, errno).end.Finished?
    ensures sc.arm.Success? && sc.disarm.Success?
    ensures var loop := EchoLoop(fd, sc.steps, 0, 0);
      (loop.exit == QuotaReached || loop.exit == PeerClosed) &&
      Serve(fd, sc, errno).end.processed == loop.processed &&
      Serve(fd, sc, errno).effects == [Arm(fd)] + loop.effects + Epilogue(fd, sc, errno) &&
      Epilogue(fd, sc, errno)[..3] == [Disarm(fd), Shutdown(fd), Close(fd)] &&
      (|Epilogue(fd, sc, errno)| == 3 || Epilogue(fd, sc, errno) == [Disarm(fd), Shutdown(fd), Close(fd), QuotaInfo(kWorkerBufferSize)])
  {
    ServeShape(fd, sc, errno);
  }

  /** Normal termination: a connection finishes only after the quota is
      reached or a read returns 0; at most `kWorkerBufferSize` bytes were
      processed and all of them were passed to a write. */
  lemma ServeFinished(fd: int, sc: ConnScript, errno: nat)
    requires WellFormed(sc)
    ensures var r := Serve(fd, sc, errno);
      r.end.Finished? ==>
        r.end.processed <= kWorkerBufferSize &&
        r.end.processed == |Received(r.effects)| &&
        Echoed(r.effects) == Received(r.effects) &&
        (r.end.processed == kWorkerBufferSize ||
         Read(fd, kWorkerBufferSize - r.end.processed, Data([])) in r.effects)
  {
    var r := Serve(fd, sc, errno);
    if r.end.Finished? {
      var loop := EchoLoop(fd, sc.steps, 0, 0);
      var epilogue := Epilogue(fd, sc, errno);
      FinishedShape(fd, sc, errno);
      ServeShape(fd, sc, errno);
      EchoLoopQuota(fd, sc.steps, 0, 0);
      EchoLoopFidelity(fd, sc.steps, 0, 0);
      EchoLoopExit(fd, sc.steps, 0, 0);
      ControlFramed(fd, loop.effects, epilogue);
      assert r.effects == [Arm(fd)] + loop.effects + epilogue;
      assert Received(r.effects) == Received(loop.effects);
      if loop.exit == PeerClosed {
        var last := |loop.effects| - 1;
        assert r.effects[1 + last] == loop.effects[last];
      }
    }
  }

  /** Close exactly once: on a normal finish the timer was armed once and
      disarmed once, and the descriptor was then shut down and closed exactly
      once, in that order, as the last calls before the INFO line. */
  lemma ServeClosesOnce(fd: int, sc: ConnScript, errno: nat)
    requires WellFormed(sc)
    ensures var r := Serve(fd, sc, errno);
      r.end.Finished? ==>
        var c := |r.effects| - (if r.effects[|r.effects| - 1].QuotaInfo? then 2 else 1);
        r.effects[0] == Arm(fd) &&
        multiset(r.effects)[Arm(fd)] == 1 &&
        multiset(r.effects)[Disarm(fd)] == 1 &&
        multiset(r.effects)[Shutdown(fd)] == 1 &&
        multiset(r.effects)[Close(fd)] == 1 &&
        3 <= c && r.effects[c - 2..c + 1] == [Disarm(fd), Shutdown(fd), Close(fd)]
  {
    var r := Serve(fd, sc, errno);
    if r.end.Finished? {
      FinishedShape(fd, sc, errno);
      EchoLoopControlFree(fd, sc.steps);
      var loop := EchoLoop(fd, sc.steps, 0, 0).effects;
      var epilogue := Epilogue(fd, sc, errno);
      assert epilogue == [Disarm(fd), Shutdown(fd), Close(fd)] ||
             epilogue == [Disarm(fd), Shutdown(fd), Close(fd), QuotaInfo(kWorkerBufferSize)];
      ClosingCalls(fd, loop, epilogue);
    }
  }

  lemma ClosingCalls(fd: int, loop: seq<Effect>, epilogue: seq<Effect>)
    requires forall e :: e in loop ==> !IsConnectionControl(e)
    requires epilogue == [Disarm(fd), Shutdown(fd), Close(fd)] ||
             epilogue == [Disarm(fd), Shutdown(fd), Close(fd), QuotaInfo(kWorkerBufferSize)]
    ensures var es := [Arm(fd)] + loop + epilogue;
      var c := |es| - (if es[|es| - 1].QuotaInfo? then 2 else 1);
      multiset(es)[Arm(fd)] == 1 &&
      multiset(es)[Disarm(fd)] == 1 &&
      multiset(es)[Shutdown(fd)] == 1 &&
      multiset(es)[Close(fd)] == 1 &&
      3 <= c && es[c - 2..c + 1] == [Disarm(fd), Shutdown(fd), Close(fd)]
  {
    ClosingCounts(fd, loop, epilogue);
    ClosingOrder(fd, loop, epilogue);
  }

  /** The timer, shutdown and close calls each occur once around a loop that issues none. */
  lemma ClosingCounts(fd: int, loop: seq<Effect>, epilogue: seq<Effect>)
    requires forall e :: e in loop ==> !IsConnectionControl(e)
    requires epilogue == [Disarm(fd), Shutdown(fd), Close(fd)] ||
             epilogue == [Disarm(fd), Shutdown(fd), Close(fd), QuotaInfo(kWorkerBufferSize)]
    ensures var es := [Arm(fd)] + loop + epilogue;
      multiset(es)[Arm(fd)] == 1 &&
      multiset(es)[Disarm(fd)] == 1 &&
      multiset(es)[Shutdown(fd)] == 1 &&
      multiset(es)[Close(fd)] == 1
  {
    var es := [Arm(fd)] + loop + epilogue;
    assert Arm(fd) !in loop && Disarm(fd) !in loop;
    assert Shutdown(fd) !in loop;
    assert Close(fd) !in loop;
    assert multiset(es) == multiset([Arm(fd)]) + multiset(loop) + multiset(epilogue);
  }

  /** Disarm, shutdown and close are the last three calls before the INFO line. */
  lemma ClosingOrder(fd: int, loop: seq<Effect>, epilogue: seq<Effect>)
    requires epilogue == [Disarm(fd), Shutdown(fd), Close(fd)] ||
             epilogue == [Disarm(fd), Shutdown(fd), Close(fd), QuotaInfo(kWorkerBufferSize)]
    ensures var es := [Arm(fd)] + loop + epilogue;
      var c := |es| - (if es[|es| - 1].QuotaInfo? then 2 else 1);
      3 <= c && es[c - 2..c + 1] == [Disarm(fd), Shutdown(fd), Close(fd)]
  {
    var pre := [Arm(fd)] + loop;
    var es := pre + epilogue;
    assert es[|es| - 1] == epilogue[|epilogue| - 1];
    var c := |es| - (if es[|es| - 1].QuotaInfo? then 2 else 1);
    assert c == |pre| + 2;
    assert es[c - 2] == epilogue[0] && es[c - 1] == epilogue[1] && es[c] == epilogue[2];
  }

  /** An interrupted read or write abandons the connection: the timer is not
      disarmed and the descriptor is neither shut down nor closed, the last
      call failed with `EINTR`, and errno stays `EINTR`. */
  lemma ServeAbandoned(fd: int, sc: ConnScript, errno: nat)
    requires WellFormed(sc)
    ensures var r := Serve(fd, sc, errno);
      r.end == Abandoned ==>
        Disarm(fd) !in r.effects && Shutdown(fd) !in r.effects && Close(fd) !in r.effects &&
        FailedCall(r.effects[|r.effects| - 1]) && CallErrno(r.effects[|r.effects| - 1]) == EINTR &&
        r.errno == EINTR
  {
    var r := Serve(fd, sc, errno);
    if r.end == Abandoned {
      var loop := EchoLoop(fd, sc.steps, 0, 0);
      EchoLoopExit(fd, sc.steps, 0, 0);
      EchoLoopControlFree(fd, sc.steps);
      assert r.effects == [Arm(fd)] + loop.effects;
      assert r.effects[|r.effects| - 1] == loop.effects[|loop.effects| - 1];
    }
  }

  /** The process ends on a failure to arm the timer or on a read or write
      failing with anything but `EINTR` (`LOG_FATAL`), and on a failure to
      disarm the timer (`exit`); in neither case is the descriptor closed.
      Conversely, a failure to arm always ends the process, and a failed
      read or write abandons the connection when it failed with `EINTR`
      and ends the process otherwise. */
  lemma ServeTerminates(fd: int, sc: ConnScript, errno: nat)
    requires WellFormed(sc)
    ensures var r := Serve(fd, sc, errno);
      (r.end.Fatal? ==>
         Close(fd) !in r.effects &&
         (sc.arm.Failure? ||
          (FailedCall(r.effects[|r.effects| - 1]) && CallErrno(r.effects[|r.effects| - 1]) != EINTR))) &&
      (r.end.Exited? ==>
         Close(fd) !in r.effects && sc.disarm.Failure? && r.effects[|r.effects| - 1] == Disarm(fd))
    ensures sc.arm.Failure? ==> Serve(fd, sc, errno).end.Fatal?
    ensures var r := Serve(fd, sc, errno);
      forall j :: 0 <= j < |r.effects| && FailedCall(r.effects[j]) ==>
        if CallErrno(r.effects[j]) == EINTR then r.end == Abandoned else r.end.Fatal?
  {
    var r := Serve(fd, sc, errno);
    if sc.arm.Success? {
      var loop := EchoLoop(fd, sc.steps, 0, 0);
      EchoLoopExit(fd, sc.steps, 0, 0);
      EchoLoopControlFree(fd, sc.steps);
      if r.end.Fatal? {
        assert r.effects == [Arm(fd)] + loop.effects;
        assert r.effects[|r.effects| - 1] == loop.effects[|loop.effects| - 1];
      }
      FailuresEnd(fd, sc, errno);
    }
  }

  /** Where a connection whose timer was armed has a failed call, that call
      is the loop's last, and it decides the ending. */
  lemma FailuresEnd(fd: int, sc: ConnScript, errno: nat)
    requires WellFormed(sc) && sc.arm.Success?
    ensures var r := Serve(fd, sc, errno);
      forall j :: 0 <= j < |r.effects| && FailedCall(r.effects[j]) ==>
        if CallErrno(r.effects[j]) == EINTR then r.end == Abandoned else r.end.Fatal?
  {
    var r := Serve(fd, sc, errno);
    var loop := EchoLoop(fd, sc.steps, 0, 0);
    var epilogue := Epilogue(fd, sc, errno);
    ServeShape(fd, sc, errno);
    EchoLoopExit(fd, sc.steps, 0, 0);
    var n := |loop.effects|;
    assert r.effects == [Arm(fd)] + loop.effects + epilogue;
    if loop.exit == Interrupted || loop.exit == IoFailed {
      assert r.effects == [Arm(fd)] + loop.effects;
      forall j | 0 <= j < |r.effects| && FailedCall(r.effects[j])
        ensures if CallErrno(r.effects[j]) == EINTR then r.end == Abandoned else r.end.Fatal?
      {
        assert r.effects[0] == Arm(fd);
        assert r.effects[j] == loop.effects[j - 1];
      }
    } else {
      forall j | 0 <= j < |r.effects|
        ensures !FailedCall(r.effects[j])
      {
        if 1 <= j <= n {
          assert r.effects[j] == loop.effects[j - 1];
        } else if n < j {
          assert r.effects[j] == epilogue[j - 1 - n];
          assert epilogue[j - 1 - n] in epilogue;
        }
      }
    }
  }

  /** The INFO line after a normal close is written only when errno is still
      0 after shutdown and close: errno as the connection found it, or as
      those two calls set it. Either way errno is 0 again afterwards. */
  lemma ServeQuotaInfo(fd: int, sc: ConnScript, errno: nat)
    requires WellFormed(sc)
    ensures var r := Serve(fd, sc, errno);
      r.end.Finished? ==>
        r.errno == 0 &&
        (QuotaInfo(kWorkerBufferSize) in r.effects <==> errno == 0 && sc.closeErrno == 0)
  {
    var r := Serve(fd, sc, errno);
    if r.end.Finished? {
      var loop := EchoLoop(fd, sc.steps, 0, 0);
      EchoLoopControlFree(fd, sc.steps);
      assert QuotaInfo(kWorkerBufferSize) !in [Arm(fd)] + loop.effects + [Disarm(fd), Shutdown(fd), Close(fd)];
    }
  }

  /** Whatever the ending, no connection processes more than the quota and
      every byte received is passed to a write. */
  lemma ServeQuotaBound(fd: int, sc: ConnScript, errno: nat)
    requires WellFormed(sc)
    ensures var r := Serve(fd, sc, errno);
      |Received(r.effects)| <= kWorkerBufferSize && Echoed(r.effects) == Received(r.effects)
  {
    if sc.arm.Success? {
      var loop := EchoLoop(fd, sc.steps, 0, 0);
      EchoLoopQuota(fd, sc.steps, 0, 0);
      EchoLoopFidelity(fd, sc.steps, 0, 0);
      ServeShape(fd, sc, errno);
      ControlFramed(fd, loop.effects, Epilogue(fd, sc, errno));
    } else {
      SingleBytes(Arm(fd));
    }
  }

  /** Every byte a connection received was sent back by a successful write,
      except the chunk of a write that failed as its last call; a connection
      that finishes normally sent back every byte it received. */
  lemma ServeSent(fd: int, sc: ConnScript, errno: nat)
    requires WellFormed(sc)
    ensures var r := Serve(fd, sc, errno);
      Sent(r.effects) + Unsent(r.effects) == Received(r.effects) &&
      (r.end.Finished? ==> Sent(r.effects) == Received(r.effects))
  {
    var r := Serve(fd, sc, errno);
    if sc.arm.Success? {
      var loop := EchoLoop(fd, sc.steps, 0, 0);
      var epilogue := Epilogue(fd, sc, errno);
      ServeShape(fd, sc, errno);
      ControlFramed(fd, loop.effects, epilogue);
      ControlFramedSent(fd, loop.effects, epilogue);
      EchoLoopSent(fd, sc.steps, 0, 0);
      assert Unsent(r.effects) == Unsent(loop.effects) by {
        if epilogue == [] {
          assert r.effects == [Arm(fd)] + loop.effects;
          if loop.effects != [] {
            assert r.effects[|r.effects| - 1] == loop.effects[|loop.effects| - 1];
          }
        } else {
          EchoLoopExit(fd, sc.steps, 0, 0);
          assert r.effects[|r.effects| - 1] == epilogue[|epilogue| - 1];
        }
      }
      if r.end.Finished? {
        EchoLoopExit(fd, sc.steps, 0, 0);
        assert Unsent(loop.effects) == [];
        assert Sent(loop.effects) + [] == Sent(loop.effects);
      }
    } else {
      SingleBytes(Arm(fd));
      SingleSent(Arm(fd));
    }
  }

  lemma {:induction false} NoIoBytes(es: seq<Effect>)
    requires forall e :: e in es ==> IsConnectionControl(e)
    ensures Received(es) == [] && Echoed(es) == []
    decreases |es|
  {
    if es != [] {
      assert es[0] in es;
      assert forall e :: e in es[1..] ==> e in es;
      NoIoBytes(es[1..]);
    }
  }

  lemma {:induction false} NoIoSent(es: seq<Effect>)
    requires forall e :: e in es ==> IsConnectionControl(e)
    ensures Sent(es) == []
    decreases |es|
  {
    if es != [] {
      assert es[0] in es;
      assert forall e :: e in es[1..] ==> e in es;
      NoIoSent(es[1..]);
    }
  }

  /** A worker serves the descriptors of its pipe strictly in pipe order,
      the j-th with the errno the (j-1)-th left; it goes on to the next one
      only after a normal close or an abandonment; and it stops early only
      when reading its pipe fails or a connection ends the process. */
  lemma RunWorkerOrder(inbox: seq<int>, scripts: seq<ConnScript>, errno: nat)
    requires |scripts| == |inbox| && AllWellFormed(scripts)
    ensures var w := RunWorker(inbox, scripts, errno);
      var n := |w.runs|;
      n <= |inbox| &&
      (forall j :: 0 <= j < n ==>
         scripts[j].take.Success? &&
         w.runs[j] == Serve(inbox[j], scripts[j], if j == 0 then errno else w.runs[j - 1].errno)) &&
      (forall j :: 0 <= j < n - 1 ==> w.runs[j].end.Finished? || w.runs[j].end == Abandoned) &&
      (!w.halted ==> n == |inbox| && (n > 0 ==> !w.runs[n - 1].end.Fatal? && !w.runs[n - 1].end.Exited?)) &&
      (w.halted ==>
         (n < |inbox| && scripts[n].take.Failure?) ||
         (n > 0 && (w.runs[n - 1].end.Fatal? || w.runs[n - 1].end.Exited?)))
  {
    var w := RunWorker(inbox, scripts, errno);
    RunWorkerServes(inbox, scripts, errno);
    RunWorkerEnds(inbox, scripts, errno);
    forall j | 0 <= j < |w.runs|
      ensures ErrnoBefore(errno, w.runs, j) == if j == 0 then errno else w.runs[j - 1].errno
    {
    }
  }

  lemma TailWellFormed(scripts: seq<ConnScript>)
    requires scripts != [] && AllWellFormed(scripts)
    ensures AllWellFormed(scripts[1..])
  {
    forall i | 0 <= i < |scripts[1..]| ensures WellFormed(scripts[1..][i]) {
      assert scripts[1..][i] == scripts[i + 1];
    }
  }

  /** The errno the j-th run starts with: the worker's own before the first
      run, and the one the run before left otherwise. */
  function ErrnoBefore(errno: nat, runs: seq<ConnRun>, j: nat): nat
    requires j <= |runs|
  {
    if j == 0 then errno else runs[j - 1].errno
  }

  /** The j-th run serves the j-th descriptor of the pipe with its own
      script and with the errno the run before it left. */
  predicate ServesInOrder(inbox: seq<int>, scripts: seq<ConnScript>, errno: nat, runs: seq<ConnRun>)
    requires |scripts| == |inbox| && AllWellFormed(scripts) && |runs| <= |inbox|
  {
    forall j :: 0 <= j < |runs| ==>
      scripts[j].take.Success? && runs[j] == Serve(inbox[j], scripts[j], ErrnoBefore(errno, runs, j))
  }

  lemma ServesCons(inbox: seq<int>, scripts: seq<ConnScript>, errno: nat, r: ConnRun, rest: seq<ConnRun>)
    requires |scripts| == |inbox| && inbox != [] && AllWellFormed(scripts) && |rest| < |inbox|
    requires scripts[0].take.Success? && r == Serve(inbox[0], scripts[0], errno)
    requires AllWellFormed(scripts[1..]) && ServesInOrder(inbox[1..], scripts[1..], r.errno, rest)
    ensures ServesInOrder(inbox, scripts, errno, [r] + rest)
  {
    var runs := [r] + rest;
    forall j | 1 <= j < |runs|
      ensures scripts[j].take.Success?
      ensures runs[j] == Serve(inbox[j], scripts[j], ErrnoBefore(errno, runs, j))
    {
      var i := j - 1;
      assert runs[j] == rest[i];
      assert inbox[j] == inbox[1..][i] && scripts[j] == scripts[1..][i];
      assert ErrnoBefore(errno, runs, j) == ErrnoBefore(r.errno, rest, i);
    }
  }

  /** A worker serves its pipe's descriptors strictly in order. */
  lemma {:induction false} RunWorkerServes(inbox: seq<int>, scripts: seq<ConnScript>, errno: nat)
    requires |scripts| == |inbox| && AllWellFormed(scripts)
    ensures ServesInOrder(inbox, scripts, errno, RunWorker(inbox, scripts, errno).runs)
    decreases |inbox|
  {
    if inbox != [] && scripts[0].take.Success? {
      var r := Serve(inbox[0], scripts[0], errno);
      TailWellFormed(scripts);
      if !r.end.Fatal? && !r.end.Exited? {
        var rest := RunWorker(inbox[1..], scripts[1..], r.errno);
        RunWorkerServes(inbox[1..], scripts[1..], r.errno);
        ServesCons(inbox, scripts, errno, r, rest.runs);
      } else {
        ServesCons(inbox, scripts, errno, r, []);
      }
    }
  }

  /** Every run but the last ended normally or was abandoned, and the worker
      halted exactly when its pipe read failed or its last run ended the process. */
  predicate EndsAgree(inbox: seq<int>, scripts: seq<ConnScript>, w: WorkerRun)
    requires |scripts| == |inbox|
  {
    var n := |w.runs|;
    n <= |inbox| &&
    (forall j :: 0 <= j < n - 1 ==> w.runs[j].end.Finished? || w.runs[j].end == Abandoned) &&
    (!w.halted ==> n == |inbox| && (n > 0 ==> !w.runs[n - 1].end.Fatal? && !w.runs[n - 1].end.Exited?)) &&
    (w.halted ==>
       (n < |inbox| && scripts[n].take.Failure?) ||
       (n > 0 && (w.runs[n - 1].end.Fatal? || w.runs[n - 1].end.Exited?)))
  }

  lemma EndsCons(inbox: seq<int>, scripts: seq<ConnScript>, r: ConnRun, rest: WorkerRun)
    requires |scripts| == |inbox| && inbox != []
    requires r.end.Finished? || r.end == Abandoned
    requires EndsAgree(inbox[1..], scripts[1..], rest)
    ensures EndsAgree(inbox, scripts, WorkerRun([r] + rest.runs, rest.halted))
  {
    var runs := [r] + rest.runs;
    forall j | 1 <= j < |runs| - 1
      ensures runs[j].end.Finished? || runs[j].end == Abandoned
    {
      assert runs[j] == rest.runs[j - 1];
    }
    if |rest.runs| > 0 {
      assert runs[|runs| - 1] == rest.runs[|rest.runs| - 1];
    }
    if |rest.runs| < |inbox| - 1 {
      assert scripts[|runs|] == scripts[1..][|rest.runs|];
    }
  }

  /** A worker goes on only after a normal close or an abandonment, and
      stops early only when its pipe read fails or a run ends the process. */
  lemma {:induction false} RunWorkerEnds(inbox: seq<int>, scripts: seq<ConnScript>, errno: nat)
    requires |scripts| == |inbox| && AllWellFormed(scripts)
    ensures EndsAgree(inbox, scripts, RunWorker(inbox, scripts, errno))
    decreases |inbox|
  {
    if inbox != [] && scripts[0].take.Success? {
      var r := Serve(inbox[0], scripts[0], errno);
      if !r.end.Fatal? && !r.end.Exited? {
        TailWellFormed(scripts);
        RunWorkerEnds(inbox[1..], scripts[1..], r.errno);
        EndsCons(inbox, scripts, r, RunWorker(inbox[1..], scripts[1..], r.errno));
      }
    }
  }

  /** errno is not reset when a connection is abandoned, so the connection
      a worker serves right after an abandoned one never writes the INFO line. */
  lemma RunWorkerNoInfoAfterAbandon(inbox: seq<int>, scripts: seq<ConnScript>)
    requires |scripts| == |inbox| && AllWellFormed(scripts)
    ensures var w := RunWorker(inbox, scripts, 0);
      forall j :: 0 < j < |w.runs| && w.runs[j - 1].end == Abandoned ==>
        QuotaInfo(kWorkerBufferSize) !in w.runs[j].effects
  {
    var w := RunWorker(inbox, scripts, 0);
    RunWorkerServes(inbox, scripts, 0);
    forall j | 0 < j < |w.runs| && w.runs[j - 1].end == Abandoned
      ensures QuotaInfo(kWorkerBufferSize) !in w.runs[j].effects
    {
      assert WellFormed(scripts[j - 1]) && WellFormed(scripts[j]);
      ServeAbandoned(inbox[j - 1], scripts[j - 1], ErrnoBefore(0, w.runs, j - 1));
      NoInfoWhenErrnoSet(inbox[j], scripts[j], w.runs[j - 1].errno);
    }
  }

  /** A connection served first, or right after a normal close, whose
      shutdown and close succeed writes the INFO line. */
  lemma RunWorkerInfoAfterClose(inbox: seq<int>, scripts: seq<ConnScript>)
    requires |scripts| == |inbox| && AllWellFormed(scripts)
    ensures var w := RunWorker(inbox, scripts, 0);
      forall j :: 0 <= j < |w.runs| && w.runs[j].end.Finished? && scripts[j].closeErrno == 0 &&
                  (j == 0 || w.runs[j - 1].end.Finished?) ==>
        QuotaInfo(kWorkerBufferSize) in w.runs[j].effects
  {
    var w := RunWorker(inbox, scripts, 0);
    RunWorkerServes(inbox, scripts, 0);
    forall j | 0 <= j < |w.runs| && w.runs[j].end.Finished? && scripts[j].closeErrno == 0 &&
               (j == 0 || w.runs[j - 1].end.Finished?)
      ensures QuotaInfo(kWorkerBufferSize) in w.runs[j].effects
    {
      assert WellFormed(scripts[j]);
      if j > 0 {
        assert WellFormed(scripts[j - 1]);
        ServeQuotaInfo(inbox[j - 1], scripts[j - 1], ErrnoBefore(0, w.runs, j - 1));
      }
      ServeQuotaInfo(inbox[j], scripts[j], ErrnoBefore(0, w.runs, j));
    }
  }

  /** With errno already set when the connection starts, no INFO line is written. */
  lemma NoInfoWhenErrnoSet(fd: int, sc: ConnScript, errno: nat)
    requires WellFormed(sc) && errno != 0
    ensures QuotaInfo(kWorkerBufferSize) !in Serve(fd, sc, errno).effects
  {
    var r := Serve(fd, sc, errno);
    if sc.arm.Success? {
      var loop := EchoLoop(fd, sc.steps, 0, 0);
      EchoLoopControlFree(fd, sc.steps);
      assert QuotaInfo(kWorkerBufferSize) !in [Arm(fd)] + loop.effects + [Disarm(fd), Shutdown(fd), Close(fd)];
    }
  }
}
