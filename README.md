# Synchronous echo server (Linux): per-thread logic

This project models the sequential per-thread logic of the Linux
synchronous variant of the echo server in `echo-server/linux/src/server/server.c`.
Every system call's result is an input to the model: the kernel's answers
are sequences of `SysResult`, `ReadReply` or fully scripted steps. So each
thread's behaviour is a function of those answers, or an imperative method
proved equal to such a function.

The model has four parts, and a fifth module, `Pipeline`, connects the
dispatcher's queues to the order in which each worker serves them.

- **Listening sockets** (`ServerSockets`).
  - `CreateSocket` opens a stream socket, binds it to a loopback port and
    starts listening with a backlog of 5, stopping at the first call that fails.
  - `Server.InitializeServerSockets` fills the server's table of
    `SERVER_SOCKETS_COUNT` = 10 descriptors in place, slot `i` on port 10000 + i.
    It returns -1 at the first slot that fails; that slot then holds -1 and
    later slots are never written.
  - All the failure codes involved are -1, so a failed bind or listen is
    caught by the `kSocketFailed` comparison.
- **Client socket flags** (`ClientSocket`).
  - `ConfigureClientSocket` reads the descriptor's status flags, ORs in
    `O_NONBLOCK` and writes them back.
  - Either fcntl failing yields `kFcntlFailed` and leaves the flags as they were.
- **Worker** (`Worker`, `WorkerProperties`).
  - A worker takes descriptors from its pipe one at a time and arms the
    connection timer.
  - It echoes what it reads into a 16-byte buffer, each read asking for what
    remains of the 16-byte quota.
  - It stops at the quota or at end of stream. It then disarms the timer,
    shuts the descriptor down and closes it, and writes the INFO line if errno is still 0.
  - An interrupted read or write (`EINTR`, the effect of the timer's signal)
    abandons the connection. It neither disarms the timer nor closes the
    descriptor, and errno stays `EINTR`.
  - Any other failure, or a failure to arm the timer, ends the process
    (`LOG_FATAL`). A failure to disarm the timer ends it through `exit`.
  - The model records each call as an `Effect`. The specification functions
    are `EchoLoop`, `Serve` and `RunWorker`. The methods `EchoPass`,
    `EchoPasses`, `ServeConnection` and `WorkerFunction` mirror the C loops
    (the `goto NEXT_CLIENT` restarts become early exits) and are proved equal to them.
- **Dispatcher** (`ControlBlock`).
  - The control block reads descriptors from its input pipe in order.
  - It writes each one to worker `current_worker_id++ & 3`, with the cursor
    an `unsigned` that wraps modulo 2^32.
  - A write failing with `EAGAIN` sheds the descriptor; it is shut down and
    closed, and a warning is logged. Any other failure, and a failed read of
    the input pipe, ends the process.
  - The class `Dispatcher` holds the cursor and the four worker pipes as FIFO
    queues. Its methods are proved equal to the functions `Step` and `Run`.
  - `Assigned` and `Shed` describe routing on unbounded integers, and the
    lemmas connect the two. The k-th descriptor goes to worker k mod 4; a
    worker receives nothing else, in dispatch order; wrap-around never skips
    a worker; and the cursor advances once per descriptor read.

### Behaviour that follows the code

- The worker does not reset errno when it abandons a connection. The next
  connection it serves therefore never writes the INFO line, even when its
  shutdown and close succeed (`WorkerProperties.RunWorkerNoInfoAfterAbandon`).
  So the quota message does not follow every completed connection.
- The INFO line always reports `kWorkerBufferSize`, also when the peer
  closed before 16 bytes.
- On an `EINTR` abandonment the worker's own loop writes no log line; it
  moves straight on to the next descriptor. The warning logged by the
  SIGUSR1 handler is not part of the worker and is left out.
- Taking a successful write to send its whole chunk (see "Left out"), a
  connection sends back every byte it received except the chunk of a write
  that failed as its last call (`WorkerProperties.ServeSent`).

## Model

| member | source | states |
|---|---|---|
| ServerSockets.CreateSocket | echo-server/linux/src/server/server.c:44-64 | The result is -1 exactly when one of socket, bind and listen fails. Otherwise it is the descriptor socket(2) gave, after the calls socket, bind(fd, port) and listen(fd, 5). Exactly the calls up to the first failure are issued, and no call binds another port. |
| ServerSockets.IssuedCallsBindSlots | echo-server/linux/src/server/server.c:76-84 | Over slots 0..n-1, every slot that sets up binds its own descriptor to port 10000 + i and listens on it. No call binds a port outside 10000..10000+n-1. |
| ServerSockets.Server.InitializeServerSockets | echo-server/linux/src/server/server.c:66-88 | The result is 0 or -1, and 0 exactly when every slot sets up. Slots before the first failure hold their descriptors, bound to 10000 + i and listening. The failing slot holds -1 and later slots keep their old contents. The calls issued are exactly those of slots 0..first-failure. |
| ClientSocket.WithNonBlocking | echo-server/linux/src/server/server.c:144 | The new flag word has `O_NONBLOCK` set and keeps every flag of the old word. |
| ClientSocket.NonBlockingAddsNothingElse | echo-server/linux/src/server/server.c:144 | The new flag word holds no bit but the old flags and `O_NONBLOCK`. A word that already has `O_NONBLOCK` is unchanged, and configuring twice equals configuring once. |
| ClientSocket.ConfigureClientSocket | echo-server/linux/src/server/server.c:133-153 | It returns 0 or `kFcntlFailed`, and 0 exactly when F_GETFL succeeds with a word other than -1 and F_SETFL succeeds. On success the flags become old OR `O_NONBLOCK`; on failure they are unchanged. |
| Worker.EchoLoop | echo-server/linux/src/server/server.c:240-281 | However the inner loop ends, its final byte count never exceeds the 16-byte quota (the lower bound is in `WorkerProperties.EchoLoopProcessed`). |
| Worker.Serve | echo-server/linux/src/server/server.c:227-303 | Every connection starts by arming the timer on its descriptor, whatever happens after. |
| Worker.Deliver | echo-server/linux/src/server/server.c:243 | A read never delivers more than the bytes asked for. It delivers a prefix of what the socket holds, and everything when that fits. A failure is passed on as it is. |
| Worker.RunWorker | echo-server/linux/src/server/server.c:211-214 | A worker serves at most one connection per descriptor in its pipe. |
| Worker.FillBuffer | echo-server/linux/src/server/server.c:243 | After the read, the front of the buffer holds exactly the bytes delivered, and the rest of the buffer is unchanged. |
| Worker.EchoPass | echo-server/linux/src/server/server.c:243-280 | One pass of the inner loop never takes the byte count past 16. When it stops the loop, it yields the loop's whole remaining result. Otherwise it delivered at least one byte, and the loop's result is this pass's calls followed by the rest of the loop. |
| Worker.EchoPasses | echo-server/linux/src/server/server.c:240-281 | The inner loop over the 16-byte buffer produces exactly the calls, exit reason and byte count of `EchoLoop`. |
| Worker.ServeConnection | echo-server/linux/src/server/server.c:227-303 | Serving one connection (arm, echo loop, disarm, shutdown, close, INFO line) yields exactly `Serve`'s calls, ending and errno. |
| Worker.WorkerFunction | echo-server/linux/src/server/server.c:211-304 | The worker thread's outer loop yields exactly `RunWorker`'s runs, errno being 0 at thread start. |
| WorkerProperties.EchoLoopQuota | echo-server/linux/src/server/server.c:240-264 | Quota bound: `processed_bytes` never exceeds 16 and equals the bytes the reads delivered. Every read asks for 16 minus what came before and gets no more than it asked for. |
| WorkerProperties.EchoLoopProcessed | echo-server/linux/src/server/server.c:240-264 | The final `processed_bytes` lies between its start and 16, and is the start plus the bytes the reads delivered. |
| WorkerProperties.EchoLoopRequests | echo-server/linux/src/server/server.c:243 | Every read asks for exactly what remains of the quota and gets no more. |
| WorkerProperties.EchoLoopFidelity | echo-server/linux/src/server/server.c:243-265 | Echo fidelity: the loop issues only reads and writes on the client descriptor. Every write sends exactly the bytes the read just before it delivered, and every read that delivered bytes is followed by their write. So the bytes passed to writes equal the bytes received. |
| WorkerProperties.EchoLoopEchoed | echo-server/linux/src/server/server.c:264-265 | The concatenated bytes passed to the writes, failed or not, equal the concatenated bytes of the reads. |
| WorkerProperties.EchoLoopPairs | echo-server/linux/src/server/server.c:243-265 | Only reads and writes on the descriptor, with each write echoing the read right before it and each non-empty read echoed right after. |
| WorkerProperties.EchoLoopExit | echo-server/linux/src/server/server.c:241-281 | Only the last call can fail. The quota exit has exactly 16 bytes, and end of stream is a last read that delivered nothing. The loop stops on a failure exactly when its last call failed, `EINTR` marking an interruption and any other errno a fatal error. |
| WorkerProperties.EchoLoopFailsLast | echo-server/linux/src/server/server.c:244-280 | No call of the loop fails except possibly the last. |
| WorkerProperties.EchoLoopExitAgrees | echo-server/linux/src/server/server.c:241-281 | The loop's exit reason agrees with its last call and byte count, as in `EchoLoopExit`. |
| WorkerProperties.EchoLoopControlFree | echo-server/linux/src/server/server.c:240-281 | The inner loop issues no timer, shutdown, close or INFO call. |
| WorkerProperties.FinishedShape | echo-server/linux/src/server/server.c:240-303 | A connection that finishes was armed and disarmed, and left the loop at the quota or at end of stream. Its calls are arm, the loop, disarm, shutdown, close and possibly the INFO line. |
| WorkerProperties.ServeFinished | echo-server/linux/src/server/server.c:240-290 | Normal termination happens only at 16 bytes or after a read that delivered nothing. At most 16 bytes were processed, and all of them were passed to writes. |
| WorkerProperties.ServeClosesOnce | echo-server/linux/src/server/server.c:283-290 | On the normal path the connection starts with the arm. Arm, disarm, shutdown and close each occur exactly once, and disarm, shutdown and close are the last calls before the INFO line. |
| WorkerProperties.ServeAbandoned | echo-server/linux/src/server/server.c:244-271 | An abandoned connection neither disarmed the timer nor was shut down or closed. Its last call failed with `EINTR`, and errno stays `EINTR`. |
| WorkerProperties.ServeTerminates | echo-server/linux/src/server/server.c:227-287 | A failure to arm the timer always ends the process. A failed read or write abandons the connection when it failed with `EINTR`, and ends the process otherwise. Conversely, a process-ending run either failed to arm or ended in a read or write failing with errno other than `EINTR`, or its last call is a failed disarm, which ends it through `exit`. In none of these is the descriptor closed. |
| WorkerProperties.ServeQuotaInfo | echo-server/linux/src/server/server.c:289-303 | A normal close leaves errno 0: the code resets it when it is set, and otherwise it is still 0. The INFO line is written exactly when errno was 0 at the start and shutdown and close set none. |
| WorkerProperties.ServeQuotaBound | echo-server/linux/src/server/server.c:240-281 | Whatever the ending, a connection receives at most 16 bytes and passes every byte it received to a write. |
| WorkerProperties.EchoLoopSent | echo-server/linux/src/server/server.c:243-280 | The bytes of the loop's successful writes, followed by those of a write that failed as its last call, are exactly the bytes its reads delivered. |
| WorkerProperties.ServeSent | echo-server/linux/src/server/server.c:240-290 | Every byte a connection received was sent back by a successful write, except the chunk of a write that failed as its last call. A connection that finishes normally sent back all it received. |
| WorkerProperties.RunWorkerOrder | echo-server/linux/src/server/server.c:211-225 | A worker serves its descriptors strictly in pipe order, each with the errno the previous one left. It moves on only after a normal close or an abandonment, and stops early only when its pipe read fails or a connection ends the process. |
| WorkerProperties.RunWorkerServes | echo-server/linux/src/server/server.c:211-214 | The j-th run serves the j-th descriptor with its own script and the errno the (j-1)-th run left. |
| WorkerProperties.RunWorkerEnds | echo-server/linux/src/server/server.c:211-225 | Every run but the last ended normally or was abandoned. The worker halts exactly when its pipe read fails or its last run ended the process. |
| WorkerProperties.RunWorkerNoInfoAfterAbandon | echo-server/linux/src/server/server.c:292-296 | A connection served right after an abandoned one never writes the INFO line. |
| WorkerProperties.RunWorkerInfoAfterClose | echo-server/linux/src/server/server.c:292-303 | A connection served first, or after a normal close, that finishes with shutdown and close succeeding writes the INFO line. |
| WorkerProperties.NoInfoWhenErrnoSet | echo-server/linux/src/server/server.c:292-296 | With errno already set when a connection starts, no INFO line is written. |
| ControlBlock.MaskIsMod | echo-server/linux/src/server/server.c:395 | `x & 3` equals x mod 4. |
| ControlBlock.WrapKeepsRotation | echo-server/linux/src/server/server.c:378-395 | When the 32-bit cursor increments, with wrap-around, the masked worker index moves to the next worker modulo 4. |
| ControlBlock.Step | echo-server/linux/src/server/server.c:383-416 | One pass of the routing loop keeps the state valid, changes nothing once the process has ended, and otherwise advances the 32-bit cursor by one with wrap-around for every descriptor read. |
| ControlBlock.Run | echo-server/linux/src/server/server.c:380-417 | The routing loop keeps the state valid, and nothing changes once the process has ended. |
| ControlBlock.AssignedContains | echo-server/linux/src/server/server.c:395 | Every descriptor read before the first fatal arrival whose write succeeded is among those of worker (start + j) mod 4, j being its position. |
| ControlBlock.AssignedOnly | echo-server/linux/src/server/server.c:395 | A worker receives only descriptors read before the first fatal arrival, at a position j with (start + j) mod 4 equal to it, whose write succeeded. |
| ControlBlock.FatalStep | echo-server/linux/src/server/server.c:383-409 | A failed read or a write failing with errno other than `EAGAIN` ends the process with queues and shed list unchanged. A failed write still advanced the cursor. |
| ControlBlock.NonFatalCursor | echo-server/linux/src/server/server.c:395 | A descriptor that does not end the process advances the cursor by one modulo 2^32, to the next worker in the rotation. |
| ControlBlock.NonFatalQueue | echo-server/linux/src/server/server.c:395 | A descriptor whose write succeeds is appended to the queue of worker cursor mod 4, and the other queues are unchanged. |
| ControlBlock.NonFatalShed | echo-server/linux/src/server/server.c:406-415 | A descriptor whose write fails with `EAGAIN` is appended to the shed list, and routing continues. |
| ControlBlock.RunRoundRobin | echo-server/linux/src/server/server.c:377-417 | From any state, the loop ends the process exactly when some arrival is fatal. The cursor advances once per descriptor read, modulo 2^32. Each worker's queue grows by exactly its round-robin share of the successfully written descriptors, in read order, and the shed list by exactly the `EAGAIN` descriptors. |
| ControlBlock.RunFatal | echo-server/linux/src/server/server.c:384-409 | The loop ends the process exactly when some arrival is fatal. |
| ControlBlock.RunCursor | echo-server/linux/src/server/server.c:378-395 | The cursor advances by the number of descriptors read, modulo 2^32, whether or not their writes succeed. |
| ControlBlock.RunQueue | echo-server/linux/src/server/server.c:395 | Worker w's pipe grows by exactly the descriptors routed to it, in dispatch order (FIFO). |
| ControlBlock.CursorFromStart | echo-server/linux/src/server/server.c:378-395 | From the start, the cursor equals the number of arrivals before the first fatal one, plus one when that one is a failed write, modulo 2^32. |
| ControlBlock.RunShed | echo-server/linux/src/server/server.c:396-416 | The shed list grows by exactly the descriptors whose write failed with `EAGAIN`, in order. |
| ControlBlock.Initial | echo-server/linux/src/server/server.c:378 | Routing starts with cursor 0, four empty pipes and nothing shed. |
| ControlBlock.RoutesToKModFour | echo-server/linux/src/server/server.c:378-395 | From the start, the descriptor read at position k (0-based, counting every descriptor read, also those shed), when its write succeeds, is in worker k mod 4's pipe. |
| ControlBlock.RoutesOnlyKModFour | echo-server/linux/src/server/server.c:348-395 | From the start, worker w's pipe holds only descriptors read at positions j with j mod 4 = w whose write succeeded. |
| ControlBlock.Dispatcher.constructor | echo-server/linux/src/server/server.c:378 | A new dispatcher is in the initial routing state. |
| ControlBlock.Dispatcher.Route | echo-server/linux/src/server/server.c:383-416 | One pass of the routing loop changes the dispatcher's state exactly as `Step` does. |
| ControlBlock.Dispatcher.RouteAll | echo-server/linux/src/server/server.c:380-417 | The routing loop over the arrivals changes the state exactly as `Run` does. |
| Pipeline.DispatchOrder | echo-server/linux/src/server/server.c:211-214 | The worker's pipe holds exactly its round-robin share of the descriptors, and the j-th connection the worker serves is the j-th of them, in dispatch order. |
| Pipeline.ServedOrigin | echo-server/linux/src/server/server.c:211-214 | Every descriptor a worker serves was read by the dispatcher at a position congruent to the worker's index modulo 4, before any fatal arrival, and its pipe write succeeded. |

## Left out

- `echo-server/linux/src/main.c` is not part of this model: epoll set-up and
  the accept loop, the start-up semaphore and signal-handler registration.
  The SIGUSR1 handler shuts down and closes whatever descriptor the worker
  holds. Its effect on the worker is modelled only as a read or write
  failing with `EINTR`, not as a race on the descriptor.
- Timer creation and the 3-second deadline (server.c:176-209) are clocks. Arming
  and disarming are modelled as calls whose success is an input.
- Pipe creation, `malloc`, thread creation and the start-up semaphore post in
  `ControlBlockFunction` (server.c:313-375) are resource set-up, not routing.
- `RegisterServerSockets` (epoll registration) and `PrintServerInitInfo`
  (output only) are I/O plumbing and are not modelled.
- The logger's formatting and the text of every log message are not modelled.
  `LOG_FATAL` is modelled as the end of the process, and the INFO line as a
  `QuotaInfo` effect.
- Short writes are not modelled: a successful write is taken to send what it
  was given, as the code assumes.
- A read of a pipe that returns fewer than `sizeof(int)` bytes, for example
  0 at end of file, is not modelled. A pipe read either yields a whole
  descriptor or fails.
- Worker.Deliver: a read's reply longer than the request is cut to the
  request. This is the kernel's guarantee, modelled as an assumption rather
  than derived.
- Worker.WellFormed: each scripted connection supplies at least 16 loop
  passes. Every pass but the last delivers at least one byte, so the script
  never runs out; it is not a restriction on the server.
- Worker.Serve: after `LOG_FATAL` on a failed read or write, the run keeps the
  errno the connection started with rather than the failing call's. The
  process ends there, so no later code reads it.
- Worker.Serve: after the INFO line is written, errno is taken to stay 0.
  The code does not reset it on that path; the model assumes that `snprintf`
  and the logger's `time`, `localtime_r`, `strftime` and `printf` leave errno
  untouched.
- The descriptor obtained before a failing bind or listen is not closed by
  `CreateSocket`. The model records the calls issued but not descriptor
  leaks.
- A shed descriptor's shutdown, close and warning are recorded only as its
  entry in `shed`.
- The worker pipes are created by a plain `pipe()` (server.c:317), and
  nothing makes them non-blocking. So a write to a full pipe blocks the
  dispatcher rather than failing with `EAGAIN`. The shedding branch is
  modelled as written, but it cannot arise from blocking pipes; blocking is
  not modelled.
- `ConfigureClientSocket` is not called by any of the server's code. It is
  modelled on its own.
