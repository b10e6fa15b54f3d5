/** The steady-state routing loop of the control block
    (`ControlBlockFunction`): it reads client descriptors from its input
    pipe in order and writes each to the pipe of worker
    `current_worker_id++ & 3`. A write that fails with `EAGAIN` sheds the
    connection (shut down, closed, and a warning logged); any other failure,
    and a failed read of the input pipe, ends the process.

    The four worker pipes are modelled as FIFO queues of descriptors and
    the cursor as a 32-bit unsigned counter. The kernel's answers to the
    reads and writes are inputs. */
module ControlBlock {
  import opened Errors

  const kWorkersCount: nat := 4

  /** 2^32: `current_worker_id` is an `unsigned`, so `++` wraps modulo this. */
  const U32: nat := 0x1_0000_0000

  /** Bitwise AND of two naturals, bit by bit from the least significant. */
  function BitAnd(a: nat, b: nat): nat
    decreases a
  {
    if a == 0 || b == 0 then 0
    else 2 * BitAnd(a / 2, b / 2) + (if a % 2 == 1 && b % 2 == 1 then 1 else 0)
  }

  /** Masking with 3 keeps the two low bits, that is, the value modulo 4. */
  lemma MaskIsMod(x: nat)
    ensures BitAnd(x, 3) == x % 4
  {
    if x != 0 {
      assert BitAnd(x / 2, 1) == (x / 2) % 2 by {
        if x / 2 != 0 {
          assert BitAnd(x / 4, 0) == 0;
        }
      }
    }
  }

  /** Because 4 divides 2^32, wrapping the counter around never skips a
      worker: the worker after the one for `x` is the next one modulo 4. */
  lemma WrapKeepsRotation(x: nat)
    requires x < U32
    ensures BitAnd((x + 1) % U32, 3) == (BitAnd(x, 3) + 1) % kWorkersCount
  {
    MaskIsMod(x);
    MaskIsMod((x + 1) % U32);
    WrapMod(x);
    SuccMod(x);
  }

  lemma SuccMod(x: nat)
    ensures (x % kWorkersCount + 1) % kWorkersCount == (x + 1) % kWorkersCount
  {
    var q := x / kWorkersCount;
    assert x == kWorkersCount * q + x % kWorkersCount;
    assert x + 1 == kWorkersCount * q + (x % kWorkersCount + 1);
  }

  /** Incrementing modulo 2^32 agrees with incrementing modulo 4. */
  lemma WrapMod(x: nat)
    requires x < U32
    ensures ((x + 1) % U32) % kWorkersCount == (x + 1) % kWorkersCount
  {
    if x + 1 == U32 {
      assert (x + 1) % U32 == 0;
    } else {
      assert (x + 1) % U32 == x + 1;
    }
  }

  /** Incrementing modulo 2^32 and then adding `n` is adding `n + 1`. */
  lemma WrapAdd(x: nat, n: nat)
    requires x < U32
    ensures ((x + 1) % U32 + n) % U32 == (x + n + 1) % U32
  {
    if x + 1 == U32 {
      assert (x + 1) % U32 == 0;
      assert x + n + 1 == n + U32;
    } else {
      assert (x + 1) % U32 == x + 1;
    }
  }

  /** What happens to one descriptor: it was read from the input pipe, and
      `forward` is the kernel's answer to writing it to the chosen worker's
      pipe; or the read of the input pipe failed. */
  datatype Arrival = Arrived(fd: int, forward: SysResult) | ReadFailed(errno: nat)

  /** The routing state: the cursor, every descriptor written to each
      worker's pipe (oldest first), the
      descriptors shed after `EAGAIN`, and whether `LOG_FATAL` was reached. */
  datatype Dispatch = Dispatch(cursor: nat, queues: seq<seq<int>>, shed: seq<int>, fatal: bool)

  predicate ValidDispatch(d: Dispatch)
  {
    d.cursor < U32 && |d.queues| == kWorkersCount
  }

  /** One pass of the routing loop. */
  function Step(d: Dispatch, a: Arrival): (d': Dispatch)
    requires ValidDispatch(d)
    ensures ValidDispatch(d')
    ensures d.fatal ==> d' == d
    ensures !d.fatal && a.Arrived? ==> d'.cursor == (d.cursor + 1) % U32
  {
    if d.fatal then d
    else
      match a
      case ReadFailed(_) => d.(fatal := true)
      case Arrived(fd, forward) =>
        MaskIsMod(d.cursor);
        var w := BitAnd(d.cursor, 3);
        var cursor := (d.cursor + 1) % U32;
        match forward
        case Success(_) => Dispatch(cursor, d.queues[w := d.queues[w] + [fd]], d.shed, false)
        case Failure(e) =>
          if e != EAGAIN then Dispatch(cursor, d.queues, d.shed, true)
          else Dispatch(cursor, d.queues, d.shed + [fd], false)
  }

  /** The routing loop over a sequence of arrivals; nothing happens after `LOG_FATAL`. */
  function Run(d: Dispatch, arrivals: seq<Arrival>): (e: Dispatch)
    requires ValidDispatch(d)
    ensures ValidDispatch(e)
    ensures d.fatal ==> e == d
    decreases |arrivals|
  {
    if arrivals == [] || d.fatal then d else Run(Step(d, arrivals[0]), arrivals[1..])
  }

  // ---------------------------------------------------------------------
  // Reference description of routing, on unbounded integers

  /** An arrival that ends the process. */
  predicate IsFatal(a: Arrival)
  {
    a.ReadFailed? || (a.forward.Failure? && a.forward.errno != EAGAIN)
  }

  /** The index of the first arrival that ends the process, or `|arrivals|`. */
  function FirstFatal(arrivals: seq<Arrival>): (n: nat)
    ensures n <= |arrivals|
    ensures forall i :: 0 <= i < n ==> !IsFatal(arrivals[i])
    ensures n < |arrivals| ==> IsFatal(arrivals[n])
  {
    if arrivals == [] || IsFatal(arrivals[0]) then 0 else 1 + FirstFatal(arrivals[1..])
  }

  /** How many descriptors the loop reads before the process ends: all up
      to the first fatal arrival, and that one too when it was a failed
      write rather than a failed read. */
  function ReadCount(arrivals: seq<Arrival>): nat
  {
    if arrivals == [] then 0
    else if IsFatal(arrivals[0]) then (if arrivals[0].Arrived? then 1 else 0)
    else 1 + ReadCount(arrivals[1..])
  }

  /** `ReadCount` counts every arrival before the first fatal one, plus
      that one when it is a failed write. */
  lemma {:induction false} ReadCountUpToFatal(arrivals: seq<Arrival>)
    ensures var f := FirstFatal(arrivals);
      ReadCount(arrivals) == if f < |arrivals| && arrivals[f].Arrived? then f + 1 else f
    decreases |arrivals|
  {
    if arrivals != [] && !IsFatal(arrivals[0]) {
      ReadCountUpToFatal(arrivals[1..]);
      assert arrivals[1..][FirstFatal(arrivals) - 1..] == arrivals[FirstFatal(arrivals)..];
    }
  }

  /** The worker after worker `slot`, in the rotation 0, 1, 2, 3, 0, ... */
  function NextSlot(slot: nat): (next: nat)
    ensures next < kWorkersCount
  {
    if slot + 1 < kWorkersCount then slot + 1 else 0
  }

  /** Stepping `j` times through the rotation from `slot` lands on `(slot + j) mod 4`. */
  lemma NextSlotRotates(slot: nat, j: nat)
    requires slot < kWorkersCount && j > 0
    ensures (NextSlot(slot) + (j - 1)) % kWorkersCount == (slot + j) % kWorkersCount
  {
    if slot + 1 == kWorkersCount {
      assert slot + j == (j - 1) + kWorkersCount;
    }
  }

  /** The descriptors that worker `w` receives, in the order they are read,
      when the first of `arrivals` goes to worker `slot`: up to the first
      fatal arrival, each descriptor goes to the next worker in the
      rotation, and only those whose write succeeds reach it. */
  function Assigned(arrivals: seq<Arrival>, slot: nat, w: nat): seq<int>
    decreases |arrivals|
  {
    if arrivals == [] || IsFatal(arrivals[0]) then []
    else (if arrivals[0].forward.Success? && slot == w then [arrivals[0].fd] else [])
         + Assigned(arrivals[1..], NextSlot(slot), w)
  }

  /** The descriptors, up to the first fatal arrival, whose write failed with `EAGAIN`. */
  function Shed(arrivals: seq<Arrival>): seq<int>
  {
    if arrivals == [] || IsFatal(arrivals[0]) then []
    else (if arrivals[0].forward.Failure? then [arrivals[0].fd] else []) + Shed(arrivals[1..])
  }

  /** Every descriptor read before the first fatal arrival whose write
      succeeds is among those of worker `(slot + j) mod 4`, j being its
      position. */
  lemma {:induction false} AssignedContains(arrivals: seq<Arrival>, slot: nat, j: nat)
    requires slot < kWorkersCount && j < FirstFatal(arrivals) && arrivals[j].forward.Success?
    ensures arrivals[j].fd in Assigned(arrivals, slot, (slot + j) % kWorkersCount)
    decreases j
  {
    var w := (slot + j) % kWorkersCount;
    var rest := arrivals[1..];
    var head := if arrivals[0].forward.Success? && slot == w then [arrivals[0].fd] else [];
    assert Assigned(arrivals, slot, w) == head + Assigned(rest, NextSlot(slot), w);
    if j == 0 {
      assert arrivals[j].fd in head;
    } else {
      assert rest[j - 1] == arrivals[j];
      assert j - 1 < FirstFatal(rest);
      NextSlotRotates(slot, j);
      AssignedContains(rest, NextSlot(slot), j - 1);
      assert arrivals[j].fd in Assigned(rest, NextSlot(slot), w);
    }
  }

  /** Conversely, worker `w` receives only descriptors read before the
      first fatal arrival, at a position j with `(slot + j) mod 4 == w`,
      whose write succeeded. */
  lemma {:induction false} AssignedOnly(arrivals: seq<Arrival>, slot: nat, w: nat, x: int)
    requires slot < kWorkersCount && x in Assigned(arrivals, slot, w)
    ensures exists j :: 0 <= j < FirstFatal(arrivals) && arrivals[j].forward.Success? &&
                        arrivals[j].fd == x && (slot + j) % kWorkersCount == w
    decreases |arrivals|
  {
    var a := arrivals[0];
    var rest := arrivals[1..];
    var head := if a.forward.Success? && slot == w then [a.fd] else [];
    assert Assigned(arrivals, slot, w) == head + Assigned(rest, NextSlot(slot), w);
    if x in head {
      assert 0 < FirstFatal(arrivals) && arrivals[0].forward.Success? && arrivals[0].fd == x;
      assert (slot + 0) % kWorkersCount == w;
    } else {
      AssignedOnly(rest, NextSlot(slot), w, x);
      var j :| 0 <= j < FirstFatal(rest) && rest[j].forward.Success? &&
        rest[j].fd == x && (NextSlot(slot) + j) % kWorkersCount == w;
      NextSlotRotates(slot, j + 1);
      assert j + 1 < FirstFatal(arrivals);
      assert arrivals[j + 1] == rest[j];
      assert (slot + (j + 1)) % kWorkersCount == w;
    }
  }

  /** A fatal arrival stops the loop; a failed write still advanced the cursor. */
  lemma FatalStep(d: Dispatch, a: Arrival)
    requires ValidDispatch(d) && !d.fatal && IsFatal(a)
    ensures Step(d, a).fatal && Step(d, a).queues == d.queues && Step(d, a).shed == d.shed
    ensures Step(d, a).cursor == if a.Arrived? then (d.cursor + 1) % U32 else d.cursor
  {
  }

  /** A non-fatal arrival does not end the process and advances the cursor
      by one, modulo 2^32, to the next worker in the rotation. */
  lemma NonFatalCursor(d: Dispatch, a: Arrival)
    requires ValidDispatch(d) && !d.fatal && !IsFatal(a)
    ensures !Step(d, a).fatal
    ensures Step(d, a).cursor == (d.cursor + 1) % U32
    ensures Step(d, a).cursor % kWorkersCount == NextSlot(d.cursor % kWorkersCount)
  {
    CursorSlot(d.cursor);
  }

  /** A non-fatal arrival whose write succeeds joins the queue of worker
      `cursor mod 4`; the other queues stay as they were. */
  lemma NonFatalQueue(d: Dispatch, a: Arrival, w: nat)
    requires ValidDispatch(d) && !d.fatal && !IsFatal(a) && w < kWorkersCount
    ensures Step(d, a).queues[w] ==
      d.queues[w] + (if a.forward.Success? && d.cursor % kWorkersCount == w then [a.fd] else [])
  {
    CursorSlot(d.cursor);
  }

  /** A non-fatal arrival whose write fails (with `EAGAIN`) is shed. */
  lemma NonFatalShed(d: Dispatch, a: Arrival)
    requires ValidDispatch(d) && !d.fatal && !IsFatal(a)
    ensures Step(d, a).shed == d.shed + (if a.forward.Failure? then [a.fd] else [])
  {
  }

  /** The mask picks worker `c mod 4`, and after the increment the next
      worker in the rotation. */
  lemma CursorSlot(c: nat)
    requires c < U32
    ensures BitAnd(c, 3) == c % kWorkersCount
    ensures ((c + 1) % U32) % kWorkersCount == NextSlot(c % kWorkersCount)
  {
    MaskIsMod(c);
    WrapMod(c);
    SuccMod(c);
  }

  /** Round robin that survives wrap-around: from any valid state, running
      the loop ends the process exactly when some arrival is fatal; the
      cursor advances once per descriptor read, modulo 2^32, whether or not
      its write succeeds; worker `w`'s queue grows by exactly the
      descriptors at positions j with `(cursor + j) mod 4 == w` whose
      write succeeded, in the order they were read; and the shed list grows
      by exactly the descriptors whose write failed with `EAGAIN`. */
  lemma RunRoundRobin(d: Dispatch, arrivals: seq<Arrival>)
    requires ValidDispatch(d) && !d.fatal
    ensures var e := Run(d, arrivals);
      e.fatal == (FirstFatal(arrivals) < |arrivals|) &&
      e.cursor == (d.cursor + ReadCount(arrivals)) % U32 &&
      (forall w :: 0 <= w < kWorkersCount ==> e.queues[w] == d.queues[w] + Assigned(arrivals, d.cursor % kWorkersCount, w)) &&
      e.shed == d.shed + Shed(arrivals)
  {
    RunFatal(d, arrivals);
    RunCursor(d, arrivals);
    forall w | 0 <= w < kWorkersCount
      ensures Run(d, arrivals).queues[w] == d.queues[w] + Assigned(arrivals, d.cursor % kWorkersCount, w)
    {
      RunQueue(d, arrivals, w);
    }
    RunShed(d, arrivals);
  }

  /** The loop ends the process exactly when some arrival is fatal. */
  lemma {:induction false} RunFatal(d: Dispatch, arrivals: seq<Arrival>)
    requires ValidDispatch(d) && !d.fatal
    ensures Run(d, arrivals).fatal == (FirstFatal(arrivals) < |arrivals|)
    decreases |arrivals|
  {
    if arrivals != [] {
      var a := arrivals[0];
      if IsFatal(a) {
        FatalStep(d, a);
      } else {
        NonFatalCursor(d, a);
        RunFatal(Step(d, a), arrivals[1..]);
      }
    }
  }

  /** The cursor advances once per descriptor read, modulo 2^32. */
  lemma {:induction false} RunCursor(d: Dispatch, arrivals: seq<Arrival>)
    requires ValidDispatch(d) && !d.fatal
    ensures Run(d, arrivals).cursor == (d.cursor + ReadCount(arrivals)) % U32
    decreases |arrivals|
  {
    if arrivals != [] {
      var a := arrivals[0];
      if IsFatal(a) {
        FatalStep(d, a);
      } else {
        var d1 := Step(d, a);
        NonFatalCursor(d, a);
        RunCursor(d1, arrivals[1..]);
        CursorGrows(d.cursor, d1.cursor, Run(d1, arrivals[1..]).cursor, ReadCount(arrivals[1..]));
      }
    }
  }

  /** The arithmetic of one step of `RunCursor`. */
  lemma CursorGrows(c: nat, c1: nat, c2: nat, n: nat)
    requires c < U32 && c1 == (c + 1) % U32 && c2 == (c1 + n) % U32
    ensures c2 == (c + (1 + n)) % U32
  {
    WrapAdd(c, n);
  }

  /** Worker `w`'s queue grows by exactly `Assigned`. */
  lemma {:induction false} RunQueue(d: Dispatch, arrivals: seq<Arrival>, w: nat)
    requires ValidDispatch(d) && !d.fatal && w < kWorkersCount
    ensures Run(d, arrivals).queues[w] == d.queues[w] + Assigned(arrivals, d.cursor % kWorkersCount, w)
    decreases |arrivals|
  {
    if arrivals != [] {
      var a := arrivals[0];
      if IsFatal(a) {
        FatalStep(d, a);
      } else {
        var d1 := Step(d, a);
        NonFatalCursor(d, a);
        NonFatalQueue(d, a, w);
        RunQueue(d1, arrivals[1..], w);
        QueueGrows(d.queues[w], d.cursor % kWorkersCount, d1.queues[w], d1.cursor % kWorkersCount,
                   Run(d1, arrivals[1..]).queues[w], arrivals, w);
      }
    }
  }

  lemma ConcatAssoc(a: seq<int>, b: seq<int>, c: seq<int>)
    ensures (a + b) + c == a + (b + c)
  {
  }

  /** The sequence arithmetic of one step of `RunQueue`: `q1` is the
      queue after the first arrival and `q2` the queue at the end. */
  lemma QueueGrows(q: seq<int>, slot: nat, q1: seq<int>, slot1: nat, q2: seq<int>, arrivals: seq<Arrival>, w: nat)
    requires arrivals != [] && !IsFatal(arrivals[0]) && slot1 == NextSlot(slot)
    requires q1 == q + (if arrivals[0].forward.Success? && slot == w then [arrivals[0].fd] else [])
    requires q2 == q1 + Assigned(arrivals[1..], slot1, w)
    ensures q2 == q + Assigned(arrivals, slot, w)
  {
    var head := if arrivals[0].forward.Success? && slot == w then [arrivals[0].fd] else [];
    var tail := Assigned(arrivals[1..], slot1, w);
    assert Assigned(arrivals, slot, w) == head + tail;
    ConcatAssoc(q, head, tail);
  }

  /** The arithmetic of one step of `RunShed`. */
  lemma ShedGrows(sh: seq<int>, sh1: seq<int>, sh2: seq<int>, arrivals: seq<Arrival>)
    requires arrivals != [] && !IsFatal(arrivals[0])
    requires sh1 == sh + (if arrivals[0].forward.Failure? then [arrivals[0].fd] else [])
    requires sh2 == sh1 + Shed(arrivals[1..])
    ensures sh2 == sh + Shed(arrivals)
  {
    var head := if arrivals[0].forward.Failure? then [arrivals[0].fd] else [];
    var tail := Shed(arrivals[1..]);
    assert Shed(arrivals) == head + tail;
    ConcatAssoc(sh, head, tail);
  }

  /** The shed list grows by exactly the descriptors whose write failed with `EAGAIN`. */
  lemma {:induction false} RunShed(d: Dispatch, arrivals: seq<Arrival>)
    requires ValidDispatch(d) && !d.fatal
    ensures Run(d, arrivals).shed == d.shed + Shed(arrivals)
    decreases |arrivals|
  {
    if arrivals != [] {
      var a, rest := arrivals[0], arrivals[1..];
      if IsFatal(a) {
        FatalStep(d, a);
      } else {
        var d1 := Step(d, a);
        NonFatalCursor(d, a);
        NonFatalShed(d, a);
        RunShed(d1, rest);
        ShedGrows(d.shed, d1.shed, Run(d1, rest).shed, arrivals);
      }
    }
  }

  /** The state the control block starts routing from. */
  function Initial(): (d: Dispatch)
    ensures ValidDispatch(d) && !d.fatal && d.cursor == 0
  {
    Dispatch(0, [[], [], [], []], [], false)
  }

  /** From the initial state the cursor counts the descriptors read: every
      arrival before the first fatal one, and that one too when it was a
      failed write, modulo 2^32. */
  lemma CursorFromStart(arrivals: seq<Arrival>)
    ensures var f := FirstFatal(arrivals);
      Run(Initial(), arrivals).cursor ==
        (if f < |arrivals| && arrivals[f].Arrived? then f + 1 else f) % U32
  {
    var f := FirstFatal(arrivals);
    var n := ReadCount(arrivals);
    RunCursor(Initial(), arrivals);
    ReadCountUpToFatal(arrivals);
    assert n == if f < |arrivals| && arrivals[f].Arrived? then f + 1 else f;
    assert Initial().cursor + n == n;
  }

  /** From the initial state, worker `w` receives exactly `Assigned`
      from the rotation starting at worker 0. */
  lemma InitialQueues(arrivals: seq<Arrival>, w: nat)
    requires w < kWorkersCount
    ensures Run(Initial(), arrivals).queues[w] == Assigned(arrivals, 0, w)
  {
    RunQueue(Initial(), arrivals, w);
    assert Initial().queues[w] == [];
    assert [] + Assigned(arrivals, 0, w) == Assigned(arrivals, 0, w);
  }

  /** From the initial state, the k-th descriptor read (counting from 0)
      goes to worker `k mod 4` when its write succeeds. */
  lemma RoutesToKModFour(arrivals: seq<Arrival>, k: nat)
    requires k < FirstFatal(arrivals) && arrivals[k].forward.Success?
    ensures arrivals[k].fd in Run(Initial(), arrivals).queues[k % kWorkersCount]
  {
    InitialQueues(arrivals, k % kWorkersCount);
    AssignedContains(arrivals, 0, k);
    assert (0 + k) % kWorkersCount == k % kWorkersCount;
  }

  /** From the initial state, worker `w` receives nothing but descriptors
      read at a position j with `j mod 4 == w` whose write succeeded. */
  lemma RoutesOnlyKModFour(arrivals: seq<Arrival>, w: nat, x: int)
    requires w < kWorkersCount && x in Run(Initial(), arrivals).queues[w]
    ensures exists j :: 0 <= j < FirstFatal(arrivals) && arrivals[j].forward.Success? &&
                        arrivals[j].fd == x && j % kWorkersCount == w
  {
    InitialQueues(arrivals, w);
    AssignedOnly(arrivals, 0, w, x);
    var j :| 0 <= j < FirstFatal(arrivals) && arrivals[j].forward.Success? &&
      arrivals[j].fd == x && (0 + j) % kWorkersCount == w;
    assert j % kWorkersCount == w;
  }

  // ---------------------------------------------------------------------
  // Imperative dispatcher

  /** The control block's routing state. */
  class Dispatcher {
    /** `current_worker_id`. */
    var cursor: nat
    /** Every descriptor written so far to each worker's pipe, in the order written. */
    var queues: seq<seq<int>>
    /** The descriptors shut down and closed, with a warning, after `EAGAIN`. */
    var shed: seq<int>
    /** Whether the loop reached `LOG_FATAL`. */
    var fatal: bool

    ghost predicate Valid()
      reads this
    {
      ValidDispatch(State())
    }

    function State(): Dispatch
      reads this
    {
      Dispatch(cursor, queues, shed, fatal)
    }

    constructor ()
      ensures Valid() && State() == Initial()
    {
      cursor := 0;
      queues := [[], [], [], []];
      shed := [];
      fatal := false;
    }

    /** Routes one descriptor: picks worker `cursor & 3`, advances the
        cursor with unsigned wrap-around, and appends the descriptor to that
        worker's queue, sheds it on `EAGAIN`, or stops on any other failure. */
    method Route(a: Arrival)
      requires Valid()
      modifies this
      ensures Valid() && State() == Step(old(State()), a)
    {
      if fatal {
        return;
      }
      match a
      case ReadFailed(_) =>
        fatal := true;
      case Arrived(clientfd, forward) =>
        MaskIsMod(cursor);
        var w := BitAnd(cursor, 3);
        cursor := (cursor + 1) % U32;
        if ReturnValue(forward) != kWriteFailed {
          queues := queues[w := queues[w] + [clientfd]];
        } else if forward.errno != EAGAIN {
          fatal := true;
        } else {
          shed := shed + [clientfd];
        }
    }

    /** The routing loop over the descriptors that arrive, in order. */
    method RouteAll(arrivals: seq<Arrival>)
      requires Valid()
      modifies this
      ensures Valid() && State() == Run(old(State()), arrivals)
    {
      var i := 0;
      while i < |arrivals| && !fatal
        invariant i <= |arrivals|
        invariant Valid()
        invariant Run(State(), arrivals[i..]) == Run(old(State()), arrivals)
      {
        assert arrivals[i..][1..] == arrivals[i + 1..];
        Route(arrivals[i]);
        i := i + 1;
      }
    }
  }
}
