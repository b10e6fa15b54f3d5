/** The dispatcher and the workers together: the descriptors a worker serves
    are the ones the dispatcher wrote to that worker's pipe, in the order it
    wrote them. */
module Pipeline {
  import opened ControlBlock
  import opened Worker
  import opened WorkerProperties

  /** Worker `w` reads its pipe in the order the dispatcher routed to it: the
      j-th connection it serves is the j-th accepted descriptor with
      position `w` modulo four whose pipe write succeeded. */
  lemma DispatchOrder(arrivals: seq<Arrival>, w: nat, scripts: seq<ConnScript>)
    requires w < kWorkersCount
    requires |scripts| == |Run(Initial(), arrivals).queues[w]| && AllWellFormed(scripts)
    ensures var inbox := Run(Initial(), arrivals).queues[w];
      inbox == Assigned(arrivals, 0, w) &&
      ServesInOrder(inbox, scripts, 0, RunWorker(inbox, scripts, 0).runs)
  {
    InitialQueues(arrivals, w);
    RunWorkerServes(Run(Initial(), arrivals).queues[w], scripts, 0);
  }

  /** Every descriptor a worker serves came from an arrival at a position
      congruent to the worker's index modulo four, before any fatal arrival. */
  lemma ServedOrigin(arrivals: seq<Arrival>, w: nat, scripts: seq<ConnScript>, j: nat)
    requires w < kWorkersCount
    requires |scripts| == |Run(Initial(), arrivals).queues[w]| && AllWellFormed(scripts)
    requires j < |RunWorker(Run(Initial(), arrivals).queues[w], scripts, 0).runs|
    ensures exists p :: 0 <= p < FirstFatal(arrivals) && arrivals[p].forward.Success? &&
                        arrivals[p].fd == Run(Initial(), arrivals).queues[w][j] && p % kWorkersCount == w
  {
    var inbox := Run(Initial(), arrivals).queues[w];
    assert inbox[j] in inbox;
    RoutesOnlyKModFour(arrivals, w, inbox[j]);
  }
}
