/**
 * The order in which NotificationLoop (dokanlib/sys/notification.c) hands out events. An event whose waiter is
 * being cancelled, or has too small a buffer, goes back to the end of the queue, behind events posted later.
 */
module DeliveryOrder {
  import opened Basics
  import opened PendingIrp

  /**
   * Events, numbered in the order they were posted: the numbers of those in the queue and of those
   * delivered, so far.
   */
  datatype Tickets = Tickets(posted: seq<Event>, queued: seq<nat>, delivered: seq<nat>)

  const NO_TICKETS: Tickets := Tickets([], [], [])

  // ----- one round -----

  /** Waiters and events are both at hand. */
  predicate Pairs(s: State) { s.waiting != [] && s.queue.events != [] }

  /** A round hands the first event to the first waiter. */
  predicate Delivers(s: State)
    requires Pairs(s)
  {
    var (t, taken) := TakeOff(Popped(s), s.waiting[0]);
    taken.Won? && t.irps[taken.irp].buffer >= s.queue.events[0].length
  }

  /** A round pushes the first event back behind others. */
  predicate Overtakes(s: State)
    requires Pairs(s)
  {
    !Delivers(s) && |s.queue.events| > 1
  }

  /** In terms of what the round looks at: the waiter's cancel routine and its buffer. */
  lemma DeliversIff(s: State)
    requires Core(s) && Pairs(s)
    ensures var e := s.waiting[0]; e in s.entries && s.entries[e].owner in s.irps
    ensures var irp := s.irps[s.entries[s.waiting[0]].owner];
      Delivers(s) <==> irp.armed && irp.buffer >= s.queue.events[0].length
    ensures Delivers(s) ==>
      PairOne(s).queue.delivered == s.queue.delivered + [(s.entries[s.waiting[0]].owner, s.queue.events[0])]
  {
    var e := s.waiting[0];
    assert e in s.waiting;
    ListedHoldsIrp(s, e);
    hide Core, Without;
  }

  /** The queue after a round: its first event is delivered, or goes to the end. */
  lemma RoundQueue(s: State)
    requires Pairs(s)
    ensures var q, r := s.queue, PairOne(s).queue;
      && (Delivers(s) ==>
            && r.events == q.events[1..] && |r.delivered| == |q.delivered| + 1
            && r.delivered[..|q.delivered|] == q.delivered && r.delivered[|q.delivered|].1 == q.events[0])
      && (!Delivers(s) ==> r.events == q.events[1..] + [q.events[0]] && r.delivered == q.delivered)
  {
    TakeOffIsQuiet(Popped(s), s.waiting[0]);
    hide TakeOff;
  }

  function RoundTickets(s: State, k: Tickets): Tickets
    requires Pairs(s) && k.queued != []
  {
    if Delivers(s) then k.(queued := k.queued[1..], delivered := k.delivered + [k.queued[0]])
    else k.(queued := k.queued[1..] + [k.queued[0]])
  }

  /** The tickets are those of the events in the queue, and of those delivered. */
  ghost predicate Labels(q: Queue, k: Tickets) {
    && |k.queued| == |q.events| && |k.delivered| == |q.delivered|
    && (forall i :: 0 <= i < |k.queued| ==> k.queued[i] < |k.posted| && k.posted[k.queued[i]] == q.events[i])
    && (forall i :: 0 <= i < |k.delivered| ==>
          k.delivered[i] < |k.posted| && k.posted[k.delivered[i]] == q.delivered[i].1)
  }

  predicate Ascending(s: seq<nat>) { forall i, j :: 0 <= i < j < |s| ==> s[i] < s[j] }

  /**
   * Nothing was overtaken: if the rest of the queue is delivered from its head, all deliveries will have been
   * in the order of posting.
   */
  predicate InOrder(k: Tickets) { Ascending(k.delivered + k.queued) }

  lemma RoundKeepsLabels(s: State, k: Tickets)
    requires Pairs(s) && Labels(s.queue, k)
    ensures Labels(PairOne(s).queue, RoundTickets(s, k))
  {
    RoundQueue(s);
    hide Delivers, PairOne;
    var q, r := s.queue, PairOne(s).queue;
    if Delivers(s) {
      assert forall i :: 0 <= i < |q.delivered| ==> r.delivered[i] == r.delivered[..|q.delivered|][i];
    }
  }

  /** A round keeps the order exactly when it does not push an event back behind others. */
  lemma RoundKeepsOrderIff(s: State, k: Tickets)
    requires Pairs(s) && Labels(s.queue, k) && InOrder(k)
    ensures InOrder(RoundTickets(s, k)) <==> !Overtakes(s)
  {
    hide Delivers;
    var r, d := RoundTickets(s, k), |k.delivered|;
    var before, after := k.delivered + k.queued, r.delivered + r.queued;
    if Delivers(s) || |k.queued| == 1 {
      assert after == before;
    } else {
      assert after[d] == k.queued[1] == before[d + 1] && after[|after| - 1] == k.queued[0] == before[d];
    }
  }

  // ----- the loop -----

  function LoopTickets(s: State, k: Tickets): Tickets
    decreases |s.waiting|
  {
    if Pairs(s) && k.queued != [] then LoopTickets(PairOne(s), RoundTickets(s, k)) else k
  }

  /** The order is kept before, between and after the rounds of the loop. */
  predicate LoopInOrder(s: State, k: Tickets)
    decreases |s.waiting|
  {
    InOrder(k) && (Pairs(s) && k.queued != [] ==> LoopInOrder(PairOne(s), RoundTickets(s, k)))
  }

  predicate LoopOvertakes(s: State)
    decreases |s.waiting|
  {
    Pairs(s) && (Overtakes(s) || LoopOvertakes(PairOne(s)))
  }

  lemma {:induction false} LoopKeepsOrderIff(s: State, k: Tickets)
    requires Labels(s.queue, k) && InOrder(k)
    ensures Labels(PairAll(s).queue, LoopTickets(s, k))
    ensures LoopInOrder(s, k) <==> !LoopOvertakes(s)
    ensures LoopInOrder(s, k) ==> InOrder(LoopTickets(s, k))
    decreases |s.waiting|
  {
    hide PairOne, RoundTickets, Overtakes, InOrder;
    if Pairs(s) {
      RoundKeepsLabels(s, k);
      RoundKeepsOrderIff(s, k);
      LoopLabels(PairOne(s), RoundTickets(s, k));
      if !Overtakes(s) {
        LoopKeepsOrderIff(PairOne(s), RoundTickets(s, k));
      } else {
        assert !LoopInOrder(PairOne(s), RoundTickets(s, k));
      }
    }
  }

  lemma {:induction false} LoopLabels(s: State, k: Tickets)
    requires Labels(s.queue, k)
    ensures Labels(PairAll(s).queue, LoopTickets(s, k)) && LoopTickets(s, k).posted == k.posted
    decreases |s.waiting|
  {
    hide PairOne, Delivers;
    if Pairs(s) {
      RoundKeepsLabels(s, k);
      LoopLabels(PairOne(s), RoundTickets(s, k));
    }
  }

  // ----- runs -----

  function StepTickets(s: State, step: Step, k: Tickets): Tickets {
    match step
    case Notify => LoopTickets(s, k)
    case Post(ev) => k.(posted := k.posted + [ev], queued := k.queued + [|k.posted|])
    case ReleaseEvents => k.(queued := [])
    case _ => k
  }

  function RunTickets(steps: seq<Step>): Tickets {
    if steps == [] then NO_TICKETS
    else
      var init := steps[..|steps| - 1];
      match Run(init)
      case None => NO_TICKETS
      case Some(s) => StepTickets(s, steps[|steps| - 1], RunTickets(init))
  }

  /** Nothing is overtaken in the run, not even between two rounds. */
  predicate KeepsOrder(steps: seq<Step>) {
    steps == [] ||
    var init, last := steps[..|steps| - 1], steps[|steps| - 1];
    && KeepsOrder(init) && InOrder(RunTickets(steps))
    && (Run(init).Some? && last.Notify? ==> LoopInOrder(Run(init).value, RunTickets(init)))
  }

  /** Some round of the run pushes an event back behind others. */
  predicate PushesBehind(steps: seq<Step>) {
    steps != [] &&
    var init, last := steps[..|steps| - 1], steps[|steps| - 1];
    PushesBehind(init) || (Run(init).Some? && last.Notify? && LoopOvertakes(Run(init).value))
  }

  lemma RunStep(steps: seq<Step>)
    requires steps != [] && Run(steps).Some?
    ensures var init, last := steps[..|steps| - 1], steps[|steps| - 1];
      Run(init).Some? && Enabled(Run(init).value, last) && Run(steps).value == Apply(Run(init).value, last)
  {
  }

  /** Steps other than these leave the queue as it is, but for its signal. */
  lemma OtherStepsKeepQueue(s: State, step: Step)
    requires Inv(s) && Enabled(s, step) && !step.Notify? && !step.Post? && !step.ReleaseEvents?
    ensures Apply(s, step).queue.events == s.queue.events && Apply(s, step).queue.delivered == s.queue.delivered
  {
    hide Core, Conserved, DeliveredOk, Awake, DoRegister, DoCancel, DoUnlink, DoReply, ReleaseAll, TimeOutAll;
    hide DoComplete, SameBuffers;
    match step {
      case Unlink(i) =>
        UnlinkKeepsCore(s, i);
        UnlinkIsQuiet(s, i, s.cancels[i].entry.value);
      case Reply(serial) => ReplyIsQuiet(s, serial);
      case Release => ReleaseAllIsQuiet(s);
      case TimeOut(n) => TimeOutAllIsQuiet(s, n);
      case Complete(e) => CompleteIsQuiet(s, e);
      case Signal =>
      case _ => SmallStepsAreQuiet(s, step);
    }
  }

  lemma StepKeepsLabels(s: State, step: Step, k: Tickets)
    requires Inv(s) && Enabled(s, step) && Labels(s.queue, k)
    ensures Labels(Apply(s, step).queue, StepTickets(s, step, k))
  {
    hide Inv, PairAll, LoopTickets;
    match step {
      case Notify => LoopLabels(s, k);
      case Post(_) =>
      case ReleaseEvents =>
      case _ => OtherStepsKeepQueue(s, step); hide Enabled, Apply;
    }
  }

  lemma {:induction false} RunLabels(steps: seq<Step>)
    requires Run(steps).Some?
    ensures Labels(Run(steps).value.queue, RunTickets(steps))
    decreases |steps|
  {
    hide Apply, Enabled, StepTickets, Labels;
    if steps == [] {
      NothingLabelled();
    } else {
      var init := steps[..|steps| - 1];
      RunStep(steps);
      RunLabels(init);
      RunKeepsInv(init);
      StepKeepsLabels(Run(init).value, steps[|steps| - 1], RunTickets(init));
    }
  }

  lemma NothingLabelled()
    ensures Labels(INIT.queue, NO_TICKETS)
  {
  }

  /** Posting comes last, and dropping the queue overtakes nothing. */
  lemma StepKeepsOrder(s: State, step: Step, k: Tickets)
    requires Labels(s.queue, k) && InOrder(k) && !step.Notify?
    ensures InOrder(StepTickets(s, step, k))
  {
    var t := StepTickets(s, step, k);
    var before, after := k.delivered + k.queued, t.delivered + t.queued;
    if step.Post? {
      assert after == before + [|k.posted|];
      assert forall i :: 0 <= i < |before| ==> before[i] < |k.posted|;
    } else if step.ReleaseEvents? {
      assert after == before[..|k.delivered|];
    }
  }

  /**
   * In every run: the queue and the deliveries stay in the order of posting, through each round, exactly
   * when no round pushes an event back behind others.
   */
  lemma {:induction false} OrderKeptIff(steps: seq<Step>)
    requires Run(steps).Some?
    ensures KeepsOrder(steps) <==> !PushesBehind(steps)
    ensures KeepsOrder(steps) ==> InOrder(RunTickets(steps))
    decreases |steps|
  {
    hide Apply, Enabled, Labels, InOrder, LoopOvertakes, LoopInOrder;
    if steps == [] {
      NothingOvertaken();
    } else {
      var init, last := steps[..|steps| - 1], steps[|steps| - 1];
      RunStep(steps);
      OrderKeptIff(init);
      RunLabels(init);
      if KeepsOrder(init) {
        var s, k := Run(init).value, RunTickets(init);
        if last.Notify? {
          LoopKeepsOrderIff(s, k);
        } else {
          StepKeepsOrder(s, last, k);
        }
      }
    }
  }

  lemma NothingOvertaken()
    ensures InOrder(NO_TICKETS)
  {
  }

  /** Then the events delivered are some of those posted, in the order of posting. */
  lemma {:induction false} DeliveredInOrder(steps: seq<Step>)
    requires Run(steps).Some? && !PushesBehind(steps)
    ensures var k, delivered := RunTickets(steps), Run(steps).value.queue.delivered;
      && Ascending(k.delivered) && |k.delivered| == |delivered|
      && forall i :: 0 <= i < |delivered| ==>
           k.delivered[i] < |k.posted| && delivered[i].1 == k.posted[k.delivered[i]]
  {
    hide Run, PushesBehind, KeepsOrder, RunTickets;
    OrderKeptIff(steps);
    RunLabels(steps);
    var k := RunTickets(steps);
    forall i, j | 0 <= i < j < |k.delivered| ensures k.delivered[i] < k.delivered[j] {
      var all := k.delivered + k.queued;
      assert all[i] == k.delivered[i] && all[j] == k.delivered[j];
    }
  }

  // ----- a run that overtakes -----

  const FIRST: Event := Event(1, 8)
  const SECOND: Event := Event(2, 4)

  /** Three waiters, of which the first one has a small buffer; an event too large for it, and a small one. */
  const OVERTAKING: seq<Step> := [
    Arrive(0, 4), Register(0, 0, 0), Arrive(1, 8), Register(1, 1, 0), Arrive(2, 8), Register(2, 2, 0),
    Post(FIRST), Post(SECOND), Notify]

  function Waiter(i: nat): Irp { Irp(true, false, Some(i), if i == 0 then 4 else 8, None, [], Some(i)) }

  function Added(s: State, i: nat): State {
    s.(irps := s.irps[i := Waiter(i)], entries := s.entries[i := Entry(Some(i), 0, false, i, 0)],
       waiting := s.waiting + [i], waitingNotEmpty := true)
  }

  /** A run, one step further. */
  lemma RunOn(steps: seq<Step>, n: nat, s: State)
    requires n < |steps| && Run(steps[..n]) == Some(s) && Enabled(s, steps[n])
    ensures Run(steps[..n + 1]) == Some(Apply(s, steps[n]))
  {
    assert steps[..n + 1][..n] == steps[..n];
  }

  lemma AddedIs(steps: seq<Step>, n: nat, s: State, i: nat)
    requires n + 1 < |steps| && Run(steps[..n]) == Some(s) && i !in s.irps && i !in s.entries
    requires steps[n] == Arrive(i, Waiter(i).buffer) && steps[n + 1] == Register(i, i, 0)
    ensures Run(steps[..n + 2]) == Some(Added(s, i))
  {
    hide Run;
    RunOn(steps, n, s);
    var t := Apply(s, steps[n]);
    RunOn(steps, n + 1, t);
    assert t.irps[i := Waiter(i)] == s.irps[i := Waiter(i)];
  }

  function AllAdded(): State { Added(Added(Added(INIT, 0), 1), 2) }

  lemma NewNames()
    ensures var s := Added(INIT, 0); var t := Added(s, 1);
      1 !in s.irps && 1 !in s.entries && 2 !in t.irps && 2 !in t.entries
  {
  }

  lemma RunToAllAdded()
    ensures Run(OVERTAKING[..6]) == Some(AllAdded())
  {
    assert Run(OVERTAKING[..0]) == Some(INIT);
    NewNames();
    hide Run, Added;
    AddedIs(OVERTAKING, 0, INIT, 0);
    AddedIs(OVERTAKING, 2, Added(INIT, 0), 1);
    AddedIs(OVERTAKING, 4, Added(Added(INIT, 0), 1), 2);
  }

  /** The three of them wait, and both events are queued. */
  function AllWait(): State {
    AllAdded().(queue := DoPost(DoPost(EMPTY_QUEUE, FIRST), SECOND))
  }

  lemma RunToAllWait()
    ensures Run(OVERTAKING[..8]) == Some(AllWait())
  {
    RunToAllAdded();
    var s := AllAdded();
    assert s.queue == EMPTY_QUEUE;
    hide Run, AllAdded;
    RunOn(OVERTAKING, 6, s);
    RunOn(OVERTAKING, 7, Apply(s, Post(FIRST)));
  }

  /** Entry i waits with its IRP. */
  predicate Waits(s: State, i: nat) {
    && i in s.irps && s.irps[i] == Waiter(i)
    && i in s.entries && s.entries[i] == Entry(Some(i), 0, false, i, 0)
  }

  /** What a round does when the first of such waiters is i. */
  lemma OneRound(s: State, i: nat)
    requires Pairs(s) && s.waiting[0] == i && Waits(s, i)
    ensures Delivers(s) <==> Waiter(i).buffer >= s.queue.events[0].length
    ensures
      var q, r := s.queue, PairOne(s).queue;
      if Delivers(s) then r.events == q.events[1..] && r.delivered == q.delivered + [(i, q.events[0])]
      else r.events == q.events[1..] + [q.events[0]] && r.delivered == q.delivered
  {
  }

  lemma OthersWait(s: State, i: nat)
    requires Pairs(s) && s.waiting[0] == i && Waits(s, i)
    ensures PairOne(s).waiting == s.waiting[1..]
    ensures forall j: nat :: j != i && Waits(s, j) ==> Waits(PairOne(s), j)
  {
  }

  /** The large event is posted first, goes back behind the small one, and is delivered after it. */
  lemma LaterIsDeliveredFirst()
    ensures Run(OVERTAKING).Some? && PushesBehind(OVERTAKING)
    ensures Run(OVERTAKING).value.queue.delivered == [(1, SECOND), (2, FIRST)]
  {
    RunToAllWait();
    ThreeRounds();
    var s := AllWait();
    assert OVERTAKING[..9] == OVERTAKING;
    RunOn(OVERTAKING, 8, s);
    assert OVERTAKING[..|OVERTAKING| - 1] == OVERTAKING[..8];
    hide Run, AllWait, PairAll, LoopOvertakes;
  }

  lemma WhoWaits()
    ensures var s := AllWait();
      && s.waiting == [0, 1, 2] && s.queue.events == [FIRST, SECOND] && s.queue.delivered == []
      && Waits(s, 0) && Waits(s, 1) && Waits(s, 2)
  {
  }

  lemma ThreeRounds()
    ensures LoopOvertakes(AllWait())
    ensures PairAll(AllWait()).queue.delivered == [(1, SECOND), (2, FIRST)]
  {
    hide PairOne, AllWait, Waits, Delivers;
    var s := AllWait();
    WhoWaits();
    OneRound(s, 0);
    OthersWait(s, 0);
    var t := PairOne(s);
    OneRound(t, 1);
    OthersWait(t, 1);
    var u := PairOne(t);
    OneRound(u, 2);
    OthersWait(u, 2);
    PairAllUnfolds(s);
    PairAllUnfolds(t);
    PairAllUnfolds(u);
    PairAllUnfolds(PairOne(u));
    hide PairAll;
  }
}
