/**
 * The pending-request protocol of the driver (dokanlib/sys/event.c and sys/notification.c): one list of
 * pending IRPs with its queue of events, and every step that registration, cancellation, reply,
 * notification, release and timeout can take on it. A step is what runs under the list's lock, or one access
 * outside it. The device has several such lists, an IRP is put on one of them at most; this model
 * lets every step run on the list, so it covers each of them.
 */
module PendingIrp {
  import opened Basics

  type IrpId = nat
  type EntryId = nat

  /** EVENT_CONTEXT: its serial number and its length. */
  datatype Event = Event(serial: nat, length: nat)

  /** Who called IoCompleteRequest, or, for Dispatcher, whose STATUS_CANCELLED made the dispatcher do it. */
  datatype Completer = Dispatcher | CancelRoutine | Replier | Notifier(information: nat) | Releaser | Timer

  /**
   * An IRP: whether its cancel routine is set, whether it was cancelled, its DriverContext pointer, its
   * output buffer (0 when there is none), the event copied there, and who completed it. The entry
   * made for it is remembered for the proof.
   */
  datatype Irp = Irp(
    armed: bool, cancelled: bool, context: Option<EntryId>, buffer: nat, received: Option<Event>,
    completers: seq<Completer>, entry: Option<EntryId>)

  /** IRP_ENTRY. The IRP it was made for and the number of times it was freed are kept for the proof. */
  datatype Entry = Entry(irp: Option<IrpId>, serial: nat, cancelFrees: bool, owner: IrpId, freed: nat)

  /** How far the cancel routine of an IRP has come. */
  datatype Stage = Swapped | PointerRead(entry: Option<EntryId>) | Unlinked

  /** The job left to whoever took an entry off the list and won its IRP. */
  datatype Job = ReplyJob | NotifyJob | ReleaseJob | TimeoutJob

  datatype State = State(
    irps: map<IrpId, Irp>,
    entries: map<EntryId, Entry>,
    waiting: seq<EntryId>,
    completing: map<EntryId, Job>,
    cancels: map<IrpId, Stage>,
    waitingNotEmpty: bool,
    usedFreed: bool,
    queue: Queue)

  /**
   * The queue of events, its NotEmpty event, and the threads between queueing an event and setting that.
   * What was posted, delivered and thrown away so far is kept for the proof.
   */
  datatype Queue = Queue(
    events: seq<Event>, notEmpty: bool, signallers: nat,
    posted: multiset<Event>, delivered: seq<(IrpId, Event)>, discarded: multiset<Event>)

  const EMPTY_QUEUE: Queue := Queue([], false, 0, multiset{}, [], multiset{})

  const INIT: State := State(map[], map[], [], map[], map[], false, false, EMPTY_QUEUE)

  datatype Step =
    | Arrive(irp: IrpId, buffer: nat)
    | Register(irp: IrpId, entry: EntryId, serial: nat)
    | Cancel(irp: IrpId)
    | ReadPointer(irp: IrpId)
    | Unlink(irp: IrpId)
    | CompleteCancelled(irp: IrpId)
    | Reply(serial: nat)
    | Notify
    | Release
    | TimeOut(expired: nat)
    | Complete(entry: EntryId)
    | Post(event: Event)
    | Signal
    | ReleaseEvents

  /** Reading or writing an entry. */
  function Touch(s: State, e: EntryId): State {
    if e in s.entries && s.entries[e].freed == 0 then s else s.(usedFreed := true)
  }

  /** ExFreePool */
  function Free(s: State, e: EntryId): State {
    if e in s.entries then s.(entries := s.entries[e := s.entries[e].(freed := s.entries[e].freed + 1)]) else s
  }

  function SetIrp(s: State, i: IrpId, irp: Irp): State { s.(irps := s.irps[i := irp]) }

  function SetEntry(s: State, e: EntryId, entry: Entry): State { s.(entries := s.entries[e := entry]) }

  lemma FreeIs(s: State, e: EntryId)
    requires e in s.entries
    ensures Free(s, e) == SetEntry(s, e, s.entries[e].(freed := s.entries[e].freed + 1))
  {
  }

  /** IoCompleteRequest */
  function CompleteRequest(s: State, i: IrpId, who: Completer): State {
    if i in s.irps then SetIrp(s, i, s.irps[i].(completers := s.irps[i].completers + [who])) else s
  }

  /** The list without entry e; RemoveEntryList on an entry that is on no list changes nothing. */
  function Without(es: seq<EntryId>, e: EntryId): (r: seq<EntryId>)
    ensures forall x :: x in r ==> x in es
  {
    if es == [] then [] else if es[0] == e then es[1..] else [es[0]] + Without(es[1..], e)
  }

  /** RegisterPendingIrpMain, from taking the lock to releasing it. */
  function DoRegister(s: State, i: IrpId, e: EntryId, serial: nat): State
    requires i in s.irps
  {
    if s.irps[i].cancelled then
      CompleteRequest(s.(entries := s.entries[e := Entry(Some(i), serial, false, i, 1)]), i, Dispatcher)
    else
      s.(irps := s.irps[i := s.irps[i].(armed := true, context := Some(e), entry := Some(e))],
         entries := s.entries[e := Entry(Some(i), serial, false, i, 0)],
         waiting := s.waiting + [e],
         waitingNotEmpty := true)
  }

  lemma Rejected(s: State, i: IrpId, e: EntryId, serial: nat)
    requires i in s.irps && e !in s.entries && s.irps[i].cancelled && !s.irps[i].armed
    ensures var t := SetIrp(SetEntry(s, e, Entry(Some(i), serial, false, i, 0)), i, s.irps[i].(armed := true));
      CompleteRequest(Free(SetIrp(t, i, t.irps[i].(armed := false)), e), i, Dispatcher) == DoRegister(s, i, e, serial)
  {
    var t := SetIrp(SetEntry(s, e, Entry(Some(i), serial, false, i, 0)), i, s.irps[i].(armed := true));
    assert t.irps[i := t.irps[i].(armed := false)] == s.irps;
    assert t.entries[e := t.entries[e].(freed := 1)] == s.entries[e := Entry(Some(i), serial, false, i, 1)];
  }

  lemma Accepted(s: State, i: IrpId, e: EntryId, serial: nat)
    requires i in s.irps && e !in s.entries && !s.irps[i].cancelled
    ensures var t := SetIrp(SetEntry(s, e, Entry(Some(i), serial, false, i, 0)), i, s.irps[i].(armed := true));
      var u := SetIrp(t, i, t.irps[i].(context := Some(e), entry := Some(e)));
      u.(waiting := u.waiting + [e], waitingNotEmpty := true) == DoRegister(s, i, e, serial)
  {
    var t := SetIrp(SetEntry(s, e, Entry(Some(i), serial, false, i, 0)), i, s.irps[i].(armed := true));
    var now := t.irps[i].(context := Some(e), entry := Some(e));
    assert t.irps[i := now] == s.irps[i := now];
  }

  lemma SetIrpTwice(s: State, i: IrpId, a: Irp, b: Irp)
    ensures SetIrp(SetIrp(s, i, a), i, b) == SetIrp(s, i, b)
  {
    assert s.irps[i := a][i := b] == s.irps[i := b];
  }

  /** IoCancelIrp: sets the flag, and takes the cancel routine if there is one to run. */
  function DoCancel(s: State, i: IrpId): State
    requires i in s.irps
  {
    var t := SetIrp(s, i, s.irps[i].(cancelled := true, armed := false));
    if s.irps[i].armed then t.(cancels := t.cancels[i := Swapped]) else t
  }

  /** The section of the cancel routine under the list's lock. */
  function DoUnlink(s: State, i: IrpId): State
    requires i in s.irps && i in s.cancels && s.cancels[i].PointerRead?
  {
    match s.cancels[i].entry
    case None => s.(cancels := s.cancels[i := Unlinked])
    case Some(e) =>
      var t := Unlisted(s, i, e);
      if e in t.entries then Cleared(t, i, e) else t
  }

  /** Its first half: the entry leaves the list. */
  function Unlisted(s: State, i: IrpId, e: EntryId): (t: State)
    ensures t.irps == s.irps
  {
    var t := Removed(s.(cancels := s.cancels[i := Unlinked]), e);
    if t.waiting == [] then t.(waitingNotEmpty := false) else t
  }

  /** Its second half: the pointers between the entry and the IRP are cleared, and the entry is freed if told so. */
  function Cleared(s: State, i: IrpId, e: EntryId): State
    requires i in s.irps && e in s.entries
  {
    var t := SetIrp(SetEntry(s, e, s.entries[e].(irp := None)), i, s.irps[i].(context := None));
    if s.entries[e].cancelFrees then Free(t, e) else t
  }

  /** What DokanCompleteIrp, NotificationLoop and ReleasePendingIrp do alike with an entry they take off the list. */
  datatype Taken = Gone | Lost | Won(irp: IrpId)

  function TakeOff(s: State, e: EntryId): (r: (State, Taken))
    ensures r.0.waiting == Without(s.waiting, e)
    ensures r.1.Won? ==> e in r.0.entries && r.1.irp in r.0.irps
  {
    Claim(Removed(s, e), e)
  }

  function Removed(s: State, e: EntryId): State { Touch(s, e).(waiting := Without(s.waiting, e)) }

  /** IoSetCancelRoutine decides who completes the IRP of an entry that was taken off the list. */
  function Claim(s: State, e: EntryId): (State, Taken) {
    if e !in s.entries then (s, Gone)
    else
      match s.entries[e].irp
      case None => (Free(s, e), Gone)
      case Some(i) =>
        if i in s.irps && s.irps[i].armed then (SetIrp(s, i, s.irps[i].(armed := false)), Won(i))
        else (SetEntry(s, e, s.entries[e].(cancelFrees := true)), Lost)
  }

  /** The first listed entry with the serial number. */
  function Find(s: State, k: nat, serial: nat): (r: nat)
    requires k <= |s.waiting|
    ensures k <= r <= |s.waiting|
    decreases |s.waiting| - k
  {
    if k < |s.waiting| && !(s.waiting[k] in s.entries && s.entries[s.waiting[k]].serial == serial)
    then Find(s, k + 1, serial) else k
  }

  /** DokanCompleteIrp, up to releasing the lock. */
  function DoReply(s: State, serial: nat): State {
    var k := Find(s, 0, serial);
    if k == |s.waiting| then s else SettleAt(s, k, ReplyJob)
  }

  /** What DokanCompleteIrp and ReleaseTimeoutPendingIrp do with an entry they pick. */
  function SettleAt(s: State, k: nat, job: Job): (r: State)
    requires k < |s.waiting|
    ensures r.waiting == Without(s.waiting, s.waiting[k])
  {
    var e := s.waiting[k];
    var (t, taken) := TakeOff(s, e);
    if taken.Won? then Committed(SetIrp(t, taken.irp, t.irps[taken.irp].(context := None)), e, job) else t
  }

  function Pushed(s: State, ev: Event): State { s.(queue := s.queue.(events := s.queue.events + [ev])) }

  function Logged(s: State, i: IrpId, ev: Event): State {
    s.(queue := s.queue.(delivered := s.queue.delivered + [(i, ev)]))
  }

  function Committed(s: State, e: EntryId, job: Job): State { s.(completing := s.completing[e := job]) }

  /** The event goes into the IRP's buffer if it fits, and back to the end of the queue if not. */
  function Deliver(t: State, e: EntryId, i: IrpId, ev: Event): State
    requires e in t.entries && i in t.irps
  {
    if t.irps[i].buffer < ev.length then
      var u := Pushed(t, ev);
      Committed(SetEntry(u, e, u.entries[e].(serial := 0)), e, NotifyJob)
    else
      var u := SetIrp(t, i, t.irps[i].(received := Some(ev)));
      Committed(Logged(SetEntry(u, e, u.entries[e].(serial := ev.length)), i, ev), e, NotifyJob)
  }

  function Popped(s: State): State
    requires s.queue.events != []
  {
    s.(queue := s.queue.(events := s.queue.events[1..]))
  }

  /** A round of the pairing loop of NotificationLoop. */
  function PairOne(s: State): (r: State)
    requires s.waiting != [] && s.queue.events != []
    ensures r.waiting == s.waiting[1..]
  {
    var ev, e := s.queue.events[0], s.waiting[0];
    var (t, taken) := TakeOff(Popped(s), e);
    if taken.Won? then Deliver(t, e, taken.irp, ev) else Pushed(t, ev)
  }

  function PairAll(s: State): State
    decreases |s.waiting|
  {
    if s.waiting == [] || s.queue.events == [] then s else PairAll(PairOne(s))
  }

  /** NotificationLoop, up to releasing both locks. */
  function DoNotify(s: State): State {
    var t := PairAll(s);
    t.(queue := t.queue.(notEmpty := false), waitingNotEmpty := false)
  }

  function ReleaseOne(s: State): (r: State)
    requires s.waiting != []
    ensures r.waiting == s.waiting[1..]
  {
    var e := s.waiting[0];
    var (t, taken) := TakeOff(s, e);
    if taken.Won? then Committed(t, e, ReleaseJob) else t
  }

  function ReleaseAll(s: State): State
    decreases |s.waiting|
  {
    if s.waiting == [] then s else ReleaseAll(ReleaseOne(s))
  }

  /** ReleasePendingIrp, up to releasing the lock. */
  function DoRelease(s: State): State { ReleaseAll(s).(waitingNotEmpty := false) }

  function Min(a: nat, b: nat): nat { if a < b then a else b }

  /** The loop of ReleaseTimeoutPendingIrp, when the clock finds the first n entries expired. */
  function TimeOutAll(s: State, n: nat): State
    decreases n
  {
    if n == 0 || s.waiting == [] then s else TimeOutAll(SettleAt(s, 0, TimeoutJob), n - 1)
  }

  /** ReleaseTimeoutPendingIrp, up to releasing the lock. */
  function DoTimeOut(s: State, n: nat): State {
    var t := TimeOutAll(s, n);
    if s.waiting != [] && t.waiting == [] then t.(waitingNotEmpty := false) else t
  }

  /** The winner completes the IRP and frees the entry. */
  function DoComplete(s: State, e: EntryId): State
    requires e in s.completing
  {
    var t := Touch(s, e).(completing := s.completing - {e});
    if e !in s.entries || s.entries[e].irp == None then Free(t, e)
    else
      var who := match s.completing[e]
        case ReplyJob => Replier
        case NotifyJob => Notifier(s.entries[e].serial)
        case ReleaseJob => Releaser
        case TimeoutJob => Timer;
      CompleteRequest(Free(t, e), s.entries[e].irp.value, who)
  }

  /** DokanEventNotification, up to releasing the lock; its caller will set the NotEmpty event. */
  function DoPost(q: Queue, ev: Event): Queue {
    q.(events := q.events + [ev], posted := q.posted + multiset{ev}, signallers := q.signallers + 1)
  }

  /** ReleaseNotifyEvent */
  function DoReleaseEvents(q: Queue): Queue {
    q.(events := [], discarded := q.discarded + multiset(q.events), notEmpty := false)
  }

  predicate Enabled(s: State, step: Step) {
    match step
    case Arrive(i, _) => i !in s.irps
    case Register(i, e, _) =>
      i in s.irps && s.irps[i].entry == None && s.irps[i].completers == [] && e !in s.entries
    case Cancel(i) => i in s.irps
    case ReadPointer(i) => i in s.irps && i in s.cancels && s.cancels[i] == Swapped
    case Unlink(i) => i in s.irps && i in s.cancels && s.cancels[i].PointerRead?
    case CompleteCancelled(i) => i in s.irps && i in s.cancels && s.cancels[i] == Unlinked
    case Complete(e) => e in s.completing
    case Post(ev) => ev.length > 0
    case Signal => s.queue.signallers > 0
    case _ => true
  }

  function Apply(s: State, step: Step): State
    requires Enabled(s, step)
  {
    match step
    case Arrive(i, buffer) => SetIrp(s, i, Irp(false, false, None, buffer, None, [], None))
    case Register(i, e, serial) => DoRegister(s, i, e, serial)
    case Cancel(i) => DoCancel(s, i)
    case ReadPointer(i) => s.(cancels := s.cancels[i := PointerRead(s.irps[i].context)])
    case Unlink(i) => DoUnlink(s, i)
    case CompleteCancelled(i) => CompleteRequest(s, i, CancelRoutine).(cancels := s.cancels - {i})
    case Reply(serial) => DoReply(s, serial)
    case Notify => DoNotify(s)
    case Release => DoRelease(s)
    case TimeOut(n) => DoTimeOut(s, n)
    case Complete(e) => DoComplete(s, e)
    case Post(ev) => s.(queue := DoPost(s.queue, ev))
    case Signal => s.(queue := s.queue.(notEmpty := true, signallers := s.queue.signallers - 1))
    case ReleaseEvents => s.(queue := DoReleaseEvents(s.queue))
  }

  // ----- the invariant -----

  /** The entry exists, was not freed, and still holds the IRP it was made for. */
  ghost predicate Live(s: State, e: EntryId, i: IrpId) {
    e in s.entries && s.entries[e].freed == 0 && s.entries[e].irp == Some(i) && s.entries[e].owner == i
  }

  /** Waiting on the list, its cancel routine set. */
  ghost predicate IsPending(s: State, i: IrpId, e: EntryId)
    requires i in s.irps
  {
    && s.irps[i].armed && i !in s.cancels && s.irps[i].completers == [] && s.irps[i].context == Some(e)
    && s.irps[i].received == None
    && Live(s, e, i) && !s.entries[e].cancelFrees && e in s.waiting && e !in s.completing
  }

  /** Its cancel routine was taken and has not unlinked the entry, which nobody else frees meanwhile. */
  ghost predicate IsCancelling(s: State, i: IrpId, e: EntryId)
    requires i in s.irps
  {
    && !s.irps[i].armed && i in s.cancels && s.cancels[i] != Unlinked && s.irps[i].completers == []
    && s.irps[i].context == Some(e) && (s.cancels[i].PointerRead? ==> s.cancels[i].entry == Some(e))
    && Live(s, e, i) && e !in s.completing && (e in s.waiting <==> !s.entries[e].cancelFrees)
  }

  /** Its cancel routine has unlinked the entry and will complete it. */
  ghost predicate IsUnlinked(s: State, i: IrpId, e: EntryId)
    requires i in s.irps
  {
    && !s.irps[i].armed && i in s.cancels && s.cancels[i] == Unlinked && s.irps[i].completers == []
    && e in s.entries && s.entries[e].irp == None && s.entries[e].freed <= 1 && e !in s.waiting && e !in s.completing
  }

  /** The bytes copied into the IRP's buffer. */
  function Copied(irp: Irp): nat { match irp.received case None => 0 case Some(ev) => ev.length }

  /** Somebody took it off the list and will complete it. */
  ghost predicate IsTaken(s: State, i: IrpId, e: EntryId)
    requires i in s.irps
  {
    && !s.irps[i].armed && i !in s.cancels && s.irps[i].completers == []
    && Live(s, e, i) && e !in s.waiting && e in s.completing
    && (s.completing[e] == NotifyJob ==> s.entries[e].serial == Copied(s.irps[i]))
  }

  /** Completed, once. */
  ghost predicate IsDone(s: State, i: IrpId, e: EntryId)
    requires i in s.irps
  {
    && !s.irps[i].armed && i !in s.cancels && |s.irps[i].completers| == 1
    && (s.irps[i].completers[0].Notifier? ==> s.irps[i].completers[0].information == Copied(s.irps[i]))
    && e in s.entries && s.entries[e].freed <= 1 && e !in s.waiting && e !in s.completing
  }

  ghost predicate IrpOk(s: State, i: IrpId)
    requires i in s.irps
  {
    match s.irps[i].entry
    case None =>
      && !s.irps[i].armed && i !in s.cancels && s.irps[i].received == None
      && (s.irps[i].completers == [] || s.irps[i].completers == [Dispatcher])
    case Some(e) =>
      && e in s.entries && s.entries[e].owner == i
      && (IsPending(s, i, e) || IsCancelling(s, i, e) || IsUnlinked(s, i, e) || IsTaken(s, i, e) || IsDone(s, i, e))
  }

  /** A listed or taken entry belongs to the IRP that is registered with it. */
  ghost predicate EntryOk(s: State, e: EntryId) {
    && e in s.entries && s.entries[e].irp == Some(s.entries[e].owner)
    && s.entries[e].owner in s.irps && s.irps[s.entries[e].owner].entry == Some(e)
  }

  ghost predicate NoRepeats(es: seq<EntryId>) {
    forall i, j :: 0 <= i < j < |es| ==> es[i] != es[j]
  }

  ghost predicate IrpsOk(s: State) { forall i :: i in s.irps ==> IrpOk(s, i) }

  ghost predicate EntriesOk(s: State) {
    && NoRepeats(s.waiting)
    && (forall e :: e in s.waiting || e in s.completing ==> EntryOk(s, e))
    && (forall e :: e in s.entries ==> s.entries[e].freed <= 1)
    && (forall i :: i in s.cancels ==> i in s.irps)
  }

  /** Every event posted is still queued, was delivered, or was thrown away with the queue. */
  ghost predicate Conserved(q: Queue) {
    && q.posted == multiset(q.events) + multiset(EventsOf(q.delivered)) + q.discarded
    && forall k :: 0 <= k < |q.events| ==> q.events[k].length > 0
  }

  function EventsOf(ds: seq<(IrpId, Event)>): (r: seq<Event>)
    ensures |r| == |ds| && forall k :: 0 <= k < |r| ==> r[k] == ds[k].1
  {
    seq(|ds|, k requires 0 <= k < |ds| => ds[k].1)
  }

  /** Each delivery went into the buffer of one IRP that is large enough, and each IRP got at most one event. */
  ghost predicate DeliveredOk(irps: map<IrpId, Irp>, delivered: seq<(IrpId, Event)>) {
    && (forall k :: 0 <= k < |delivered| ==>
          && delivered[k].0 in irps && irps[delivered[k].0].received == Some(delivered[k].1)
          && delivered[k].1.length <= irps[delivered[k].0].buffer)
    && (forall j, k :: 0 <= j < k < |delivered| ==> delivered[j].0 != delivered[k].0)
  }

  /** Nobody waits in vain: with waiters and events at hand, the notification thread is or will be woken. */
  ghost predicate Awake(s: State) {
    s.waiting != [] && s.queue.events != [] ==> s.waitingNotEmpty || s.queue.notEmpty || s.queue.signallers > 0
  }

  ghost predicate Inv(s: State) {
    Core(s) && Conserved(s.queue) && DeliveredOk(s.irps, s.queue.delivered) && Awake(s)
  }

  ghost predicate Core(s: State) { !s.usedFreed && IrpsOk(s) && EntriesOk(s) }

  // ----- one IRP and its entry at a time -----

  /** The states differ in what concerns IRP i and entry e only. */
  ghost predicate SameElsewhere(s: State, t: State, i: IrpId, e: EntryId) {
    && s.irps.Keys <= t.irps.Keys <= s.irps.Keys + {i}
    && s.entries.Keys <= t.entries.Keys <= s.entries.Keys + {e}
    && (forall j :: j in s.irps && j != i ==> t.irps[j] == s.irps[j] && (j in t.cancels <==> j in s.cancels))
    && (forall j :: j in s.cancels && j in t.cancels && j != i ==> t.cancels[j] == s.cancels[j])
    && (forall f :: f in s.entries && f != e ==> t.entries[f] == s.entries[f])
    && (forall f :: f != e ==> (f in t.waiting <==> f in s.waiting) && (f in t.completing <==> f in s.completing))
    && (forall f :: f in s.completing && f in t.completing && f != e ==> t.completing[f] == s.completing[f])
  }

  ghost predicate OneIrp(s: State, t: State, i: IrpId) {
    t.irps.Keys == s.irps.Keys && i in t.irps && forall j :: j in s.irps && j != i ==> t.irps[j] == s.irps[j]
  }

  ghost predicate OneEntry(s: State, t: State, e: EntryId) {
    t.entries.Keys == s.entries.Keys && e in t.entries && forall f :: f in s.entries && f != e ==>
      t.entries[f] == s.entries[f]
  }

  lemma OtherIrpOk(s: State, t: State, i: IrpId, e: EntryId, j: IrpId)
    requires SameElsewhere(s, t, i, e) && j in s.irps && j != i && IrpOk(s, j) && s.irps[j].entry != Some(e)
    ensures IrpOk(t, j)
  {
  }

  /** What keeps the core of the invariant: it holds elsewhere, and for the IRP and entry at hand. */
  lemma CoreFromOne(s: State, t: State, i: IrpId, e: EntryId)
    requires Core(s) && SameElsewhere(s, t, i, e) && !t.usedFreed
    requires e in s.entries ==> s.entries[e].owner == i
    requires i in t.irps ==> IrpOk(t, i)
    requires NoRepeats(t.waiting) && (forall j :: j in t.cancels ==> j in t.irps)
    requires e in t.waiting || e in t.completing ==> EntryOk(t, e)
    requires e in t.entries ==> t.entries[e].freed <= 1 && t.entries[e].owner == i
    requires i in s.irps ==> forall f :: f != e ==> s.irps[i].entry != Some(f)
    ensures Core(t)
  {
    forall j | j in t.irps ensures IrpOk(t, j) {
      if j != i {
        assert IrpOk(s, j);
        OtherIrpOk(s, t, i, e, j);
      }
    }
    forall f | f in t.waiting || f in t.completing ensures EntryOk(t, f) {
      if f != e {
        assert EntryOk(s, f);
      }
    }
  }

  lemma {:induction false} WithoutMembers(es: seq<EntryId>, e: EntryId)
    requires NoRepeats(es)
    ensures NoRepeats(Without(es, e))
    ensures forall x :: x in Without(es, e) <==> x in es && x != e
    ensures |Without(es, e)| == if e in es then |es| - 1 else |es|
    decreases |es|
  {
    if es != [] {
      var rest := es[1..];
      assert es == [es[0]] + rest;
      assert forall x :: x in rest ==> x != es[0] by {
        assert forall k :: 0 <= k < |rest| ==> rest[k] == es[k + 1];
      }
      WithoutMembers(rest, e);
      var w := Without(rest, e);
      forall j | 0 <= j < |w| ensures w[j] != es[0] {
        assert w[j] in w;
      }
    }
  }

  // ----- the steps that take an entry off the list -----

  /** The dead branch of three routines: an entry on the list always holds an IRP. */
  lemma ListedHoldsIrp(s: State, e: EntryId)
    requires Core(s) && e in s.waiting
    ensures e in s.entries && var i := s.entries[e].owner;
      && Live(s, e, i) && i in s.irps && s.irps[i].entry == Some(e)
      && (IsPending(s, i, e) || IsCancelling(s, i, e)) && (s.irps[i].armed <==> IsPending(s, i, e))
  {
    assert EntryOk(s, e);
    assert IrpOk(s, s.entries[e].owner);
  }

  /** Losing the race to the cancel routine: the entry is left for it to free. */
  lemma LostKeepsCore(s: State, e: EntryId)
    requires Core(s) && e in s.waiting && TakeOff(s, e).1 != Won(s.entries[e].owner)
    ensures TakeOff(s, e).1 == Lost && Core(TakeOff(s, e).0)
    ensures TakeOff(s, e).0.waiting == Without(s.waiting, e)
  {
    ListedHoldsIrp(s, e);
    WithoutMembers(s.waiting, e);
    var i := s.entries[e].owner;
    var t := TakeOff(s, e).0;
    assert IsCancelling(t, i, e);
    CoreFromOne(s, t, i, e);
  }

  /** Winning it: whatever the job, nobody else will complete the IRP. */
  lemma WonKeepsCore(s: State, e: EntryId, t: State, i: IrpId, job: Job)
    requires Core(s) && e in s.waiting && i in s.irps && s.irps[i].armed && s.entries[e].owner == i && e in s.entries
    requires OneIrp(s, t, i) && !t.irps[i].armed
    requires t.irps[i].completers == s.irps[i].completers && t.irps[i].entry == s.irps[i].entry
    requires OneEntry(s, t, e) && t.entries[e].(serial := 0) == s.entries[e].(serial := 0)
    requires t.waiting == Without(s.waiting, e) && t.completing == s.completing[e := job]
    requires t.cancels == s.cancels && !t.usedFreed
    requires job == NotifyJob ==> t.entries[e].serial == Copied(t.irps[i])
    ensures Core(t)
  {
    ListedHoldsIrp(s, e);
    WithoutMembers(s.waiting, e);
    assert IsTaken(t, i, e);
    CoreFromOne(s, t, i, e);
  }

  // ----- each step keeps the core -----

  lemma ArriveKeepsCore(s: State, i: IrpId, buffer: nat)
    requires Core(s) && i !in s.irps
    ensures Core(Apply(s, Arrive(i, buffer)))
  {
    var t := Apply(s, Arrive(i, buffer));
    forall j | j in t.irps ensures IrpOk(t, j) {
      if j != i {
        assert IrpOk(s, j);
      }
    }
    forall e | e in t.waiting || e in t.completing ensures EntryOk(t, e) {
      assert EntryOk(s, e);
    }
  }

  lemma RegisterKeepsCore(s: State, i: IrpId, e: EntryId, serial: nat)
    requires Core(s) && Enabled(s, Register(i, e, serial))
    ensures Core(DoRegister(s, i, e, serial))
  {
    assert IrpOk(s, i);
    assert !EntryOk(s, e);
    if s.irps[i].cancelled {
      RejectKeepsCore(s, i, e, serial);
    } else {
      var t := DoRegister(s, i, e, serial);
      assert IsPending(t, i, e);
      CoreFromOne(s, t, i, e);
    }
  }

  /** An IRP cancelled before it was registered is left to the dispatcher, and its entry is freed at once. */
  lemma RejectKeepsCore(s: State, i: IrpId, e: EntryId, serial: nat)
    requires Core(s) && Enabled(s, Register(i, e, serial)) && s.irps[i].cancelled && e !in s.waiting
      && e !in s.completing
    ensures Core(DoRegister(s, i, e, serial))
  {
    assert IrpOk(s, i);
    CoreFromOne(s, DoRegister(s, i, e, serial), i, e);
  }

  lemma CancelKeepsCore(s: State, i: IrpId)
    requires Core(s) && i in s.irps
    ensures Core(DoCancel(s, i))
  {
    assert IrpOk(s, i);
    match s.irps[i].entry {
      case None => AloneKeepsCore(s, DoCancel(s, i), i);
      case Some(e) => RegisteredCancelKeepsCore(s, i, e);
    }
  }

  lemma RegisteredCancelKeepsCore(s: State, i: IrpId, e: EntryId)
    requires Core(s) && i in s.irps && s.irps[i].entry == Some(e)
    ensures Core(DoCancel(s, i))
  {
    var t := DoCancel(s, i);
    assert IrpOk(s, i);
    assert e in s.entries && s.entries[e].owner == i;
    ArmedCancel(s, i, e);
    UnarmedCancel(s, i, e);
    CancelParts(s, i);
    hide DoCancel, IrpOk;
    EntryStays(s, t, i, e);
    CoreFromOne(s, t, i, e);
  }

  lemma CancelParts(s: State, i: IrpId)
    requires i in s.irps
    ensures var t := DoCancel(s, i);
      && OneIrp(s, t, i) && t.irps[i].entry == s.irps[i].entry
      && t.entries == s.entries && t.waiting == s.waiting && t.completing == s.completing && t.usedFreed == s.usedFreed
      && t.cancels == if s.irps[i].armed then s.cancels[i := Swapped] else s.cancels
  {
  }

  lemma ArmedCancel(s: State, i: IrpId, e: EntryId)
    requires i in s.irps && s.irps[i].entry == Some(e) && IrpOk(s, i)
    ensures s.irps[i].armed ==> IrpOk(DoCancel(s, i), i)
  {
    if s.irps[i].armed {
      assert IsCancelling(DoCancel(s, i), i, e);
    }
  }

  lemma UnarmedCancel(s: State, i: IrpId, e: EntryId)
    requires i in s.irps && s.irps[i].entry == Some(e) && IrpOk(s, i)
    ensures !s.irps[i].armed ==> IrpOk(DoCancel(s, i), i)
  {
  }

  /** A step on an IRP that was never registered. */
  lemma AloneKeepsCore(s: State, t: State, i: IrpId)
    requires Core(s) && i in s.irps && s.irps[i].entry == None
    requires t.irps.Keys == s.irps.Keys && t.irps == s.irps[i := t.irps[i]] && t == s.(irps := t.irps)
    requires t.irps[i].entry == None && IrpOk(t, i)
    ensures Core(t)
  {
    forall j | j in t.irps ensures IrpOk(t, j) {
      assert IrpOk(s, j);
    }
    forall e | e in t.waiting || e in t.completing ensures EntryOk(t, e) {
      assert EntryOk(s, e);
    }
  }

  /** What is listed or taken stays so, when neither lists nor entries nor the registration change. */
  lemma EntryStays(s: State, t: State, i: IrpId, e: EntryId)
    requires Core(s) && i in s.irps && t.irps.Keys == s.irps.Keys && t.irps[i].entry == s.irps[i].entry == Some(e)
    requires e in s.entries && s.entries[e].owner == i && e in t.entries && t.entries[e] == s.entries[e]
    requires t.waiting == s.waiting && t.completing == s.completing
    ensures NoRepeats(t.waiting) && (e in t.waiting || e in t.completing ==> EntryOk(t, e))
    ensures t.entries[e].freed <= 1
  {
    assert e in s.waiting || e in s.completing ==> EntryOk(s, e);
  }

  lemma ReadPointerKeepsCore(s: State, i: IrpId)
    requires Core(s) && Enabled(s, ReadPointer(i))
    ensures Core(Apply(s, ReadPointer(i)))
    ensures s.irps[i].context.Some?
  {
    var t := Apply(s, ReadPointer(i));
    assert IrpOk(s, i);
    var e := s.irps[i].entry.value;
    assert IsCancelling(s, i, e) && IsCancelling(t, i, e);
    EntryStays(s, t, i, e);
    CoreFromOne(s, t, i, e);
  }

  /** What the cancel routine changes under the lock. */
  lemma UnlinkParts(s: State, i: IrpId, e: EntryId)
    requires i in s.irps && i in s.cancels && s.cancels[i] == PointerRead(Some(e))
    requires e in s.entries && s.entries[e].freed == 0
    ensures var t := DoUnlink(s, i);
      && t.irps == s.irps[i := s.irps[i].(context := None)]
      && t.entries == s.entries[e := s.entries[e].(irp := None, freed := if s.entries[e].cancelFrees then 1 else 0)]
      && t.waiting == Without(s.waiting, e) && t.completing == s.completing
      && t.cancels == s.cancels[i := Unlinked] && t.usedFreed == s.usedFreed
  {
    hide Without, Cleared;
    ClearedParts(Unlisted(s, i, e), i, e);
  }

  lemma ClearedParts(s: State, i: IrpId, e: EntryId)
    requires i in s.irps && e in s.entries && s.entries[e].freed == 0
    ensures var t := Cleared(s, i, e);
      && t.irps == s.irps[i := s.irps[i].(context := None)]
      && t.entries == s.entries[e := s.entries[e].(irp := None, freed := if s.entries[e].cancelFrees then 1 else 0)]
      && t.waiting == s.waiting && t.completing == s.completing && t.cancels == s.cancels && t.usedFreed == s.usedFreed
  {
  }

  /** The cancel routine finds its entry alive, and frees it only when it was told to, so only once. */
  lemma UnlinkKeepsCore(s: State, i: IrpId)
    requires Core(s) && Enabled(s, Unlink(i))
    ensures Core(DoUnlink(s, i)) && s.cancels[i].entry.Some? && Live(s, s.cancels[i].entry.value, i)
  {
    hide DoUnlink, Without;
    var t := DoUnlink(s, i);
    assert IrpOk(s, i);
    var e := s.irps[i].entry.value;
    assert IsCancelling(s, i, e);
    UnlinkParts(s, i, e);
    WithoutMembers(s.waiting, e);
    assert IsUnlinked(t, i, e);
    CoreFromOne(s, t, i, e);
  }

  lemma CompleteCancelledKeepsCore(s: State, i: IrpId)
    requires Core(s) && Enabled(s, CompleteCancelled(i))
    ensures Core(Apply(s, CompleteCancelled(i))) && s.irps[i].completers == []
  {
    var t := Apply(s, CompleteCancelled(i));
    assert IrpOk(s, i);
    var e := s.irps[i].entry.value;
    assert IsUnlinked(s, i, e) && IsDone(t, i, e);
    CoreFromOne(s, t, i, e);
  }

  lemma CompleteKeepsCore(s: State, e: EntryId)
    requires Core(s) && e in s.completing
    ensures Core(DoComplete(s, e))
    ensures e in s.entries && Live(s, e, s.entries[e].owner)
    ensures s.entries[e].owner in s.irps && s.irps[s.entries[e].owner].completers == []
  {
    var t := DoComplete(s, e);
    assert EntryOk(s, e);
    var i := s.entries[e].owner;
    assert IrpOk(s, i);
    assert IsTaken(s, i, e) && IsDone(t, i, e);
    CoreFromOne(s, t, i, e);
  }

  lemma SettleKeepsCore(s: State, k: nat, job: Job)
    requires Core(s) && k < |s.waiting| && job != NotifyJob
    ensures Core(SettleAt(s, k, job))
  {
    hide IrpsOk, EntriesOk;
    var e := s.waiting[k];
    assert e in s.waiting;
    ListedHoldsIrp(s, e);
    var i := s.entries[e].owner;
    if s.irps[i].armed {
      WonKeepsCore(s, e, SettleAt(s, k, job), i, job);
    } else {
      LostKeepsCore(s, e);
    }
  }

  lemma ReplyKeepsCore(s: State, serial: nat)
    requires Core(s)
    ensures Core(DoReply(s, serial))
  {
    hide Core, SettleAt;
    var k := Find(s, 0, serial);
    if k < |s.waiting| {
      SettleKeepsCore(s, k, ReplyJob);
    }
  }

  lemma {:induction false} TimeOutAllKeepsCore(s: State, n: nat)
    requires Core(s)
    ensures Core(TimeOutAll(s, n))
    decreases n
  {
    hide Core, SettleAt;
    if n > 0 && s.waiting != [] {
      SettleKeepsCore(s, 0, TimeoutJob);
      TimeOutAllKeepsCore(SettleAt(s, 0, TimeoutJob), n - 1);
    }
  }

  /** A round of the pairing loop: the event goes back to the queue, or into the buffer of one IRP. */
  lemma PairOneKeepsCore(s: State)
    requires Core(s) && s.waiting != [] && s.queue.events != []
    ensures Core(PairOne(s)) && |PairOne(s).waiting| == |s.waiting| - 1
  {
    hide Core, PairOne;
    var e := s.waiting[0];
    var u := Popped(s);
    assert e in s.waiting;
    QueueIsApart(s, u);
    ListedHoldsIrp(u, e);
    if u.irps[u.entries[e].owner].armed {
      PairWonKeepsCore(s, u, e);
    } else {
      PairLostKeepsCore(s, u, e);
    }
  }

  lemma PairWonKeepsCore(s: State, u: State, e: EntryId)
    requires s.waiting != [] && s.queue.events != [] && u == Popped(s) && e == s.waiting[0] && Core(u)
    requires e in u.entries && u.entries[e].freed == 0
    requires var i := u.entries[e].owner; u.entries[e].irp == Some(i) && i in u.irps && u.irps[i].armed
    ensures Core(PairOne(s)) && |PairOne(s).waiting| == |s.waiting| - 1
  {
    hide Core, Without;
    var i := u.entries[e].owner;
    assert e in u.waiting;
    WonParts(u, e, i);
    DeliverParts(TakeOff(u, e).0, e, i, s.queue.events[0]);
    assert u.irps[i].received == None by { ListedHoldsIrp(u, e); }
    DeliverReports(TakeOff(u, e).0, e, i, s.queue.events[0]);
    NotUsedFreed(u);
    hide TakeOff, Deliver;
    WonKeepsCore(u, e, PairOne(s), i, NotifyJob);
  }

  lemma NotUsedFreed(s: State)
    requires Core(s)
    ensures !s.usedFreed
  {
  }

  /** What winning an IRP changes. */
  lemma WonParts(s: State, e: EntryId, i: IrpId)
    requires e in s.entries && s.entries[e].freed == 0 && s.entries[e].irp == Some(i) && i in s.irps && s.irps[i].armed
    ensures var (t, taken) := TakeOff(s, e);
      && taken == Won(i) && OneIrp(s, t, i) && t.irps[i] == s.irps[i].(armed := false) && t.entries == s.entries
      && t.waiting == Without(s.waiting, e) && t.completing == s.completing
      && t.cancels == s.cancels && t.usedFreed == s.usedFreed
  {
    hide Without;
  }

  lemma DeliverParts(t: State, e: EntryId, i: IrpId, ev: Event)
    requires e in t.entries && i in t.irps
    ensures var r := Deliver(t, e, i, ev);
      && OneIrp(t, r, i) && r.irps[i] == t.irps[i].(received := r.irps[i].received)
      && OneEntry(t, r, e) && r.entries[e].(serial := 0) == t.entries[e].(serial := 0)
      && r.waiting == t.waiting && r.completing == t.completing[e := NotifyJob]
      && r.cancels == t.cancels && r.usedFreed == t.usedFreed
  {
    DeliverIrps(t, e, i, ev);
    DeliverEntries(t, e, i, ev);
    hide OneIrp, OneEntry;
  }

  lemma DeliverReports(t: State, e: EntryId, i: IrpId, ev: Event)
    requires e in t.entries && i in t.irps && t.irps[i].received == None
    ensures e in Deliver(t, e, i, ev).entries && i in Deliver(t, e, i, ev).irps
    ensures Deliver(t, e, i, ev).entries[e].serial == Copied(Deliver(t, e, i, ev).irps[i])
  {
    if t.irps[i].buffer < ev.length {
      DeliverFails(t, e, i, ev);
      hide Deliver;
    } else {
      DeliverFits(t, e, i, ev);
      hide Deliver;
    }
  }

  lemma DeliverFails(t: State, e: EntryId, i: IrpId, ev: Event)
    requires e in t.entries && i in t.irps && t.irps[i].buffer < ev.length
    ensures Deliver(t, e, i, ev).irps == t.irps
    ensures Deliver(t, e, i, ev).entries == t.entries[e := t.entries[e].(serial := 0)]
  {
  }

  lemma DeliverFits(t: State, e: EntryId, i: IrpId, ev: Event)
    requires e in t.entries && i in t.irps && t.irps[i].buffer >= ev.length
    ensures Deliver(t, e, i, ev).irps == t.irps[i := t.irps[i].(received := Some(ev))]
    ensures Deliver(t, e, i, ev).entries == t.entries[e := t.entries[e].(serial := ev.length)]
  {
  }

  lemma DeliverIrps(t: State, e: EntryId, i: IrpId, ev: Event)
    requires e in t.entries && i in t.irps
    ensures OneIrp(t, Deliver(t, e, i, ev), i)
    ensures Deliver(t, e, i, ev).irps[i] == t.irps[i].(received := Deliver(t, e, i, ev).irps[i].received)
  {
  }

  lemma DeliverEntries(t: State, e: EntryId, i: IrpId, ev: Event)
    requires e in t.entries && i in t.irps
    ensures OneEntry(t, Deliver(t, e, i, ev), e)
    ensures Deliver(t, e, i, ev).entries[e].(serial := 0) == t.entries[e].(serial := 0)
  {
  }

  lemma PairLostKeepsCore(s: State, u: State, e: EntryId)
    requires s.waiting != [] && s.queue.events != [] && u == Popped(s) && e == s.waiting[0] && Core(u)
    requires e in u.entries && u.entries[e].freed == 0
    requires var i := u.entries[e].owner; u.entries[e].irp == Some(i) && i in u.irps && !u.irps[i].armed
    ensures Core(PairOne(s)) && |PairOne(s).waiting| == |s.waiting| - 1
  {
    hide IrpsOk, EntriesOk;
    assert e in u.waiting;
    LostKeepsCore(u, e);
    QueueIsApart(TakeOff(u, e).0, PairOne(s));
  }

  lemma QueueIsApart(s: State, t: State)
    requires Core(s) && t == s.(queue := t.queue, waitingNotEmpty := t.waitingNotEmpty)
    ensures Core(t)
  {
    assert forall i :: i in t.irps ==> IrpOk(s, i) && IrpOk(t, i);
    assert forall e :: e in t.waiting || e in t.completing ==> EntryOk(s, e) && EntryOk(t, e);
  }

  lemma {:induction false} PairAllKeepsCore(s: State)
    requires Core(s)
    ensures Core(PairAll(s)) && (PairAll(s).waiting == [] || PairAll(s).queue.events == [])
    decreases |s.waiting|
  {
    hide Core, PairOne;
    if s.waiting != [] && s.queue.events != [] {
      PairOneKeepsCore(s);
      PairAllKeepsCore(PairOne(s));
    }
  }

  lemma PairAllUnfolds(s: State)
    ensures PairAll(s) == if s.waiting == [] || s.queue.events == [] then s else PairAll(PairOne(s))
  {
    hide PairOne;
  }

  lemma ReleaseOneKeepsCore(s: State)
    requires Core(s) && s.waiting != []
    ensures Core(ReleaseOne(s)) && |ReleaseOne(s).waiting| == |s.waiting| - 1
  {
    hide IrpsOk, EntriesOk, NoRepeats;
    var e := s.waiting[0];
    assert e in s.waiting;
    ListedHoldsIrp(s, e);
    var i := s.entries[e].owner;
    if s.irps[i].armed {
      WonKeepsCore(s, e, ReleaseOne(s), i, ReleaseJob);
    } else {
      LostKeepsCore(s, e);
    }
  }

  lemma {:induction false} ReleaseAllKeepsCore(s: State)
    requires Core(s)
    ensures Core(ReleaseAll(s)) && ReleaseAll(s).waiting == []
    decreases |s.waiting|
  {
    hide Core, ReleaseOne;
    if s.waiting != [] {
      ReleaseOneKeepsCore(s);
      ReleaseAllKeepsCore(ReleaseOne(s));
    }
  }

  lemma ReleaseAllUnfolds(s: State)
    ensures ReleaseAll(s) == if s.waiting == [] then s else ReleaseAll(ReleaseOne(s))
  {
    hide ReleaseOne;
  }

  // ----- events: where they go, and who is woken -----

  lemma TimeOutAllUnfolds(s: State, n: nat)
    ensures TimeOutAll(s, n) ==
      if n == 0 || s.waiting == [] then s else TimeOutAll(SettleAt(s, 0, TimeoutJob), n - 1)
  {
  }

  /** A step that moves no event and does not touch what the IRPs received. */
  ghost predicate Quiet(s: State, t: State) {
    t.queue == s.queue && SameBuffers(s.irps, t.irps)
  }

  ghost predicate SameBuffers(a: map<IrpId, Irp>, b: map<IrpId, Irp>) {
    forall i :: i in a ==> i in b && b[i].received == a[i].received && b[i].buffer == a[i].buffer
  }

  lemma QuietKeepsEvents(s: State, t: State)
    requires Quiet(s, t) && Conserved(s.queue) && DeliveredOk(s.irps, s.queue.delivered)
    ensures Conserved(t.queue) && DeliveredOk(t.irps, t.queue.delivered)
  {
  }

  lemma ClaimIsQuiet(s: State, e: EntryId)
    ensures Quiet(s, Claim(s, e).0) && Claim(s, e).0.waitingNotEmpty == s.waitingNotEmpty
  {
  }

  lemma TakeOffIsQuiet(s: State, e: EntryId)
    ensures Quiet(s, TakeOff(s, e).0) && TakeOff(s, e).0.waitingNotEmpty == s.waitingNotEmpty
  {
    hide Without, Claim, SameBuffers;
    ClaimIsQuiet(Removed(s, e), e);
  }

  lemma SettleIsQuiet(s: State, k: nat, job: Job)
    requires k < |s.waiting|
    ensures var t := SettleAt(s, k, job);
      Quiet(s, t) && t.waitingNotEmpty == s.waitingNotEmpty && (t.waiting != [] ==> s.waiting != [])
  {
    hide TakeOff;
    TakeOffIsQuiet(s, s.waiting[k]);
  }

  lemma ReplyIsQuiet(s: State, serial: nat)
    ensures var t := DoReply(s, serial);
      Quiet(s, t) && t.waitingNotEmpty == s.waitingNotEmpty && (t.waiting != [] ==> s.waiting != [])
  {
    hide SettleAt;
    var k := Find(s, 0, serial);
    if k < |s.waiting| {
      SettleIsQuiet(s, k, ReplyJob);
    }
  }

  lemma {:induction false} TimeOutAllIsQuiet(s: State, n: nat)
    ensures var t := TimeOutAll(s, n);
      Quiet(s, t) && t.waitingNotEmpty == s.waitingNotEmpty && (t.waiting != [] ==> s.waiting != [])
    decreases n
  {
    hide SettleAt;
    if n > 0 && s.waiting != [] {
      SettleIsQuiet(s, 0, TimeoutJob);
      TimeOutAllIsQuiet(SettleAt(s, 0, TimeoutJob), n - 1);
    }
  }

  lemma ReleaseOneIsQuiet(s: State)
    requires s.waiting != []
    ensures Quiet(s, ReleaseOne(s))
  {
    hide TakeOff;
    TakeOffIsQuiet(s, s.waiting[0]);
  }

  lemma {:induction false} ReleaseAllIsQuiet(s: State)
    ensures Quiet(s, ReleaseAll(s))
    decreases |s.waiting|
  {
    if s.waiting != [] {
      ReleaseOneIsQuiet(s);
      hide ReleaseOne;
      ReleaseAllIsQuiet(ReleaseOne(s));
    }
  }

  lemma RegisterIsQuiet(s: State, i: IrpId, e: EntryId, serial: nat)
    requires i in s.irps
    ensures var t := DoRegister(s, i, e, serial); Quiet(s, t) && (Awake(s) ==> Awake(t))
  {
  }

  lemma CancelIsQuiet(s: State, i: IrpId)
    requires i in s.irps
    ensures var t := DoCancel(s, i); Quiet(s, t) && (Awake(s) ==> Awake(t))
  {
  }

  /** The steps on one IRP or one entry. */
  lemma SmallStepsAreQuiet(s: State, step: Step)
    requires Enabled(s, step)
    requires step.Arrive? || step.Register? || step.Cancel? || step.ReadPointer? || step.CompleteCancelled?
    ensures Quiet(s, Apply(s, step)) && (Awake(s) ==> Awake(Apply(s, step)))
  {
    hide DoRegister, DoCancel, DoComplete, DoReply, DoNotify, DoRelease, DoTimeOut, DoUnlink, DoPost;
    hide DoReleaseEvents;
    match step {
      case Register(i, e, serial) => RegisterIsQuiet(s, i, e, serial);
      case Cancel(i) => CancelIsQuiet(s, i);
      case _ =>
    }
  }

  lemma CompleteIsQuiet(s: State, e: EntryId)
    requires e in s.completing
    ensures var t := DoComplete(s, e); Quiet(s, t) && (Awake(s) ==> Awake(t))
  {
  }

  lemma UnlinkIsQuiet(s: State, i: IrpId, e: EntryId)
    requires i in s.irps && i in s.cancels && s.cancels[i] == PointerRead(Some(e)) && e in s.entries
      && s.entries[e].freed == 0
    ensures var t := DoUnlink(s, i); Quiet(s, t) && (Awake(s) ==> Awake(t))
  {
    UnlinkFlags(s, i, e);
    UnlinkParts(s, i, e);
    hide DoUnlink, Without;
  }

  lemma UnlinkFlags(s: State, i: IrpId, e: EntryId)
    requires i in s.irps && i in s.cancels && s.cancels[i] == PointerRead(Some(e)) && e in s.entries
    ensures var t := DoUnlink(s, i);
      && t.queue == s.queue && t.waitingNotEmpty == (s.waitingNotEmpty && t.waiting != [])
      && (t.waiting != [] ==> s.waiting != [])
  {
    hide Without;
    var t := DoUnlink(s, i);
    assert t.waiting != [] ==> t.waiting[0] in s.waiting;
  }

  lemma EventsOfMore(ds: seq<(IrpId, Event)>, i: IrpId, ev: Event)
    ensures EventsOf(ds + [(i, ev)]) == EventsOf(ds) + [ev]
  {
  }

  lemma PopAndPush(q: Queue)
    requires Conserved(q) && q.events != []
    ensures Conserved(q.(events := q.events[1..] + [q.events[0]]))
  {
    assert q.events == [q.events[0]] + q.events[1..];
  }

  lemma PopAndDeliver(q: Queue, i: IrpId)
    requires Conserved(q) && q.events != []
    ensures Conserved(q.(events := q.events[1..], delivered := q.delivered + [(i, q.events[0])]))
  {
    assert q.events == [q.events[0]] + q.events[1..];
    EventsOfMore(q.delivered, i, q.events[0]);
  }

  lemma OneMoreDelivered(a: map<IrpId, Irp>, b: map<IrpId, Irp>, ds: seq<(IrpId, Event)>, i: IrpId, ev: Event)
    requires DeliveredOk(a, ds) && SameBuffers(a, b) && i in a && a[i].received == None && ev.length <= a[i].buffer
    ensures DeliveredOk(b[i := b[i].(received := Some(ev))], ds + [(i, ev)])
  {
    assert forall k :: 0 <= k < |ds| ==> ds[k].0 != i;
  }

  /** A round of the pairing loop moves one event, from the head of the queue to one buffer or to the tail. */
  lemma PairOneKeepsEvents(s: State)
    requires Core(s) && Conserved(s.queue) && DeliveredOk(s.irps, s.queue.delivered) && s.waiting != []
      && s.queue.events != []
    ensures Conserved(PairOne(s).queue) && DeliveredOk(PairOne(s).irps, PairOne(s).queue.delivered)
  {
    var ev, e := s.queue.events[0], s.waiting[0];
    var (t, taken) := TakeOff(Popped(s), e);
    assert e in s.waiting;
    TakeOffIsQuiet(Popped(s), e);
    ListedHoldsIrp(s, e);
    assert taken.Won? ==> taken.irp in s.irps && s.irps[taken.irp].received == None;
    hide Core, TakeOff, Conserved, DeliveredOk;
    PopAndPush(s.queue);
    if taken.Won? && t.irps[taken.irp].buffer >= ev.length {
      PopAndDeliver(s.queue, taken.irp);
      OneMoreDelivered(s.irps, t.irps, s.queue.delivered, taken.irp, ev);
    } else {
      SameDeliveries(s.irps, t.irps, s.queue.delivered);
    }
  }

  lemma SameDeliveries(a: map<IrpId, Irp>, b: map<IrpId, Irp>, ds: seq<(IrpId, Event)>)
    requires DeliveredOk(a, ds) && SameBuffers(a, b)
    ensures DeliveredOk(b, ds)
  {
  }

  lemma {:induction false} PairAllKeepsEvents(s: State)
    requires Core(s) && Conserved(s.queue) && DeliveredOk(s.irps, s.queue.delivered)
    ensures Conserved(PairAll(s).queue) && DeliveredOk(PairAll(s).irps, PairAll(s).queue.delivered)
    decreases |s.waiting|
  {
    hide Core, Conserved, DeliveredOk, PairOne;
    if s.waiting != [] && s.queue.events != [] {
      PairOneKeepsCore(s);
      PairOneKeepsEvents(s);
      PairAllKeepsEvents(PairOne(s));
    }
  }

  // ----- the theorems -----

  lemma StepKeepsCore(s: State, step: Step)
    requires Core(s) && Enabled(s, step)
    ensures Core(Apply(s, step))
  {
    hide Core, DoRegister, DoCancel, DoUnlink, DoReply, PairAll, ReleaseAll, TimeOutAll, DoComplete;
    match step {
      case Arrive(i, buffer) => ArriveKeepsCore(s, i, buffer);
      case Register(i, e, serial) => RegisterKeepsCore(s, i, e, serial);
      case Cancel(i) => CancelKeepsCore(s, i);
      case ReadPointer(i) => ReadPointerKeepsCore(s, i);
      case Unlink(i) => UnlinkKeepsCore(s, i);
      case CompleteCancelled(i) => CompleteCancelledKeepsCore(s, i);
      case Reply(serial) => ReplyKeepsCore(s, serial);
      case Notify =>
        PairAllKeepsCore(s);
        QueueIsApart(PairAll(s), Apply(s, step));
      case Release =>
        ReleaseAllKeepsCore(s);
        QueueIsApart(ReleaseAll(s), Apply(s, step));
      case TimeOut(n) =>
        TimeOutAllKeepsCore(s, n);
        QueueIsApart(TimeOutAll(s, n), Apply(s, step));
      case Complete(e) => CompleteKeepsCore(s, e);
      case Post(_) => QueueIsApart(s, Apply(s, step));
      case Signal => QueueIsApart(s, Apply(s, step));
      case ReleaseEvents => QueueIsApart(s, Apply(s, step));
    }
  }

  lemma StepKeepsEvents(s: State, step: Step)
    requires Inv(s) && Enabled(s, step)
    ensures var t := Apply(s, step); Conserved(t.queue) && DeliveredOk(t.irps, t.queue.delivered) && Awake(t)
  {
    hide Core, DoRegister, DoCancel, DoUnlink, DoReply, PairAll, ReleaseAll, DoTimeOut, DoComplete, Quiet;
    hide DeliveredOk;
    var t := Apply(s, step);
    match step {
      case Unlink(i) => UnlinkKeepsEvents(s, i);
      case Reply(serial) => ReplyIsQuiet(s, serial); ReplyKeepsEvents(s, serial);
      case Notify => PairAllKeepsCore(s); PairAllKeepsEvents(s);
      case Release => ReleaseKeepsEvents(s);
      case TimeOut(n) => TimeOutKeepsEvents(s, n);
      case Complete(e) => CompleteIsQuiet(s, e); QuietKeepsEvents(s, t);
      case Post(ev) => PostKeepsEvents(s.queue, ev);
      case Signal =>
      case ReleaseEvents => ReleaseEventsKeepsEvents(s.queue);
      case _ => SmallStepsAreQuiet(s, step); QuietKeepsEvents(s, t);
    }
  }

  lemma UnlinkKeepsEvents(s: State, i: IrpId)
    requires Inv(s) && Enabled(s, Unlink(i))
    ensures var t := DoUnlink(s, i); Conserved(t.queue) && DeliveredOk(t.irps, t.queue.delivered) && Awake(t)
  {
    hide Core, DoUnlink, Quiet;
    UnlinkKeepsCore(s, i);
    UnlinkIsQuiet(s, i, s.cancels[i].entry.value);
    QuietKeepsEvents(s, DoUnlink(s, i));
  }

  lemma ReplyKeepsEvents(s: State, serial: nat)
    requires Inv(s)
    ensures var t := DoReply(s, serial); Conserved(t.queue) && DeliveredOk(t.irps, t.queue.delivered) && Awake(t)
  {
    hide Core, DoReply;
    ReplyIsQuiet(s, serial);
    QuietKeepsEvents(s, DoReply(s, serial));
  }

  lemma TimeOutKeepsEvents(s: State, n: nat)
    requires Inv(s)
    ensures var t := DoTimeOut(s, n); Conserved(t.queue) && DeliveredOk(t.irps, t.queue.delivered) && Awake(t)
  {
    hide Core, TimeOutAll;
    TimeOutAllIsQuiet(s, n);
    QuietKeepsEvents(s, TimeOutAll(s, n));
  }

  lemma ReleaseKeepsEvents(s: State)
    requires Inv(s)
    ensures var t := DoRelease(s); Conserved(t.queue) && DeliveredOk(t.irps, t.queue.delivered) && Awake(t)
  {
    hide Core, ReleaseAll;
    ReleaseAllKeepsCore(s);
    ReleaseAllIsQuiet(s);
    QuietKeepsEvents(s, ReleaseAll(s));
  }

  lemma PostKeepsEvents(q: Queue, ev: Event)
    requires Conserved(q) && ev.length > 0
    ensures Conserved(DoPost(q, ev))
  {
  }

  lemma ReleaseEventsKeepsEvents(q: Queue)
    requires Conserved(q)
    ensures Conserved(DoReleaseEvents(q))
  {
  }

  lemma InitHolds()
    ensures Inv(INIT)
  {
    assert EventsOf([]) == [];
  }

  /** Where a run, a sequence of steps each enabled where it is taken, ends; None when it is no run. */
  function Run(steps: seq<Step>): Option<State> {
    if steps == [] then Some(INIT)
    else
      match Run(steps[..|steps| - 1])
      case None => None
      case Some(s) => if Enabled(s, steps[|steps| - 1]) then Some(Apply(s, steps[|steps| - 1])) else None
  }

  lemma {:induction false} RunKeepsInv(steps: seq<Step>)
    requires Run(steps).Some?
    ensures Inv(Run(steps).value)
    decreases |steps|
  {
    hide Inv, Enabled, Apply;
    if steps == [] {
      InitHolds();
    } else {
      RunKeepsInv(steps[..|steps| - 1]);
      StepKeepsInv(Run(steps[..|steps| - 1]).value, steps[|steps| - 1]);
    }
  }

  lemma StepKeepsInv(s: State, step: Step)
    requires Inv(s) && Enabled(s, step)
    ensures Inv(Apply(s, step))
  {
    StepKeepsCore(s, step);
    StepKeepsEvents(s, step);
    hide Core, Conserved, DeliveredOk, Awake, Apply;
  }

  /**
   * In every interleaving, no IRP is completed twice, no entry is used after it was freed or freed twice,
   * and every entry on the list holds its IRP, so the branches for an IRP that is NULL are never taken.
   */
  lemma {:induction false} NothingTwice(steps: seq<Step>)
    requires Run(steps).Some?
    ensures var s := Run(steps).value;
      && !s.usedFreed
      && (forall i :: i in s.irps ==> |s.irps[i].completers| <= 1)
      && (forall e :: e in s.entries ==> s.entries[e].freed <= 1)
      && (forall e :: e in s.waiting ==> e in s.entries && s.entries[e].freed == 0 && s.entries[e].irp.Some?)
      && (forall e :: e in s.waiting ==> TakeOff(s, e).1 != Gone)
  {
    RunKeepsInv(steps);
    var s := Run(steps).value;
    forall i | i in s.irps ensures |s.irps[i].completers| <= 1 {
      assert IrpOk(s, i);
    }
    forall e | e in s.waiting
      ensures e in s.entries && s.entries[e].freed == 0 && s.entries[e].irp.Some? && TakeOff(s, e).1 != Gone
    {
      ListedHoldsIrp(s, e);
    }
  }

  /** No registered IRP is forgotten: it waits, or somebody is bound to complete it, or it was completed. */
  lemma {:induction false} NoneForgotten(steps: seq<Step>, i: IrpId)
    requires Run(steps).Some? && i in Run(steps).value.irps && Run(steps).value.irps[i].entry.Some?
    ensures var s := Run(steps).value; var e := s.irps[i].entry.value;
      && |s.irps[i].completers| == (if e in s.waiting || i in s.cancels || e in s.completing then 0 else 1)
      && !(i in s.cancels && e in s.completing) && !(e in s.waiting && e in s.completing)
  {
    RunKeepsInv(steps);
    assert IrpOk(Run(steps).value, i);
  }

  /** An IRP the notifier completed reports the bytes that were copied into its buffer. */
  lemma {:induction false} NotifierReportsCopied(steps: seq<Step>, i: IrpId)
    requires Run(steps).Some? && i in Run(steps).value.irps
    ensures var irp := Run(steps).value.irps[i];
      irp.completers != [] && irp.completers[0].Notifier? ==> irp.completers[0].information == Copied(irp)
  {
    RunKeepsInv(steps);
    assert IrpOk(Run(steps).value, i);
  }

  /** The cancel routine never finds its pointer empty, nor the entry behind it freed. */
  lemma {:induction false} CancelRoutineFindsEntry(steps: seq<Step>, i: IrpId)
    requires Run(steps).Some? && i in Run(steps).value.irps && i in Run(steps).value.cancels
      && Run(steps).value.cancels[i].PointerRead?
    ensures Run(steps).value.cancels[i].entry.Some?
      && Live(Run(steps).value, Run(steps).value.cancels[i].entry.value, i)
  {
    RunKeepsInv(steps);
    UnlinkKeepsCore(Run(steps).value, i);
  }

  /** No wake-up is lost, and no event: each one posted is queued, thrown away, or in one buffer that holds it. */
  lemma {:induction false} NoEventLost(steps: seq<Step>)
    requires Run(steps).Some?
    ensures var s := Run(steps).value; var q := s.queue;
      && (s.waiting != [] && q.events != [] ==> s.waitingNotEmpty || q.notEmpty || q.signallers > 0)
      && q.posted == multiset(q.events) + multiset(EventsOf(q.delivered)) + q.discarded
      && DeliveredOk(s.irps, q.delivered)
  {
    RunKeepsInv(steps);
  }

  /** After the notification thread has run, waiters and events are no longer both at hand. */
  lemma {:induction false} NotifyPairsAll(steps: seq<Step>)
    requires Run(steps).Some?
    ensures DoNotify(Run(steps).value).waiting == [] || DoNotify(Run(steps).value).queue.events == []
  {
    RunKeepsInv(steps);
    PairAllKeepsCore(Run(steps).value);
  }
}
