/**
 * The routines of dokanlib/sys/event.c and sys/notification.c that run under a list's lock, on IRP and
 * IRP_ENTRY objects, each proved to take the step of module PendingIrp that it stands for.
 */
module PendingIrpCode {
  import opened Basics
  import M = PendingIrp

  class Irp {
    var armed: bool
    var cancelled: bool
    var context: IrpEntry?
    var buffer: nat
    var received: Option<M.Event>
    ghost var completers: seq<M.Completer>
    ghost var entry: Option<M.EntryId>
    ghost const id: M.IrpId

    constructor (buffer: nat, ghost id: M.IrpId)
      ensures !armed && !cancelled && context == null && this.buffer == buffer && received == None
      ensures completers == [] && entry == None && this.id == id
    {
      armed, cancelled, context, received := false, false, null, None;
      this.buffer := buffer;
      completers, entry := [], None;
      this.id := id;
    }
  }

  class IrpEntry {
    var irp: Irp?
    var serial: nat
    var cancelFrees: bool
    ghost var freed: nat
    ghost const owner: M.IrpId
    ghost const id: M.EntryId

    constructor (irp: Irp, serial: nat, ghost id: M.EntryId)
      ensures this.irp == irp && this.serial == serial && !cancelFrees && freed == 0 && owner == irp.id && this.id == id
    {
      this.irp, this.serial, cancelFrees := irp, serial, false;
      freed, owner := 0, irp.id;
      this.id := id;
    }
  }

  ghost function AbsIrp(irp: Irp): M.Irp
    reads irp`armed, irp`cancelled, irp`context, irp`buffer, irp`received, irp`completers, irp`entry
  {
    var context := if irp.context == null then None else Some(irp.context.id);
    M.Irp(irp.armed, irp.cancelled, context, irp.buffer, irp.received, irp.completers, irp.entry)
  }

  ghost function AbsEntry(e: IrpEntry): M.Entry
    reads e`irp, e`serial, e`cancelFrees, e`freed
  {
    M.Entry(if e.irp == null then None else Some(e.irp.id), e.serial, e.cancelFrees, e.owner, e.freed)
  }

  ghost function AbsIrps(irps: map<M.IrpId, Irp>): (r: map<M.IrpId, M.Irp>)
    reads irps.Values`armed, irps.Values`cancelled, irps.Values`context, irps.Values`buffer, irps.Values`received,
      irps.Values`completers, irps.Values`entry
    ensures r.Keys == irps.Keys
  {
    map i | i in irps :: AbsIrp(irps[i])
  }

  ghost function AbsEntries(entries: map<M.EntryId, IrpEntry>): (r: map<M.EntryId, M.Entry>)
    reads entries.Values`irp, entries.Values`serial, entries.Values`cancelFrees, entries.Values`freed
    ensures r.Keys == entries.Keys
  {
    map e | e in entries :: AbsEntry(entries[e])
  }

  ghost function Ids(es: seq<IrpEntry>): (r: seq<M.EntryId>)
    ensures |r| == |es| && forall k :: 0 <= k < |r| ==> r[k] == es[k].id
  {
    seq(|es|, k requires 0 <= k < |es| => es[k].id)
  }

  datatype Taken = Gone | Lost | Won

  /** IRP_LIST, with the queue of events it is paired with. */
  class IrpList {
    var waiting: seq<IrpEntry>
    var waitingNotEmpty: bool
    var events: seq<M.Event>
    var eventsNotEmpty: bool
    /** Every IRP and every entry there ever was, by name, and what the threads outside the lock are about to do. */
    ghost var irps: map<M.IrpId, Irp>
    ghost var entries: map<M.EntryId, IrpEntry>
    ghost var completing: map<M.EntryId, M.Job>
    ghost var cancels: map<M.IrpId, M.Stage>
    ghost var usedFreed: bool
    ghost var history: M.Queue

    /** Names are unique, and pointers lead to objects that have one. */
    ghost predicate Named()
      reads `waiting, `irps, `entries, irps.Values`context, entries.Values`irp
    {
      NamedIn(waiting, irps, entries)
    }

    static ghost predicate NamedIn(waiting: seq<IrpEntry>, irps: map<M.IrpId, Irp>, entries: map<M.EntryId, IrpEntry>)
      reads irps.Values`context, entries.Values`irp
    {
      && (forall i :: i in irps ==> irps[i].id == i)
      && (forall e :: e in entries ==> entries[e].id == e)
      && (forall k :: 0 <= k < |waiting| ==> waiting[k].id in entries && entries[waiting[k].id] == waiting[k])
      && (forall i :: i in irps && irps[i].context != null ==>
            irps[i].context.id in entries && entries[irps[i].context.id] == irps[i].context)
      && (forall e :: e in entries && entries[e].irp != null ==>
            entries[e].irp.id in irps && irps[entries[e].irp.id] == entries[e].irp)
    }

    ghost predicate Known(e: IrpEntry)
      reads `entries
    {
      e.id in entries && entries[e.id] == e
    }

    ghost function Queue(): M.Queue
      reads `events, `eventsNotEmpty, `history
    {
      history.(events := events, notEmpty := eventsNotEmpty)
    }

    ghost function Abs(): M.State
      reads this, irps.Values, entries.Values
    {
      M.State(AbsIrps(irps), AbsEntries(entries), Ids(waiting), completing, cancels,
              waitingNotEmpty, usedFreed, Queue())
    }

    ghost predicate Ours(irp: Irp)
      reads `irps
    {
      irp.id in irps && irps[irp.id] == irp
    }

    /** One IRP changes, and no pointer in it to an unknown entry appears. */
    lemma IrpChanged(irp: Irp, was: M.State, now: M.Irp)
      requires Named() && Ours(irp) && AbsIrp(irp) == now && was.irps.Keys == irps.Keys
      requires forall i :: i in irps && i != irp.id ==> was.irps[i] == AbsIrp(irps[i])
      ensures AbsIrps(irps) == was.irps[irp.id := now]
    {
    }

    lemma EntryChanged(entry: IrpEntry, was: M.State, now: M.Entry)
      requires Named() && Known(entry) && AbsEntry(entry) == now && was.entries.Keys == entries.Keys
      requires forall e :: e in entries && e != entry.id ==> was.entries[e] == AbsEntry(entries[e])
      ensures AbsEntries(entries) == was.entries[entry.id := now]
    {
    }

    lemma IrpsApart(irp: Irp)
      requires Named() && Ours(irp)
      ensures forall i :: i in irps && i != irp.id ==> irps[i] != irp
    {
    }

    lemma EntriesApart(entry: IrpEntry)
      requires Named() && Known(entry)
      ensures forall e :: e in entries && e != entry.id ==> entries[e] != entry
    {
    }

    /** Changing one pointer leaves the other pointers in order. */
    twostate lemma StillNamed(irp: Irp)
      requires old(Named()) && Ours(irp) && (irp.context == null || Known(irp.context))
      requires waiting == old(waiting) && irps == old(irps) && entries == old(entries)
      requires forall i :: i in irps && irps[i] != irp ==> irps[i].context == old(irps[i].context)
      requires forall e :: e in entries ==> entries[e].irp == old(entries[e].irp)
      ensures Named()
    {
    }

    /** IoSetCancelRoutine(irp, NULL) on an IRP whose cancel routine is set. */
    method Disarm(irp: Irp)
      requires Named() && Ours(irp)
      modifies irp`armed
      ensures Named() && Abs() == M.SetIrp(old(Abs()), irp.id, old(AbsIrp(irp)).(armed := false))
    {
      hide Named, AbsEntries, Ids;
      ghost var s := Abs();
      IrpsApart(irp);
      irp.armed := false;
      IrpChanged(irp, s, AbsIrp(irp));
    }

    method LeaveToCancelRoutine(entry: IrpEntry)
      requires Named() && Known(entry)
      modifies entry`cancelFrees
      ensures Named() && Abs() == M.SetEntry(old(Abs()), entry.id, old(AbsEntry(entry)).(cancelFrees := true))
    {
      hide Named, AbsIrps, Ids;
      ghost var s := Abs();
      EntriesApart(entry);
      entry.cancelFrees := true;
      EntryChanged(entry, s, AbsEntry(entry));
    }

    /** ExFreePool */
    method Free(entry: IrpEntry)
      requires Named() && Known(entry)
      modifies entry`freed
      ensures Named() && Abs() == M.Free(old(Abs()), entry.id)
    {
      hide Named, Abs, M.SetEntry;
      AbsAt(entry);
      M.FreeIs(Abs(), entry.id);
      CountFree(entry);
    }

    method CountFree(entry: IrpEntry)
      requires Named() && Known(entry)
      modifies entry`freed
      ensures Named()
      ensures Abs() == M.SetEntry(old(Abs()), entry.id, old(AbsEntry(entry)).(freed := old(entry.freed) + 1))
    {
      hide Named, AbsIrps, Ids;
      ghost var s := Abs();
      EntriesApart(entry);
      entry.freed := entry.freed + 1;
      EntryChanged(entry, s, AbsEntry(entry));
    }

    /** RemoveEntryList on the entry at k, which is then used. */
    method RemoveAt(k: nat) returns (entry: IrpEntry)
      requires Named() && k < |waiting| && M.NoRepeats(Ids(waiting))
      modifies `waiting, `usedFreed
      ensures Named() && entry == old(waiting)[k] && waiting == old(waiting)[..k] + old(waiting)[k + 1..]
      ensures Known(entry) && Abs() == M.Removed(old(Abs()), entry.id)
    {
      hide M.Without, M.NoRepeats, AbsIrps, AbsEntries;
      entry := waiting[k];
      IdsWithout(waiting, k);
      assert Known(entry);
      waiting := waiting[..k] + waiting[k + 1..];
      EntryAt(entry);
      usedFreed := usedFreed || entry.freed > 0;
    }

    /** The swap of the cancel routine for NULL, which decides who completes the IRP. */
    method Claim(entry: IrpEntry) returns (taken: Taken)
      requires Named() && Known(entry)
      modifies irps.Values`armed, entry`cancelFrees, entry`freed
      ensures Named() && (taken.Won? ==> entry.irp != null && Ours(entry.irp))
      ensures Abs() == M.Claim(old(Abs()), entry.id).0
      ensures M.Claim(old(Abs()), entry.id).1
        == if taken.Won? then M.Won(entry.irp.id) else if taken.Lost? then M.Lost else M.Gone
    {
      hide M.SetIrp, M.SetEntry, M.Free, Named;
      var irp := entry.irp;
      AbsAt(entry);
      if irp == null {
        Free(entry);
        taken := Gone;
      } else if !irp.armed {
        LeaveToCancelRoutine(entry);
        taken := Lost;
      } else {
        Disarm(irp);
        taken := Won;
      }
    }

    /**
     * What DokanCompleteIrp, NotificationLoop and ReleasePendingIrp do with an entry they find: take it
     * off the list, and swap the cancel routine of its IRP for NULL.
     */
    method TakeOff(k: nat) returns (entry: IrpEntry, taken: Taken)
      requires Named() && k < |waiting| && M.NoRepeats(Ids(waiting))
      modifies `waiting, `usedFreed, irps.Values`armed, entries.Values`cancelFrees, entries.Values`freed
      ensures Named() && waiting == old(waiting)[..k] + old(waiting)[k + 1..] && entry == old(waiting)[k]
      ensures Known(entry) && (taken.Won? ==> entry.irp != null && Ours(entry.irp))
      ensures Abs() == M.TakeOff(old(Abs()), entry.id).0
      ensures M.TakeOff(old(Abs()), entry.id).1
        == if taken.Won? then M.Won(entry.irp.id) else if taken.Lost? then M.Lost else M.Gone
    {
      hide M.Removed, M.Claim, Named, Abs;
      entry := RemoveAt(k);
      taken := Claim(entry);
    }

    /** The winner is about to complete the IRP. */
    ghost method Commit(entry: IrpEntry, job: M.Job)
      requires Named()
      modifies `completing
      ensures Named() && Abs() == M.Committed(old(Abs()), entry.id, job)
        && completing == old(completing)[entry.id := job]
    {
      hide Named, AbsIrps, AbsEntries, Ids;
      completing := completing[entry.id := job];
    }

    method ClearContext(irp: Irp)
      requires Named() && Ours(irp)
      modifies irp`context
      ensures Named() && Abs() == M.SetIrp(old(Abs()), irp.id, old(AbsIrp(irp)).(context := None))
    {
      hide Named, AbsEntries, Ids;
      ghost var s := Abs();
      IrpsApart(irp);
      irp.context := null;
      StillNamed(irp);
      IrpChanged(irp, s, AbsIrp(irp));
    }

    method SetSerial(entry: IrpEntry, serial: nat)
      requires Named() && Known(entry)
      modifies entry`serial
      ensures Named() && Abs() == M.SetEntry(old(Abs()), entry.id, old(AbsEntry(entry)).(serial := serial))
    {
      hide Named, AbsIrps, Ids;
      ghost var s := Abs();
      EntriesApart(entry);
      entry.serial := serial;
      EntryChanged(entry, s, AbsEntry(entry));
    }

    /** RtlCopyMemory of the event into the IRP's buffer. */
    method Receive(irp: Irp, event: M.Event)
      requires Named() && Ours(irp)
      modifies irp`received
      ensures Named() && Abs() == M.SetIrp(old(Abs()), irp.id, old(AbsIrp(irp)).(received := Some(event)))
    {
      hide Named, AbsEntries, Ids;
      ghost var s := Abs();
      IrpsApart(irp);
      irp.received := Some(event);
      IrpChanged(irp, s, AbsIrp(irp));
    }

    /** What DokanCompleteIrp and ReleaseTimeoutPendingIrp do with an entry they pick. */
    method SettleAt(k: nat, ghost job: M.Job) returns (r: IrpEntry?)
      requires Named() && k < |waiting| && M.NoRepeats(Ids(waiting))
      modifies `waiting, `usedFreed, `completing, irps.Values`armed, irps.Values`context,
        entries.Values`cancelFrees, entries.Values`freed
      ensures Named() && Abs() == M.SettleAt(old(Abs()), k, job)
      ensures waiting == old(waiting)[..k] + old(waiting)[k + 1..]
      ensures completing == if r == null then old(completing) else old(completing)[r.id := job]
      ensures r != null ==> Known(r) && r == old(waiting)[k]
    {
      hide M.TakeOff, M.SetIrp, M.Committed, Named, Abs;
      AbsSizes();
      var entry, taken := TakeOff(k);
      if !taken.Won? {
        return null;
      }
      AbsAt(entry);
      ClearContext(entry.irp);
      Commit(entry, job);
      return entry;
    }

    /** DokanCompleteIrp, under the lock: the entry it returns is the one whose IRP it is to complete. */
    method CompleteIrp(serial: nat) returns (r: IrpEntry?)
      requires Named() && M.NoRepeats(Ids(waiting))
      modifies `waiting, `usedFreed, `completing, irps.Values`armed, irps.Values`context,
        entries.Values`cancelFrees, entries.Values`freed
      ensures Named() && Abs() == M.DoReply(old(Abs()), serial)
      ensures r != null ==> Known(r) && r.id in completing && r in old(waiting) && r.serial == serial
    {
      hide M.SettleAt, Named, AbsIrps, AbsEntries, M.NoRepeats;
      var k := 0;
      while k < |waiting|
        invariant k <= |waiting| && M.Find(Abs(), 0, serial) == M.Find(Abs(), k, serial)
        modifies {}
      {
        ListedAt(k);
        if waiting[k].serial == serial {
          break;
        }
        k := k + 1;
      }
      if k < |waiting| {
        ListedAt(k);
        r := SettleAt(k, M.ReplyJob);
      } else {
        r := null;
      }
    }

    lemma AbsSizes()
      ensures |Abs().waiting| == |waiting| && forall k :: 0 <= k < |waiting| ==> Abs().waiting[k] == waiting[k].id
    {
    }

    method PushBack(event: M.Event)
      requires Named()
      modifies `events
      ensures Named() && Abs() == M.Pushed(old(Abs()), event)
    {
      hide Named, AbsIrps, AbsEntries, Ids;
      events := events + [event];
    }

    /** RemoveHeadList on the queue of events. */
    method PopEvent() returns (event: M.Event)
      requires Named() && events != []
      modifies `events
      ensures Named() && event == old(events)[0] && events == old(events)[1..] && Abs() == M.Popped(old(Abs()))
    {
      hide Named, AbsIrps, AbsEntries, Ids;
      event := events[0];
      events := events[1..];
    }

    /** The part of NotificationLoop after it won the IRP: the event is copied if the buffer holds it. */
    method Deliver(entry: IrpEntry, irp: Irp, event: M.Event)
      requires Named() && Known(entry) && entry.irp == irp && event.length > 0
      modifies `events, `completing, `history, irp`received, entry`serial
      ensures Named() && Abs() == M.Deliver(old(Abs()), entry.id, irp.id, event)
      ensures completing == old(completing)[entry.id := M.NotifyJob]
    {
      hide M.SetIrp, M.SetEntry, M.Pushed, M.Logged, M.Committed, Named, Abs;
      AbsAt(entry);
      if irp.buffer == 0 || irp.buffer < event.length {
        PushBack(event);
        AbsAt(entry);
        SetSerial(entry, 0);
      } else {
        Receive(irp, event);
        AbsAt(entry);
        SetSerial(entry, event.length);
        Log(irp, event);
      }
      Commit(entry, M.NotifyJob);
    }

    ghost method Log(irp: Irp, event: M.Event)
      requires Named()
      modifies `history
      ensures Named() && Abs() == M.Logged(old(Abs()), irp.id, event)
    {
      hide Named, AbsIrps, AbsEntries, Ids;
      history := history.(delivered := history.delivered + [(irp.id, event)]);
    }

    /** A round of the loop of NotificationLoop: the entry it returns goes to its completion list. */
    method PairOne() returns (r: IrpEntry?)
      requires Named() && M.NoRepeats(Ids(waiting)) && waiting != [] && events != [] && events[0].length > 0
      modifies `waiting, `events, `usedFreed, `completing, `history, irps.Values`armed, irps.Values`received,
        entries.Values`cancelFrees, entries.Values`freed, entries.Values`serial
      ensures Named() && Abs() == M.PairOne(old(Abs()))
      ensures completing == if r == null then old(completing) else old(completing)[r.id := M.NotifyJob]
      ensures r != null ==> Known(r)
    {
      hide M.TakeOff, M.Deliver, M.Popped, M.NoRepeats, M.Pushed, Named, Abs;
      QueueParts();
      var event := PopEvent();
      var entry, taken := TakeOff(0);
      if !taken.Won? {
        PushBack(event);
        return null;
      }
      Deliver(entry, entry.irp, event);
      return entry;
    }

    /** NotificationLoop, under both locks: it pairs waiters with events until one side runs out. */
    method NotificationLoop() returns (completeList: seq<IrpEntry>)
      requires Named() && M.Inv(Abs())
      modifies `waiting, `waitingNotEmpty, `events, `eventsNotEmpty, `usedFreed, `completing, `history,
        irps.Values`armed,
        irps.Values`received, entries.Values`cancelFrees, entries.Values`freed, entries.Values`serial
      ensures Named() && Abs() == M.DoNotify(old(Abs())) && M.Inv(Abs())
      ensures forall k :: 0 <= k < |completeList| ==> Known(completeList[k]) && completeList[k].id in completing
      ensures waiting == [] || events == []
    {
      hide M.Core, M.Conserved, M.DeliveredOk, M.PairOne, M.PairAll, Named, Abs, M.Awake;
      ghost var s := Abs();
      M.StepKeepsInv(s, M.Notify);
      M.PairAllKeepsCore(s);
      completeList := [];
      while |waiting| > 0 && |events| > 0
        invariant Named() && M.Core(Abs()) && M.Conserved(Abs().queue)
          && M.DeliveredOk(Abs().irps, Abs().queue.delivered)
        invariant M.PairAll(Abs()) == M.PairAll(s)
        invariant forall k :: 0 <= k < |completeList| ==> Known(completeList[k]) && completeList[k].id in completing
        decreases |waiting|
      {
        Ready();
        M.PairOneKeepsCore(Abs());
        M.PairOneKeepsEvents(Abs());
        M.PairAllUnfolds(Abs());
        var entry := PairOne();
        QueueParts();
        if entry != null {
          completeList := completeList + [entry];
        }
      }
      QueueParts();
      M.PairAllUnfolds(Abs());
      ClearEvents();
    }

    /** ReleasePendingIrp, under the lock: it empties the list. */
    method ReleasePendingIrp() returns (completeList: seq<IrpEntry>)
      requires Named() && M.Inv(Abs())
      modifies `waiting, `waitingNotEmpty, `usedFreed, `completing, irps.Values`armed,
        entries.Values`cancelFrees, entries.Values`freed
      ensures Named() && Abs() == M.DoRelease(old(Abs())) && M.Inv(Abs())
      ensures forall k :: 0 <= k < |completeList| ==> Known(completeList[k]) && completeList[k].id in completing
      ensures waiting == []
    {
      hide M.Core, M.ReleaseOne, M.ReleaseAll, Named, Abs, M.Awake, M.Conserved, M.DeliveredOk;
      ghost var s := Abs();
      M.StepKeepsInv(s, M.Release);
      completeList := [];
      while |waiting| > 0
        invariant Named() && M.Core(Abs()) && M.ReleaseAll(Abs()) == M.ReleaseAll(s)
        invariant forall k :: 0 <= k < |completeList| ==> Known(completeList[k]) && completeList[k].id in completing
        decreases |waiting|
      {
        Listed();
        QueueParts();
        M.ReleaseOneKeepsCore(Abs());
        M.ReleaseAllUnfolds(Abs());
        var entry := ReleaseOne();
        if entry != null {
          completeList := completeList + [entry];
        }
      }
      QueueParts();
      M.ReleaseAllUnfolds(Abs());
      ClearWaiting();
    }

    /** ReleaseTimeoutPendingIrp, under the lock, when the clock finds the first expired entries too old. */
    method ReleaseTimeoutPendingIrp(expired: nat) returns (completeList: seq<IrpEntry>)
      requires Named() && M.Inv(Abs())
      modifies `waiting, `waitingNotEmpty, `usedFreed, `completing, irps.Values`armed, irps.Values`context,
        entries.Values`cancelFrees, entries.Values`freed
      ensures Named() && Abs() == M.DoTimeOut(old(Abs()), expired) && M.Inv(Abs())
      ensures waiting == old(waiting)[M.Min(expired, |old(waiting)|)..]
      ensures forall e :: e in completeList ==> e in old(waiting)[..M.Min(expired, |old(waiting)|)]
      ensures forall k :: 0 <= k < |completeList| ==> Known(completeList[k]) && completeList[k].id in completing
    {
      hide M.Core, M.TimeOutAll, Named, Abs, M.Awake, M.Conserved, M.DeliveredOk;
      ghost var s := Abs();
      M.StepKeepsInv(s, M.TimeOut(expired));
      completeList := [];
      QueueParts();
      if |waiting| == 0 {
        M.TimeOutAllUnfolds(s, expired);
        return;
      }
      completeList := TakeExpired(expired);
      QueueParts();
      if |waiting| == 0 {
        ClearWaiting();
      }
    }

    /** Its loop over the list. */
    method TakeExpired(expired: nat) returns (completeList: seq<IrpEntry>)
      requires Named() && M.Core(Abs())
      modifies `waiting, `usedFreed, `completing, irps.Values`armed, irps.Values`context,
        entries.Values`cancelFrees, entries.Values`freed
      ensures Named() && Abs() == M.TimeOutAll(old(Abs()), expired)
      ensures waiting == old(waiting)[M.Min(expired, |old(waiting)|)..]
      ensures forall e :: e in completeList ==> e in old(waiting)[..M.Min(expired, |old(waiting)|)]
      ensures forall k :: 0 <= k < |completeList| ==> Known(completeList[k]) && completeList[k].id in completing
    {
      hide M.Core, M.SettleAt, M.TimeOutAll, Named, Abs, M.NoRepeats;
      ghost var s := Abs();
      completeList := [];
      var i := 0;
      while i < expired && |waiting| > 0
        invariant i <= expired && Named() && M.Core(Abs())
        invariant M.TimeOutAll(Abs(), expired - i) == M.TimeOutAll(s, expired)
        invariant i <= |old(waiting)| && waiting == old(waiting)[i..]
        invariant forall e :: e in completeList ==> e in old(waiting)[..i]
        invariant forall k :: 0 <= k < |completeList| ==> Known(completeList[k]) && completeList[k].id in completing
        decreases expired - i
      {
        Listed();
        QueueParts();
        M.SettleKeepsCore(Abs(), 0, M.TimeoutJob);
        M.TimeOutAllUnfolds(Abs(), expired - i);
        var entry := SettleAt(0, M.TimeoutJob);
        if entry != null {
          completeList := completeList + [entry];
        }
        i := i + 1;
      }
      QueueParts();
      M.TimeOutAllUnfolds(Abs(), expired - i);
    }

    method ReleaseOne() returns (r: IrpEntry?)
      requires Named() && M.NoRepeats(Ids(waiting)) && waiting != []
      modifies `waiting, `usedFreed, `completing, irps.Values`armed, entries.Values`cancelFrees, entries.Values`freed
      ensures Named() && Abs() == M.ReleaseOne(old(Abs())) && waiting == old(waiting)[1..]
      ensures completing == if r == null then old(completing) else old(completing)[r.id := M.ReleaseJob]
      ensures r != null ==> Known(r)
    {
      hide M.TakeOff, M.Committed, M.NoRepeats, Named, Abs;
      QueueParts();
      var entry, taken := TakeOff(0);
      if !taken.Won? {
        return null;
      }
      Commit(entry, M.ReleaseJob);
      return entry;
    }

    method ClearWaiting()
      requires Named()
      modifies `waitingNotEmpty
      ensures Named() && Abs() == old(Abs()).(waitingNotEmpty := false)
    {
      waitingNotEmpty := false;
    }

    lemma Listed()
      requires M.Core(Abs())
      ensures M.NoRepeats(Ids(waiting))
    {
    }

    /** What the winner does outside the lock: it frees the entry and completes the IRP. */
    method Complete(entry: IrpEntry)
      requires Named() && Known(entry) && entry.id in completing && M.Core(Abs())
      modifies `usedFreed, `completing, entry`freed, irps.Values`completers
      ensures Named() && Abs() == M.DoComplete(old(Abs()), entry.id)
    {
      hide M.Core, M.Touch, M.Free, M.CompleteRequest, Named, Abs;
      CompletingIs();
      M.CompleteKeepsCore(Abs(), entry.id);
      AbsAt(entry);
      var irp := entry.irp;
      ghost var who := match completing[entry.id]
        case ReplyJob => M.Replier
        case NotifyJob => M.Notifier(entry.serial)
        case ReleaseJob => M.Releaser
        case TimeoutJob => M.Timer;
      Uncommit(entry);
      Free(entry);
      CompleteRequest(irp, who);
    }

    lemma CompletingIs()
      ensures Abs().completing == completing
    {
    }

    ghost method Uncommit(entry: IrpEntry)
      requires Named() && Known(entry)
      modifies `completing, `usedFreed
      ensures Named() && Abs() == M.Touch(old(Abs()), entry.id).(completing := old(completing) - {entry.id})
    {
      hide AbsIrps;
      completing := completing - {entry.id};
      usedFreed := usedFreed || entry.freed > 0;
    }

    /** The entry RegisterPendingIrpMain allocates gets its name. */
    ghost method AddEntry(entry: IrpEntry, irp: Irp)
      requires Named() && Ours(irp) && entry.id !in entries && entry.irp == irp
      modifies `entries
      ensures Named() && Known(entry) && Abs() == M.SetEntry(old(Abs()), entry.id, AbsEntry(entry))
    {
      hide AbsIrps, Ids;
      ghost var s := Abs();
      StillNamedWith(entry, irp);
      hide Named;
      entries := entries[entry.id := entry];
      EntryAdded(entry, s);
    }

    /** A new name takes no old one away. */
    lemma StillNamedWith(entry: IrpEntry, irp: Irp)
      requires Named() && Ours(irp) && entry.id !in entries && entry.irp == irp
      ensures NamedIn(waiting, irps, entries[entry.id := entry])
    {
    }

    /** IoSetCancelRoutine(irp, DokanIrpCancelRoutine) */
    method Arm(irp: Irp)
      requires Named() && Ours(irp)
      modifies irp`armed
      ensures Named() && Abs() == M.SetIrp(old(Abs()), irp.id, old(AbsIrp(irp)).(armed := true)) && irp.armed
    {
      hide Named, AbsEntries, Ids;
      ghost var s := Abs();
      IrpsApart(irp);
      irp.armed := true;
      IrpChanged(irp, s, AbsIrp(irp));
    }

    /** The pointer the cancel routine will read; the entry is remembered with it. */
    method PointTo(irp: Irp, entry: IrpEntry)
      requires Named() && Ours(irp) && Known(entry)
      modifies irp`context, irp`entry
      ensures Named()
      ensures
        var pointed := old(AbsIrp(irp)).(context := Some(entry.id), entry := Some(entry.id));
        Abs() == M.SetIrp(old(Abs()), irp.id, pointed)
    {
      hide Named, Abs, M.SetIrp;
      ghost var was := AbsIrp(irp);
      ghost var pointed := was.(context := Some(entry.id));
      M.SetIrpTwice(Abs(), irp.id, pointed, pointed.(entry := Some(entry.id)));
      SetContext(irp, entry);
      SetOwnEntry(irp, entry);
    }

    method SetContext(irp: Irp, entry: IrpEntry)
      requires Named() && Ours(irp) && Known(entry)
      modifies irp`context
      ensures Named() && Abs() == M.SetIrp(old(Abs()), irp.id, old(AbsIrp(irp)).(context := Some(entry.id)))
      ensures AbsIrp(irp) == old(AbsIrp(irp)).(context := Some(entry.id))
    {
      hide AbsEntries, Ids, Named;
      ghost var s := Abs();
      IrpsApart(irp);
      irp.context := entry;
      StillNamed(irp);
      IrpChanged(irp, s, AbsIrp(irp));
    }

    ghost method SetOwnEntry(irp: Irp, entry: IrpEntry)
      requires Named() && Ours(irp)
      modifies irp`entry
      ensures Named() && Abs() == M.SetIrp(old(Abs()), irp.id, old(AbsIrp(irp)).(entry := Some(entry.id)))
    {
      hide AbsEntries, Ids, Named;
      ghost var s := Abs();
      IrpsApart(irp);
      irp.entry := Some(entry.id);
      IrpChanged(irp, s, AbsIrp(irp));
    }

    /** InsertTailList, and setting the list's NotEmpty event. */
    method Append(entry: IrpEntry)
      requires Named() && Known(entry)
      modifies `waiting, `waitingNotEmpty
      ensures Named() && Abs() == old(Abs()).(waiting := old(Abs()).waiting + [entry.id], waitingNotEmpty := true)
    {
      hide AbsIrps, AbsEntries;
      waiting := waiting + [entry];
      waitingNotEmpty := true;
      assert Ids(waiting) == old(Ids(waiting)) + [entry.id];
    }

    /**
     * RegisterPendingIrpMain, from allocating the entry: an IRP that was cancelled before is not queued,
     * its entry is freed, and the dispatcher will complete it.
     */
    method RegisterPendingIrp(irp: Irp, serial: nat, ghost id: M.EntryId) returns (pending: bool)
      requires Named() && Ours(irp) && !irp.armed && id !in entries
      modifies `waiting, `waitingNotEmpty, `entries, irp`armed, irp`context, irp`completers, irp`entry
      ensures Named() && Abs() == M.DoRegister(old(Abs()), irp.id, id, serial) && (pending <==> !irp.cancelled)
    {
      hide Named, Abs, M.SetIrp, M.SetEntry, M.Free, M.CompleteRequest, M.DoRegister;
      ghost var s := Abs();
      IrpAt(irp);
      TablesAre();
      var entry := new IrpEntry(irp, serial, id);
      AddEntry(entry, irp);
      Arm(irp);
      if irp.cancelled {
        if irp.armed {
          M.Rejected(s, irp.id, id, serial);
          IrpAt(irp);
          Disarm(irp);
          Free(entry);
          CompleteRequest(irp, M.Dispatcher);
          return false;
        }
      }
      M.Accepted(s, irp.id, id, serial);
      IrpAt(irp);
      PointTo(irp, entry);
      Append(entry);
      pending := true;
    }

    /** IoCancelIrp: the flag is set, and the cancel routine, if it is set, is taken and will run. */
    method CancelIrp(irp: Irp) returns (runs: bool)
      requires Named() && Ours(irp)
      modifies `cancels, irp`cancelled, irp`armed
      ensures Named() && Abs() == M.DoCancel(old(Abs()), irp.id) && runs == old(irp.armed)
    {
      hide Named, Abs;
      IrpAt(irp);
      CancelsAre();
      runs := irp.armed;
      SwapOut(irp);
      if runs {
        SetStage(irp, M.Swapped);
      }
    }

    method SwapOut(irp: Irp)
      requires Named() && Ours(irp)
      modifies irp`cancelled, irp`armed
      ensures Named() && Abs() == M.SetIrp(old(Abs()), irp.id, old(AbsIrp(irp)).(cancelled := true, armed := false))
    {
      hide Named, Abs, M.SetIrp;
      ghost var was := AbsIrp(irp);
      M.SetIrpTwice(Abs(), irp.id, was.(cancelled := true), was.(cancelled := true, armed := false));
      Flag(irp);
      Disarm(irp);
    }

    method Flag(irp: Irp)
      requires Named() && Ours(irp)
      modifies irp`cancelled
      ensures Named() && Abs() == M.SetIrp(old(Abs()), irp.id, old(AbsIrp(irp)).(cancelled := true))
      ensures AbsIrp(irp) == old(AbsIrp(irp)).(cancelled := true)
    {
      hide Named, AbsEntries, Ids;
      ghost var s := Abs();
      IrpsApart(irp);
      irp.cancelled := true;
      IrpChanged(irp, s, AbsIrp(irp));
    }

    /** How far the cancel routine has come. */
    ghost method SetStage(irp: Irp, stage: M.Stage)
      requires Named()
      modifies `cancels
      ensures Named() && Abs() == old(Abs()).(cancels := old(cancels)[irp.id := stage])
    {
      cancels := cancels[irp.id := stage];
    }

    /** DokanIrpCancelRoutine reads the pointer to its entry before it takes the lock. */
    method ReadEntry(irp: Irp) returns (entry: IrpEntry?)
      requires Named() && Ours(irp)
      modifies `cancels
      ensures Named() && entry == irp.context
      ensures Abs() == old(Abs()).(cancels := old(cancels)[irp.id := M.PointerRead(old(Abs()).irps[irp.id].context)])
    {
      hide Named, Abs;
      IrpAt(irp);
      entry := irp.context;
      SetStage(irp, M.PointerRead(if entry == null then None else Some(entry.id)));
    }

    /** The rest of DokanIrpCancelRoutine under the lock. */
    method CancelRoutine(irp: Irp, entry: IrpEntry)
      requires Named() && Ours(irp) && Known(entry) && M.NoRepeats(Ids(waiting))
      requires irp.id in cancels && cancels[irp.id] == M.PointerRead(Some(entry.id))
      modifies `waiting, `waitingNotEmpty, `usedFreed, `cancels, irp`context, entry`irp, entry`freed
      ensures Named() && Abs() == M.DoUnlink(old(Abs()), irp.id)
    {
      hide Named, Abs, M.Unlisted, M.Cleared;
      IrpAt(irp);
      CancelsAre();
      Unlist(irp, entry);
      ClearPointers(irp, entry);
    }

    /** Its first half. */
    method Unlist(irp: Irp, entry: IrpEntry)
      requires Named() && Ours(irp) && Known(entry) && M.NoRepeats(Ids(waiting))
      modifies `waiting, `waitingNotEmpty, `usedFreed, `cancels
      ensures Named() && Abs() == M.Unlisted(old(Abs()), irp.id, entry.id) && entry.id in Abs().entries
    {
      hide Named, Abs, M.Without;
      CancelsAre();
      SetStage(irp, M.Unlinked);
      Use(entry);
      RemoveListed(entry);
      if IsListEmpty() {
        ClearWaiting();
      }
      AbsAt(entry);
    }

    /** Its second half. */
    method ClearPointers(irp: Irp, entry: IrpEntry)
      requires Named() && Ours(irp) && Known(entry)
      modifies irp`context, entry`irp, entry`freed
      ensures irp.id in old(Abs()).irps && entry.id in old(Abs()).entries
      ensures Named() && Abs() == M.Cleared(old(Abs()), irp.id, entry.id)
    {
      hide Named, Abs, M.SetIrp, M.SetEntry, M.Free;
      AbsAt(entry);
      IrpAt(irp);
      ClearIrp(entry);
      ClearContext(irp);
      if entry.cancelFrees {
        Free(entry);
      }
    }

    ghost method Use(entry: IrpEntry)
      requires Named() && Known(entry)
      modifies `usedFreed
      ensures Named() && Abs() == M.Touch(old(Abs()), entry.id)
    {
      hide AbsIrps, Ids;
      usedFreed := usedFreed || entry.freed > 0;
    }

    lemma CancelsAre()
      ensures Abs().cancels == cancels
    {
    }

    predicate IsListEmpty()
      reads this
      ensures IsListEmpty() <==> Abs().waiting == []
    {
      |waiting| == 0
    }

    /** RemoveEntryList on an entry that may be on no list, where it is linked to itself. */
    method RemoveListed(entry: IrpEntry)
      requires Named() && Known(entry) && M.NoRepeats(Ids(waiting))
      modifies `waiting
      ensures Named() && Abs() == old(Abs()).(waiting := M.Without(old(Abs()).waiting, entry.id))
    {
      hide AbsIrps, AbsEntries, M.NoRepeats, NamedIn;
      var k := 0;
      while k < |waiting| && waiting[k] != entry
        invariant k <= |waiting| && forall j :: 0 <= j < k ==> waiting[j] != entry
        modifies {}
      {
        k := k + 1;
      }
      if k < |waiting| {
        IdsWithout(waiting, k);
        StillNamedWithout(k);
        waiting := waiting[..k] + waiting[k + 1..];
      } else {
        NotListed(entry);
      }
    }

    lemma StillNamedWithout(k: nat)
      requires Named() && k < |waiting|
      ensures NamedIn(waiting[..k] + waiting[k + 1..], irps, entries)
    {
    }

    lemma NotListed(entry: IrpEntry)
      requires Named() && Known(entry) && forall j :: 0 <= j < |waiting| ==> waiting[j] != entry
      ensures M.Without(Ids(waiting), entry.id) == Ids(waiting)
    {
      WithoutAbsent(Ids(waiting), entry.id);
    }

    method ClearIrp(entry: IrpEntry)
      requires Named() && Known(entry)
      modifies entry`irp
      ensures Named() && Abs() == M.SetEntry(old(Abs()), entry.id, old(AbsEntry(entry)).(irp := None))
    {
      hide AbsIrps, Ids;
      ghost var s := Abs();
      EntriesApart(entry);
      entry.irp := null;
      assert Named();
      hide Named;
      EntryChanged(entry, s, AbsEntry(entry));
    }

    /** The end of DokanIrpCancelRoutine, after the lock. */
    ghost method CompleteCancelled(irp: Irp)
      requires Named() && Ours(irp)
      modifies `cancels, irp`completers
      ensures Named()
      ensures Abs() == M.CompleteRequest(old(Abs()), irp.id, M.CancelRoutine).(cancels := old(cancels) - {irp.id})
    {
      hide Named, Abs, M.CompleteRequest;
      CompleteRequest(irp, M.CancelRoutine);
      Finished(irp);
    }

    ghost method Finished(irp: Irp)
      requires Named()
      modifies `cancels
      ensures Named() && Abs() == old(Abs()).(cancels := old(cancels) - {irp.id})
    {
      hide Named, AbsIrps, AbsEntries, Ids;
      cancels := cancels - {irp.id};
    }

    /** DokanEventNotification: the event is queued under the lock, and the NotEmpty event is set after it. */
    method EventNotification(event: M.Event)
      requires Named()
      modifies `events, `eventsNotEmpty, `history
      ensures Named()
      ensures var s := old(Abs()); var q := M.DoPost(s.queue, event);
        Abs() == s.(queue := q.(notEmpty := true, signallers := s.queue.signallers))
    {
      Queued(event);
      SetEvent();
    }

    method Queued(event: M.Event)
      requires Named()
      modifies `events, `history
      ensures Named() && Abs() == old(Abs()).(queue := M.DoPost(old(Abs()).queue, event))
    {
      hide Named, AbsIrps, AbsEntries, Ids;
      events := events + [event];
      history := history.(posted := history.posted + multiset{event}, signallers := history.signallers + 1);
    }

    method SetEvent()
      requires Named() && history.signallers > 0
      modifies `eventsNotEmpty, `history
      ensures Named()
      ensures var q := old(Abs()).queue;
        Abs() == old(Abs()).(queue := q.(notEmpty := true, signallers := q.signallers - 1))
    {
      hide Named, AbsIrps, AbsEntries, Ids;
      eventsNotEmpty := true;
      history := history.(signallers := history.signallers - 1);
    }

    /** ReleaseNotifyEvent. */
    method ReleaseNotifyEvent()
      requires Named()
      modifies `events, `eventsNotEmpty, `history
      ensures Named() && Abs() == old(Abs()).(queue := M.DoReleaseEvents(old(Abs()).queue))
    {
      hide AbsIrps, AbsEntries, Ids, Named;
      DropEvents();
      eventsNotEmpty := false;
    }

    /** Its loop. */
    method DropEvents()
      modifies `events, `history
      ensures events == []
      ensures history == old(history).(discarded := old(history).discarded + multiset(old(events)))
    {
      while |events| > 0
        invariant history == old(history).(discarded := history.discarded)
        invariant history.discarded + multiset(events) == old(history).discarded + multiset(old(events))
      {
        assert events == [events[0]] + events[1..];
        history := history.(discarded := history.discarded + multiset{events[0]});
        events := events[1..];
      }
    }

    lemma IrpAt(irp: Irp)
      requires Ours(irp)
      ensures irp.id in Abs().irps && Abs().irps[irp.id] == AbsIrp(irp)
    {
    }

    lemma TablesAre()
      ensures Abs().entries.Keys == entries.Keys
    {
    }

    lemma EntryAdded(entry: IrpEntry, was: M.State)
      requires entry.id !in was.entries && entry.id in entries && entries[entry.id] == entry
      requires entries.Keys == was.entries.Keys + {entry.id}
      requires forall e :: e in was.entries ==> was.entries[e] == AbsEntry(entries[e])
      ensures AbsEntries(entries) == was.entries[entry.id := AbsEntry(entry)]
    {
    }

    /** IoCompleteRequest */
    ghost method CompleteRequest(irp: Irp, who: M.Completer)
      requires Named() && Ours(irp)
      modifies irp`completers
      ensures Named() && Abs() == M.CompleteRequest(old(Abs()), irp.id, who)
    {
      hide Named, AbsEntries, Ids;
      ghost var s := Abs();
      IrpsApart(irp);
      irp.completers := irp.completers + [who];
      IrpChanged(irp, s, AbsIrp(irp));
    }

    /** The two KeClearEvent calls. */
    method ClearEvents()
      requires Named()
      modifies `waitingNotEmpty, `eventsNotEmpty
      ensures Named()
      ensures var s := old(Abs()); Abs() == s.(queue := s.queue.(notEmpty := false), waitingNotEmpty := false)
    {
      eventsNotEmpty := false;
      waitingNotEmpty := false;
    }

    lemma Ready()
      requires M.Core(Abs()) && M.Conserved(Abs().queue)
      ensures M.NoRepeats(Ids(waiting)) && (events != [] ==> events[0].length > 0)
      ensures |Abs().waiting| == |waiting| && Abs().queue.events == events
    {
    }

    lemma QueueParts()
      ensures Abs().queue.events == events && |Abs().waiting| == |waiting|
      ensures waiting != [] ==> Abs().waiting[0] == waiting[0].id
    {
    }

    lemma ListedAt(k: nat)
      requires Named() && k < |waiting|
      ensures Ids(waiting)[k] == waiting[k].id && waiting[k].id in AbsEntries(entries)
      ensures AbsEntries(entries)[waiting[k].id].serial == waiting[k].serial
    {
    }

    lemma EntryAt(entry: IrpEntry)
      requires Known(entry)
      ensures entry.id in AbsEntries(entries) && AbsEntries(entries)[entry.id].freed == entry.freed
    {
    }

    lemma AbsAt(entry: IrpEntry)
      requires Named() && Known(entry)
      ensures entry.id in Abs().entries && Abs().entries[entry.id] == AbsEntry(entry)
      ensures entry.irp != null ==> Ours(entry.irp) && Abs().irps[entry.irp.id] == AbsIrp(entry.irp)
    {
    }
  }

  lemma IdsWithout(es: seq<IrpEntry>, k: nat)
    requires M.NoRepeats(Ids(es)) && k < |es|
    ensures Ids(es[..k] + es[k + 1..]) == M.Without(Ids(es), es[k].id)
  {
    WithoutAt(Ids(es), k);
    assert Ids(es[..k] + es[k + 1..]) == Ids(es)[..k] + Ids(es)[k + 1..];
  }

  lemma {:induction false} WithoutAbsent(es: seq<M.EntryId>, e: M.EntryId)
    requires e !in es
    ensures M.Without(es, e) == es
    decreases |es|
  {
    if es != [] {
      WithoutAbsent(es[1..], e);
    }
  }

  lemma {:induction false} WithoutAt(es: seq<M.EntryId>, k: nat)
    requires M.NoRepeats(es) && k < |es|
    ensures M.Without(es, es[k]) == es[..k] + es[k + 1..]
    decreases k
  {
    if k > 0 {
      var rest := es[1..];
      assert rest[k - 1] == es[k] && es[0] != es[k];
      WithoutAt(rest, k - 1);
      assert [es[0]] + (rest[..k - 1] + rest[k..]) == es[..k] + es[k + 1..];
    }
  }
}
