/**
 * What a reply and a time-out do to the list of pending IRPs (dokanlib/sys/event.c and timeout.c): which
 * entry is taken, what happens to it, and that nothing else changes.
 */
module StepEffects {
  import opened Basics
  import opened PendingIrp

  /** The entry was taken off the list: its IRP is won for the job, or left to the cancel routine. */
  ghost predicate Settled(s: State, t: State, e: EntryId, job: Job)
    requires e in s.entries && e in t.entries && s.entries[e].owner in s.irps && s.entries[e].owner in t.irps
  {
    var i := s.entries[e].owner;
    if s.irps[i].armed then
      && e in t.completing && t.completing[e] == job
      && t.irps[i] == s.irps[i].(armed := false, context := None) && t.entries[e] == s.entries[e]
    else
      && (e in t.completing <==> e in s.completing)
      && t.irps[i] == s.irps[i] && t.entries[e] == s.entries[e].(cancelFrees := true)
  }

  /** Apart from the entries given, and the IRPs they belong to, both states are the same. */
  ghost predicate SameBut(s: State, t: State, taken: seq<EntryId>) {
    && t.entries.Keys == s.entries.Keys && t.irps.Keys == s.irps.Keys
    && (forall e :: e in s.entries && e !in taken ==> t.entries[e] == s.entries[e])
    && (forall i :: i in s.irps && (forall e :: e in taken && e in s.entries ==> s.entries[e].owner != i) ==>
          t.irps[i] == s.irps[i])
    && (forall e :: e !in taken ==>
          (e in t.completing <==> e in s.completing) && (e in s.completing ==> t.completing[e] == s.completing[e]))
    && t.cancels == s.cancels && t.queue == s.queue && t.usedFreed == s.usedFreed
  }

  /** The entries in front of position n are settled, and nothing else happened. */
  ghost predicate TookFirst(s: State, t: State, n: nat, job: Job)
    requires n <= |s.waiting|
  {
    && t.waiting == s.waiting[n..] && SameBut(s, t, s.waiting[..n])
    && forall k :: 0 <= k < n ==> SettledAt(s, t, s.waiting[k], job)
  }

  ghost predicate SettledAt(s: State, t: State, e: EntryId, job: Job) {
    && e in s.entries && e in t.entries && s.entries[e].owner in s.irps && s.entries[e].owner in t.irps
    && Settled(s, t, e, job)
  }

  lemma {:induction false} WithoutAt(es: seq<EntryId>, k: nat)
    requires NoRepeats(es) && k < |es|
    ensures Without(es, es[k]) == es[..k] + es[k + 1..]
    decreases |es|
  {
    if k > 0 {
      assert es[0] != es[k] && es[1..][k - 1] == es[k];
      WithoutAt(es[1..], k - 1);
      assert es[1..][..k - 1] == es[1..k] && es[1..][k..] == es[k + 1..];
    }
  }

  lemma LostParts(s: State, e: EntryId, i: IrpId)
    requires e in s.entries && s.entries[e].freed == 0 && s.entries[e].irp == Some(i) && i in s.irps
      && !s.irps[i].armed
    ensures TakeOff(s, e).1 == Lost
    ensures TakeOff(s, e).0 ==
      s.(waiting := Without(s.waiting, e), entries := s.entries[e := s.entries[e].(cancelFrees := true)])
  {
    hide Without;
  }

  lemma WonIs(s: State, e: EntryId, i: IrpId)
    requires e in s.entries && s.entries[e].freed == 0 && s.entries[e].irp == Some(i) && i in s.irps && s.irps[i].armed
    ensures TakeOff(s, e).1 == Won(i)
    ensures TakeOff(s, e).0 ==
      s.(waiting := Without(s.waiting, e), irps := s.irps[i := s.irps[i].(armed := false)])
  {
    hide Without;
  }

  lemma SettleWon(s: State, k: nat, i: IrpId, job: Job)
    requires k < |s.waiting| && TakeOff(s, s.waiting[k]).1 == Won(i) && i in s.irps
    requires TakeOff(s, s.waiting[k]).0 ==
      s.(waiting := Without(s.waiting, s.waiting[k]), irps := s.irps[i := s.irps[i].(armed := false)])
    ensures SettleAt(s, k, job) ==
      s.(waiting := Without(s.waiting, s.waiting[k]), completing := s.completing[s.waiting[k] := job],
         irps := s.irps[i := s.irps[i].(armed := false, context := None)])
  {
    hide TakeOff, Without;
    var now := s.irps[i].(armed := false);
    assert s.irps[i := now][i := now.(context := None)] == s.irps[i := now.(context := None)];
  }

  lemma WonEffect(s: State, t: State, e: EntryId, i: IrpId, job: Job)
    requires e in s.entries && s.entries[e].owner == i && i in s.irps && s.irps[i].armed
    requires t == s.(waiting := t.waiting, completing := s.completing[e := job],
                     irps := s.irps[i := s.irps[i].(armed := false, context := None)])
    ensures SettledAt(s, t, e, job) && SameBut(s, t, [e])
  {
    assert e in [e];
  }

  lemma LostEffect(s: State, t: State, e: EntryId, i: IrpId, job: Job)
    requires e in s.entries && s.entries[e].owner == i && i in s.irps && !s.irps[i].armed
    requires t == s.(waiting := t.waiting, entries := s.entries[e := s.entries[e].(cancelFrees := true)])
    ensures SettledAt(s, t, e, job) && SameBut(s, t, [e])
  {
    assert e in [e];
  }

  lemma SettleEffect(s: State, k: nat, job: Job)
    requires Core(s) && k < |s.waiting|
    ensures var t, e := SettleAt(s, k, job), s.waiting[k];
      && t.waiting == s.waiting[..k] + s.waiting[k + 1..] && t.waitingNotEmpty == s.waitingNotEmpty
      && SettledAt(s, t, e, job) && SameBut(s, t, [e])
  {
    var e := s.waiting[k];
    assert e in s.waiting;
    ListedHoldsIrp(s, e);
    assert NoRepeats(s.waiting);
    WithoutAt(s.waiting, k);
    hide Core, Without, NoRepeats, TakeOff, SettledAt, SameBut;
    var i := s.entries[e].owner;
    if s.irps[i].armed {
      WonIs(s, e, i);
      SettleWon(s, k, i, job);
      hide SettleAt;
      WonEffect(s, SettleAt(s, k, job), e, i, job);
    } else {
      LostParts(s, e, i);
      LostEffect(s, SettleAt(s, k, job), e, i, job);
    }
  }

  // ----- registration -----

  /** An IRP goes to the end of the list, unless it was cancelled before: then it is only completed. */
  lemma RegisterEffect(s: State, i: IrpId, e: EntryId, serial: nat)
    requires Enabled(s, Register(i, e, serial))
    ensures var t := Apply(s, Register(i, e, serial));
      && (forall f :: f in s.entries ==> f in t.entries && t.entries[f] == s.entries[f])
      && (forall j :: j in s.irps && j != i ==> j in t.irps && t.irps[j] == s.irps[j])
      && (s.irps[i].cancelled ==>
            && t.waiting == s.waiting && t.waitingNotEmpty == s.waitingNotEmpty && t.entries[e].freed == 1
            && t.irps[i] == s.irps[i].(completers := s.irps[i].completers + [Dispatcher]))
      && (!s.irps[i].cancelled ==>
            && t.waiting == s.waiting + [e] && t.waitingNotEmpty && t.entries[e].serial == serial
            && t.entries[e].irp == Some(i) && t.entries[e].freed == 0
            && t.irps[i].armed && t.irps[i].context == Some(e) && t.irps[i].completers == s.irps[i].completers)
  {
  }

  // ----- replies -----

  /** The first listed entry with the serial number. */
  predicate FirstWith(s: State, k: nat, serial: nat) {
    && k < |s.waiting| && s.waiting[k] in s.entries && s.entries[s.waiting[k]].serial == serial
    && forall j :: 0 <= j < k ==> s.waiting[j] in s.entries && s.entries[s.waiting[j]].serial != serial
  }

  lemma FindIsFirst(s: State, k: nat, serial: nat)
    requires FirstWith(s, k, serial)
    ensures Find(s, 0, serial) == k
  {
    FindFrom(s, 0, k, serial);
  }

  lemma {:induction false} FindFrom(s: State, j: nat, k: nat, serial: nat)
    requires FirstWith(s, k, serial) && j <= k
    ensures Find(s, j, serial) == k
    decreases k - j
  {
    if j < k {
      FindFrom(s, j + 1, k, serial);
    }
  }

  lemma {:induction false} FindNone(s: State, j: nat, serial: nat)
    requires j <= |s.waiting|
    requires forall e :: e in s.waiting ==> e in s.entries && s.entries[e].serial != serial
    ensures Find(s, j, serial) == |s.waiting|
    decreases |s.waiting| - j
  {
    if j < |s.waiting| {
      FindNone(s, j + 1, serial);
    }
  }

  /**
   * A reply settles the first listed entry that has its serial number, and nothing else happens; without such
   * an entry nothing happens at all.
   */
  lemma {:induction false} ReplyEffect(s: State, serial: nat)
    requires Core(s)
    ensures (forall e :: e in s.waiting ==> e in s.entries && s.entries[e].serial != serial) ==> DoReply(s, serial) == s
    ensures forall k: nat :: FirstWith(s, k, serial) ==>
      var t, e := DoReply(s, serial), s.waiting[k];
      && t.waiting == s.waiting[..k] + s.waiting[k + 1..] && t.waitingNotEmpty == s.waitingNotEmpty
      && SettledAt(s, t, e, ReplyJob) && SameBut(s, t, [e])
  {
    hide Core, SettleAt, SettledAt, SameBut;
    if forall e :: e in s.waiting ==> e in s.entries && s.entries[e].serial != serial {
      FindNone(s, 0, serial);
    }
    forall k: nat | FirstWith(s, k, serial)
      ensures var t, e := DoReply(s, serial), s.waiting[k];
        && t.waiting == s.waiting[..k] + s.waiting[k + 1..] && t.waitingNotEmpty == s.waitingNotEmpty
        && SettledAt(s, t, e, ReplyJob) && SameBut(s, t, [e])
    {
      FindIsFirst(s, k, serial);
      SettleEffect(s, k, ReplyJob);
    }
  }

  // ----- time-outs -----

  /** Two listed entries belong to different IRPs. */
  lemma OwnersDiffer(s: State, e: EntryId, f: EntryId)
    requires Core(s) && e in s.waiting && f in s.waiting && e != f
    ensures e in s.entries && f in s.entries && s.entries[e].owner != s.entries[f].owner
    ensures s.entries[e].owner in s.irps && s.entries[f].owner in s.irps
  {
    ListedHoldsIrp(s, e);
    ListedHoldsIrp(s, f);
  }

  lemma {:induction false} TimeOutAllEffect(s: State, n: nat)
    requires Core(s)
    ensures var t, m := TimeOutAll(s, n), Min(n, |s.waiting|);
      TookFirst(s, t, m, TimeoutJob) && t.waitingNotEmpty == s.waitingNotEmpty
    decreases n
  {
    hide Core, SettleAt, TookFirst, SettledAt, SameBut, TimeOutAll;
    TimeOutAllUnfolds(s, n);
    if n == 0 || s.waiting == [] {
      NothingTaken(s, TimeoutJob);
    } else {
      var u, m := SettleAt(s, 0, TimeoutJob), Min(n, |s.waiting|);
      SettleEffect(s, 0, TimeoutJob);
      SettleKeepsCore(s, 0, TimeoutJob);
      assert u.waiting == s.waiting[1..];
      TimeOutAllEffect(u, n - 1);
      var t := TimeOutAll(u, n - 1);
      Took(u, t, m - 1);
      OneThenRest(s, u, t, m);
    }
  }

  lemma FirstOnes(es: seq<EntryId>, m: nat)
    requires 0 < m <= |es|
    ensures es[..m] == [es[0]] + es[1..][..m - 1] && es[1..][m - 1..] == es[m..]
  {
  }

  lemma Took(s: State, t: State, m: nat)
    requires m <= |s.waiting| && TookFirst(s, t, m, TimeoutJob)
    ensures SameBut(s, t, s.waiting[..m])
  {
    hide SameBut, SettledAt;
  }

  lemma NothingTaken(s: State, job: Job)
    ensures TookFirst(s, s, 0, job)
  {
  }

  lemma OneThenRest(s: State, u: State, t: State, m: nat)
    requires Core(s) && 0 < m <= |s.waiting| && u.waiting == s.waiting[1..]
    requires SettledAt(s, u, s.waiting[0], TimeoutJob) && SameBut(s, u, [s.waiting[0]])
    requires TookFirst(u, t, m - 1, TimeoutJob) && SameBut(u, t, u.waiting[..m - 1])
    ensures TookFirst(s, t, m, TimeoutJob)
  {
    hide Core, NoRepeats, SettledAt, SameBut, OwnersApart, TookFirst;
    ListedOwners(s);
    FirstOnes(s.waiting, m);
    NotRepeated(s.waiting, m);
    FirstAndRest(s, u, t, s.waiting[0], s.waiting[1..][..m - 1]);
    Joined(s, u, t, m);
  }

  lemma FirstAndRest(s: State, u: State, t: State, e: EntryId, more: seq<EntryId>)
    requires OwnersApart(s) && e in s.waiting && e !in more && forall f :: f in more ==> f in s.waiting
    requires SettledAt(s, u, e, TimeoutJob) && SameBut(s, u, [e]) && SameBut(u, t, more)
    ensures SettledAt(s, t, e, TimeoutJob) && SameBut(s, t, [e] + more)
    ensures forall f :: f in more && SettledAt(u, t, f, TimeoutJob) ==> SettledAt(s, t, f, TimeoutJob)
  {
    hide SettledAt, SameBut, OwnersApart;
    JoinedSame(s, u, t, e, more);
    StaysSettled(s, u, t, e, more);
    forall f | f in more && SettledAt(u, t, f, TimeoutJob) ensures SettledAt(s, t, f, TimeoutJob) {
      SettledLater(s, u, t, e, f);
    }
  }

  lemma Joined(s: State, u: State, t: State, m: nat)
    requires 0 < m <= |s.waiting| && u.waiting == s.waiting[1..] && TookFirst(u, t, m - 1, TimeoutJob)
    requires s.waiting[..m] == [s.waiting[0]] + u.waiting[..m - 1] && u.waiting[m - 1..] == s.waiting[m..]
    requires SettledAt(s, t, s.waiting[0], TimeoutJob) && SameBut(s, t, s.waiting[..m])
    requires forall f :: f in u.waiting[..m - 1] && SettledAt(u, t, f, TimeoutJob) ==> SettledAt(s, t, f, TimeoutJob)
    ensures TookFirst(s, t, m, TimeoutJob)
  {
    hide SettledAt, SameBut;
    forall k | 0 <= k < m ensures SettledAt(s, t, s.waiting[k], TimeoutJob) {
      if k > 0 {
        assert u.waiting[k - 1] == s.waiting[k];
        assert u.waiting[..m - 1][k - 1] == s.waiting[k];
      }
    }
  }

  /** Listed entries belong to IRPs, each to one of its own. */
  ghost predicate OwnersApart(s: State) {
    && (forall e :: e in s.waiting ==> e in s.entries && s.entries[e].owner in s.irps)
    && forall e, f :: e in s.waiting && f in s.waiting && e != f ==> s.entries[e].owner != s.entries[f].owner
  }

  lemma ListedOwners(s: State)
    requires Core(s)
    ensures OwnersApart(s) && NoRepeats(s.waiting)
  {
    assert NoRepeats(s.waiting);
    hide Core, NoRepeats;
    forall e | e in s.waiting ensures e in s.entries && s.entries[e].owner in s.irps { ListedHoldsIrp(s, e); }
    forall e, f | e in s.waiting && f in s.waiting && e != f ensures s.entries[e].owner != s.entries[f].owner {
      OwnersDiffer(s, e, f);
    }
  }

  lemma NotRepeated(es: seq<EntryId>, m: nat)
    requires NoRepeats(es) && 0 < m <= |es|
    ensures es[0] !in es[1..][..m - 1]
  {
  }

  lemma JoinedSame(s: State, u: State, t: State, e: EntryId, more: seq<EntryId>)
    requires SameBut(s, u, [e]) && SameBut(u, t, more) && e !in more
    ensures SameBut(s, t, [e] + more)
  {
    var taken := [e] + more;
    assert e in taken && forall f :: f in more ==> f in taken;
    forall i | i in s.irps && (forall f :: f in taken && f in s.entries ==> s.entries[f].owner != i)
      ensures t.irps[i] == s.irps[i]
    {
      forall f | f in more && f in u.entries ensures u.entries[f].owner != i {
        assert f in taken && f in s.entries;
      }
    }
  }

  lemma StaysSettled(s: State, u: State, t: State, e: EntryId, more: seq<EntryId>)
    requires SettledAt(s, u, e, TimeoutJob) && SameBut(u, t, more) && e !in more && OwnersApart(s)
    requires SameBut(s, u, [e]) && e in s.waiting && forall f :: f in more ==> f in s.waiting
    ensures SettledAt(s, t, e, TimeoutJob)
  {
    var i := s.entries[e].owner;
    forall f | f in more && f in u.entries ensures u.entries[f].owner != i {
      assert f in s.waiting && u.entries[f] == s.entries[f];
    }
    assert t.irps[i] == u.irps[i] && t.entries[e] == u.entries[e];
  }

  lemma SettledLater(s: State, u: State, t: State, e: EntryId, f: EntryId)
    requires SameBut(s, u, [e]) && SettledAt(u, t, f, TimeoutJob) && f != e && OwnersApart(s)
    requires e in s.waiting && f in s.waiting
    ensures SettledAt(s, t, f, TimeoutJob)
  {
    assert u.entries[f] == s.entries[f];
    var i := s.entries[f].owner;
    assert u.irps[i] == s.irps[i];
  }

  /** Exactly the first n entries are settled; the signal goes out when that empties the list. */
  lemma {:induction false} TimeOutEffect(s: State, n: nat)
    requires Core(s)
    ensures var t, m := DoTimeOut(s, n), Min(n, |s.waiting|);
      && TookFirst(s, t, m, TimeoutJob)
      && t.waitingNotEmpty == (s.waitingNotEmpty && (s.waiting == [] || m < |s.waiting|))
  {
    hide Core, TimeOutAll, TookFirst;
    TimeOutAllEffect(s, n);
    SignalIsApart(s, TimeOutAll(s, n), Min(n, |s.waiting|));
    RestIsWaiting(s, TimeOutAll(s, n), Min(n, |s.waiting|));
  }

  lemma RestIsWaiting(s: State, t: State, m: nat)
    requires m <= |s.waiting| && TookFirst(s, t, m, TimeoutJob)
    ensures t.waiting == [] <==> m == |s.waiting|
  {
    hide SettledAt, SameBut;
  }

  lemma SignalIsApart(s: State, t: State, m: nat)
    requires m <= |s.waiting| && TookFirst(s, t, m, TimeoutJob)
    ensures TookFirst(s, t.(waitingNotEmpty := false), m, TimeoutJob)
  {
    var u := t.(waitingNotEmpty := false);
    forall k | 0 <= k < m ensures SettledAt(s, u, s.waiting[k], TimeoutJob) {
      assert SettledAt(s, t, s.waiting[k], TimeoutJob);
    }
  }

  // ----- release -----

  /** The cancel routine of its IRP is still set: whoever takes it off the list wins the IRP. */
  predicate Armed(s: State, e: EntryId) {
    e in s.entries && s.entries[e].owner in s.irps && s.irps[s.entries[e].owner].armed
  }

  lemma ReleaseOneEffect(s: State)
    requires Core(s) && s.waiting != []
    ensures var t, e := ReleaseOne(s), s.waiting[0];
      && t.completing == (if Armed(s, e) then s.completing[e := ReleaseJob] else s.completing)
      && forall f :: f in s.waiting && f != e ==> (Armed(t, f) <==> Armed(s, f))
  {
    var e := s.waiting[0];
    assert e in s.waiting;
    ListedHoldsIrp(s, e);
    ListedOwners(s);
    hide Core, Without, NoRepeats, TakeOff;
    var i := s.entries[e].owner;
    if s.irps[i].armed {
      WonIs(s, e, i);
      ReleaseWon(s, i);
    } else {
      LostParts(s, e, i);
      ReleaseLost(s);
    }
  }

  lemma ReleaseWon(s: State, i: IrpId)
    requires s.waiting != [] && TakeOff(s, s.waiting[0]).1 == Won(i) && i in s.irps && OwnersApart(s)
    requires s.waiting[0] in s.entries && s.entries[s.waiting[0]].owner == i && s.irps[i].armed
    requires TakeOff(s, s.waiting[0]).0 ==
      s.(waiting := Without(s.waiting, s.waiting[0]), irps := s.irps[i := s.irps[i].(armed := false)])
    ensures ReleaseOne(s).completing == s.completing[s.waiting[0] := ReleaseJob]
    ensures forall f :: f in s.waiting && f != s.waiting[0] ==> (Armed(ReleaseOne(s), f) <==> Armed(s, f))
  {
    hide TakeOff, Without;
  }

  lemma ReleaseLost(s: State)
    requires s.waiting != [] && TakeOff(s, s.waiting[0]).1 == Lost && s.waiting[0] in s.entries
    requires TakeOff(s, s.waiting[0]).0 ==
      s.(waiting := Without(s.waiting, s.waiting[0]),
         entries := s.entries[s.waiting[0] := s.entries[s.waiting[0]].(cancelFrees := true)])
    ensures ReleaseOne(s).completing == s.completing
    ensures forall f :: f in s.waiting && f != s.waiting[0] ==> (Armed(ReleaseOne(s), f) <==> Armed(s, f))
  {
    hide TakeOff, Without;
  }

  /** Everything leaves the list, and exactly those that can still be won are to be completed as released. */
  lemma {:induction false} ReleaseEffect(s: State)
    requires Core(s)
    ensures var t := DoRelease(s);
      && t.waiting == [] && !t.waitingNotEmpty
      && (forall e :: e in t.completing <==> e in s.completing || (e in s.waiting && Armed(s, e)))
      && forall e :: e in t.completing ==>
           t.completing[e] == if e in s.waiting && Armed(s, e) then ReleaseJob else s.completing[e]
    decreases |s.waiting|
  {
    hide Core, ReleaseOne, Armed;
    ReleaseAllKeepsCore(s);
    ReleaseAllUnfolds(s);
    if s.waiting != [] {
      var u, e := ReleaseOne(s), s.waiting[0];
      ReleaseOneEffect(s);
      ReleaseOneKeepsCore(s);
      HeadIsGone(s, e);
      ReleaseEffect(u);
      assert forall f :: f in s.waiting <==> f == e || f in u.waiting;
    }
  }

  lemma HeadIsGone(s: State, e: EntryId)
    requires Core(s) && s.waiting != [] && e == s.waiting[0]
    ensures e !in s.waiting[1..] && forall f :: f in s.waiting ==> f !in s.completing || !Armed(s, f)
  {
    forall f | f in s.waiting ensures f !in s.completing || !Armed(s, f) { ListedHoldsIrp(s, f); }
    assert NoRepeats(s.waiting);
  }

  // ----- cancelled IRPs -----

  /** No IRP that was cancelled has its cancel routine set: it is not waiting for anybody to complete it. */
  ghost predicate CancelledIsTaken(irps: map<IrpId, Irp>) {
    forall i :: i in irps && irps[i].armed ==> !irps[i].cancelled
  }

  /** Nothing is armed or cancelled in between. */
  ghost predicate OnlyDisarms(a: map<IrpId, Irp>, b: map<IrpId, Irp>) {
    forall i :: i in b ==> i in a && (b[i].armed ==> a[i].armed) && b[i].cancelled == a[i].cancelled
  }

  lemma TakeOffDisarms(s: State, e: EntryId)
    ensures OnlyDisarms(s.irps, TakeOff(s, e).0.irps)
  {
    hide Without;
  }

  lemma SettleDisarms(s: State, k: nat, job: Job)
    requires k < |s.waiting|
    ensures OnlyDisarms(s.irps, SettleAt(s, k, job).irps)
  {
    hide TakeOff;
    TakeOffDisarms(s, s.waiting[k]);
  }

  lemma {:induction false} TimeOutDisarms(s: State, n: nat)
    ensures OnlyDisarms(s.irps, TimeOutAll(s, n).irps)
    decreases n
  {
    hide SettleAt;
    if n > 0 && s.waiting != [] {
      SettleDisarms(s, 0, TimeoutJob);
      TimeOutDisarms(SettleAt(s, 0, TimeoutJob), n - 1);
    }
  }

  lemma ReleaseOneDisarms(s: State)
    requires s.waiting != []
    ensures OnlyDisarms(s.irps, ReleaseOne(s).irps)
  {
    hide TakeOff;
    TakeOffDisarms(s, s.waiting[0]);
  }

  lemma {:induction false} ReleaseDisarms(s: State)
    ensures OnlyDisarms(s.irps, ReleaseAll(s).irps)
    decreases |s.waiting|
  {
    hide ReleaseOne;
    if s.waiting != [] {
      ReleaseOneDisarms(s);
      ReleaseDisarms(ReleaseOne(s));
    }
  }

  lemma PairOneDisarms(s: State)
    requires s.waiting != [] && s.queue.events != []
    ensures OnlyDisarms(s.irps, PairOne(s).irps)
  {
    hide TakeOff;
    TakeOffDisarms(Popped(s), s.waiting[0]);
  }

  lemma {:induction false} PairAllDisarms(s: State)
    ensures OnlyDisarms(s.irps, PairAll(s).irps)
    decreases |s.waiting|
  {
    hide PairOne;
    if s.waiting != [] && s.queue.events != [] {
      PairOneDisarms(s);
      PairAllDisarms(PairOne(s));
    }
  }

  lemma UnlinkDisarms(s: State, i: IrpId)
    requires i in s.irps && i in s.cancels && s.cancels[i].PointerRead?
    ensures OnlyDisarms(s.irps, DoUnlink(s, i).irps)
  {
    hide Without;
  }

  lemma CompleteDisarms(s: State, e: EntryId)
    requires e in s.completing
    ensures OnlyDisarms(s.irps, DoComplete(s, e).irps)
  {
    hide CompleteRequest, Free;
    var t := Touch(s, e).(completing := s.completing - {e});
    FreeKeepsIrps(t, e);
    if e in s.entries && s.entries[e].irp.Some? {
      RequestDisarms(Free(t, e), s.entries[e].irp.value);
    }
  }

  lemma FreeKeepsIrps(s: State, e: EntryId)
    ensures Free(s, e).irps == s.irps
  {
  }

  lemma RequestDisarms(s: State, i: IrpId)
    ensures forall who :: OnlyDisarms(s.irps, CompleteRequest(s, i, who).irps)
  {
  }

  lemma StepKeepsTaken(s: State, step: Step)
    requires Enabled(s, step) && CancelledIsTaken(s.irps)
    ensures CancelledIsTaken(Apply(s, step).irps)
  {
    hide PairAll, ReleaseAll, TimeOutAll, DoUnlink, DoComplete, SettleAt;
    match step {
      case Unlink(i) => UnlinkDisarms(s, i);
      case Reply(serial) =>
        var k := Find(s, 0, serial);
        if k < |s.waiting| {
          SettleDisarms(s, k, ReplyJob);
        }
      case Notify => PairAllDisarms(s);
      case Release => ReleaseDisarms(s);
      case TimeOut(n) => TimeOutDisarms(s, n);
      case Complete(e) => CompleteDisarms(s, e);
      case _ =>
    }
  }

  /** In no run does an IRP that was cancelled keep waiting, registered before it or after. */
  lemma {:induction false} CancelledNeverWaits(steps: seq<Step>)
    requires Run(steps).Some?
    ensures var s := Run(steps).value;
      forall e :: e in s.waiting ==> !(Armed(s, e) && s.irps[s.entries[e].owner].cancelled)
    ensures CancelledIsTaken(Run(steps).value.irps)
    decreases |steps|
  {
    hide Apply, Enabled;
    if steps != [] {
      var init := steps[..|steps| - 1];
      CancelledNeverWaits(init);
      StepKeepsTaken(Run(init).value, steps[|steps| - 1]);
    }
  }
}
