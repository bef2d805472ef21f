/**
 * The thread of dokanlib/sys/notification.c that pairs waiting IRPs with events: what its wait on several
 * events lets it serve, on top of the protocol of module PendingIrp.
 */
module NotificationThread {
  import opened Basics
  import M = PendingIrp

  /** What the thread does after one wait: stop, or serve the lists of the device or of the service. */
  datatype Round = Blocked | Stop | ServeDevice | ServeService

  /** ReleaseEvent, the NotEmpty events of the device's two lists, and those of the service's two lists. */
  const OBJECTS: nat := 5

  /** The number of them the thread passes to its wait. */
  const WAITED: nat := 3

  /** KeWaitForMultipleObjects with WaitAny: the first signalled event among the first count. */
  function WaitAny(signalled: seq<bool>, count: nat): (r: Option<nat>)
    requires count <= |signalled|
    ensures r.Some? ==> r.value < count && signalled[r.value] && forall i :: 0 <= i < r.value ==> !signalled[i]
    ensures r == None ==> forall i :: 0 <= i < count ==> !signalled[i]
  {
    if count == 0 then None
    else
      match WaitAny(signalled, count - 1)
      case Some(i) => Some(i)
      case None => if signalled[count - 1] then Some(count - 1) else None
  }

  /** One turn of the loop of NotificationThread. */
  function Turn(signalled: seq<bool>, count: nat): Round
    requires count <= |signalled|
  {
    match WaitAny(signalled, count)
    case None => Blocked
    case Some(i) => if i == 0 then Stop else if i == 1 || i == 2 then ServeDevice else ServeService
  }

  /**
   * The thread waits for three events only: it never serves the lists of the service, and blocks exactly
   * when neither its stop event nor the lists of the device are signalled, whatever the service's are.
   */
  lemma ServiceIsNeverServed(signalled: seq<bool>)
    requires |signalled| == OBJECTS
    ensures Turn(signalled, WAITED) != ServeService
    ensures Turn(signalled, WAITED) == Blocked <==> !signalled[0] && !signalled[1] && !signalled[2]
  {
  }

  lemma DeviceSignalWakes(signalled: seq<bool>)
    requires |signalled| >= WAITED && (signalled[1] || signalled[2])
    ensures Turn(signalled, WAITED) == if signalled[0] then Stop else ServeDevice
  {
    var r := WaitAny(signalled, WAITED);
    assert r.Some?;
  }

  /** What the device's two lists have signalled in state s. */
  function Signals(s: M.State, release: bool, service: seq<bool>): seq<bool> {
    [release, s.queue.notEmpty, s.waitingNotEmpty] + service
  }

  /**
   * On the device's lists nobody waits in vain. With waiters and events at hand, and no notifier between
   * queueing its event and signalling it, the thread does not block; unless it was told to stop, it runs
   * NotificationLoop, after which waiters or events are used up.
   */
  lemma {:induction false} WaitersAreServed(steps: seq<M.Step>, release: bool, service: seq<bool>)
    requires M.Run(steps).Some?
    requires var s := M.Run(steps).value; s.waiting != [] && s.queue.events != [] && s.queue.signallers == 0
    ensures var s := M.Run(steps).value; var t := M.DoNotify(s);
      && Turn(Signals(s, release, service), WAITED) == (if release then Stop else ServeDevice)
      && (t.waiting == [] || t.queue.events == [])
  {
    hide M.Run, M.DoNotify, M.DeliveredOk, M.EventsOf;
    M.NoEventLost(steps);
    M.NotifyPairsAll(steps);
    DeviceSignalWakes(Signals(M.Run(steps).value, release, service));
  }
}
