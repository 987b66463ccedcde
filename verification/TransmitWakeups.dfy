/** Sleeping pollers: what wakes them, and the one way a cancel can miss them. */
module TransmitWakeups {
  import opened TransmitMachine

  /** Saw an empty queue and nobody has triggered it since: the kernel lets it sleep. */
  predicate Asleep(th: Thread) {
    th.Poller? && th.at == Waiting && !th.triggered
  }

  predicate SomeAsleep(threads: map<nat, Thread>) {
    exists t :: t in threads && Asleep(threads[t])
  }

  predicate WakePending(threads: map<nat, Thread>) {
    exists t :: t in threads && threads[t].Waker?
  }

  predicate CancelPending(threads: map<nat, Thread>) {
    exists t :: t in threads && threads[t].CancelWaker?
  }

  ghost predicate RegisteredInv(s: State) {
    forall t :: t in s.threads && s.threads[t].Poller? ==>
      s.threads[t].at == Checking || s.threads[t].at == Waiting ==> s.threads[t].registered
  }

  /** While a poller sleeps over a non-empty queue, a sender is about to wake it. */
  ghost predicate WakeInv(s: State) {
    SomeAsleep(s.threads) && s.net.queue.ids != [] ==> WakePending(s.threads)
  }

  /** Past the test of the flag, and no wake-up since registering. */
  predicate Unaware(th: Thread) {
    th.Poller? && th.at != Testing && !th.triggered
  }

  ghost predicate CancelInv(s: State) {
    && (CancelPending(s.threads) ==> s.net.canceled)
    && (forall t :: t in s.threads && s.threads[t].Poller? && s.threads[t].missed ==> s.net.canceled)
    && (forall t :: t in s.threads && Unaware(s.threads[t]) && s.net.canceled ==>
          s.threads[t].missed || CancelPending(s.threads))
  }

  lemma RegisteredStep(s: State, e: Event)
    requires RegisteredInv(s) && Enabled(s, e)
    ensures RegisteredInv(Do(s, e))
  {
  }

  lemma WakeLeavesNobodyAsleep(threads: map<nat, Thread>, cancel: bool, t: nat)
    requires forall u :: u in threads && threads[u].Poller? && threads[u].at == Waiting ==> threads[u].registered
    ensures !SomeAsleep(WakeAll(threads, cancel)[t := Finished])
  {
  }

  lemma WakeStep(s: State, e: Event)
    requires WakeInv(s) && RegisteredInv(s) && Enabled(s, e)
    ensures WakeInv(Do(s, e))
  {
    var s' := Do(s, e);
    if e.Send? && e.send.WakeReaders? {
      WakeLeavesNobodyAsleep(s.threads, false, e.t);
    } else if e.Cancel? && e.cancel.WakePollers? {
      WakeLeavesNobodyAsleep(s.threads, true, e.t);
    } else if SomeAsleep(s'.threads) && s'.net.queue.ids != [] {
      if e.Send? && e.send.Offer? && s.net.queue.Accepts(s.net.limit) {
        assert s'.threads[e.t].Waker?;
      } else {
        var t :| t in s'.threads && Asleep(s'.threads[t]);
        assert t in s.threads && Asleep(s.threads[t]);
        var u :| u in s.threads && s.threads[u].Waker?;
        assert u in s'.threads && s'.threads[u].Waker?;
      }
    }
  }

  lemma CancelStepInv(s: State, e: Event)
    requires CancelInv(s) && RegisteredInv(s) && Enabled(s, e)
    ensures CancelInv(Do(s, e))
  {
    var s' := Do(s, e);
    if e.Cancel? && e.cancel.SetFlag? {
      assert s'.threads[e.t].CancelWaker?;
    } else if !(e.Cancel? && e.cancel.WakePollers?) && CancelPending(s.threads) {
      var u :| u in s.threads && s.threads[u].CancelWaker?;
      assert e.Manage? && e.manage.AddDevice? ==> UsesFile(s.threads[u]);
      assert u in s'.threads && s'.threads[u].CancelWaker?;
    }
  }

  lemma WakeupsHoldInitially(s: State)
    requires Init(s)
    ensures RegisteredInv(s) && WakeInv(s) && CancelInv(s)
  {
  }
}
