/** The properties of the driver under concurrency, for every run from a fresh module. */
module TransmitTheorems {
  import opened MachineInts
  import opened PacketQueue
  import opened TransmitMachine
  import opened TransmitSafety
  import opened TransmitOwnership
  import opened TransmitWakeups

  ghost predicate Inv(s: State) {
    && ControlInv(s.net) && HistoryInv(s)
    && OwnershipInv(s) && ConservationInv(s) && StatisticsInv(s) && SizesInv(s)
    && RegisteredInv(s) && WakeInv(s) && CancelInv(s)
  }

  lemma InvInit(s: State)
    requires Init(s)
    ensures Inv(s)
  {
    hide After, IsRun;
    WakeupsHoldInitially(s);
    forall id, p ensures Located(s, id, p) <==> Recorded(s.log, id, p) {
    }
  }

  lemma InvStep(s: State, e: Event)
    requires Inv(s) && Enabled(s, e)
    ensures Inv(Do(s, e))
  {
    hide Do, ControlInv, HistoryInv, ReadersInv, PlacesInv, DistinctInv, ConservationInv, StatisticsInv,
         SizesInv, RegisteredInv, WakeInv, CancelInv;
    ControlKept(s, e);
    HistoryStep(s, e);
    ReadersStep(s, e);
    PlacesStep(s, e);
    DistinctStep(s, e);
    ConservationStep(s, e);
    StatisticsStep(s, e);
    SizesStep(s, e);
    RegisteredStep(s, e);
    WakeStep(s, e);
    CancelStepInv(s, e);
  }

  lemma {:induction false} InvRun(s: State, es: seq<Event>)
    requires Inv(s) && IsRun(s, es)
    ensures Inv(After(s, es)) && After(s, es).net.limit == s.net.limit
    decreases |es|
  {
    hide Inv, Do;
    if es != [] {
      InvStep(s, es[0]);
      LimitIsFixed(s, es[0]);
      InvRun(Do(s, es[0]), es[1..]);
    }
  }

  lemma LimitIsFixed(s: State, e: Event)
    requires Inv(s) && Enabled(s, e)
    ensures Do(s, e).net.limit == s.net.limit
  {
    hide Do, HistoryInv, OwnershipInv, ConservationInv, StatisticsInv, SizesInv, RegisteredInv, WakeInv, CancelInv;
    ControlKept(s, e);
  }

  /** `s` is reached by a run of any threads from a freshly loaded module. */
  ghost predicate Reachable(s: State) {
    exists s0, es :: Init(s0) && IsRun(s0, es) && After(s0, es) == s
  }

  lemma ReachableInv(s: State)
    requires Reachable(s)
    ensures Inv(s)
  {
    var s0, es :| Init(s0) && IsRun(s0, es) && After(s0, es) == s;
    InvInit(s0);
    InvRun(s0, es);
  }

  // ---------------------------------------------------------------- order

  /** Packets leave, to readers and flushes together, in the order they came; no packet comes twice. */
  lemma FifoHistory(s: State)
    requires Reachable(s)
    ensures s.log.inserted == RemovedIds(s.log.removed) + s.net.queue.ids
    ensures NoDuplicates(s.log.inserted)
  {
    ReachableInv(s);
  }

  predicate Increasing(pos: seq<nat>) {
    forall i, j :: 0 <= i < j < |pos| ==> pos[i] < pos[j]
  }

  /** `pos` says where in `r` reader `t` took each packet of `taken`. */
  predicate TakenAt(r: seq<Removal>, t: nat, taken: seq<nat>, pos: seq<nat>) {
    && |pos| == |taken| && Increasing(pos)
    && forall i :: 0 <= i < |pos| ==> pos[i] < |r| && r[pos[i]] == ByReader(taken[i], t)
  }

  lemma {:induction false} TakenPositions(r: seq<Removal>, t: nat) returns (pos: seq<nat>)
    ensures TakenAt(r, t, TakenBy(r, t), pos)
  {
    if r == [] {
      pos := [];
    } else {
      var k := |r| - 1;
      var before := TakenPositions(r[..k], t);
      pos := before + if r[k].ByReader? && r[k].t == t then [k] else [];
      LastTaken(r[..k], r[k], t, TakenBy(r[..k], t), before);
      assert r[..k] + [r[k]] == r;
    }
  }

  lemma LastTaken(r: seq<Removal>, x: Removal, t: nat, taken: seq<nat>, pos: seq<nat>)
    requires TakenAt(r, t, taken, pos)
    ensures if x.ByReader? && x.t == t then TakenAt(r + [x], t, taken + [x.id], pos + [|r|])
            else TakenAt(r + [x], t, taken + [], pos + [])
  {
    assert taken + [] == taken && pos + [] == pos;
  }

  /** What a reader takes is an in-order selection, without repeats, of what was inserted. */
  lemma ReaderOrder(s: State, t: nat) returns (pos: seq<nat>)
    requires Reachable(s) && t in s.threads && s.threads[t].Reader?
    ensures var taken := s.threads[t].taken;
            && |pos| == |taken| && Increasing(pos) && NoDuplicates(taken)
            && forall i :: 0 <= i < |taken| ==> pos[i] < |s.log.inserted| && s.log.inserted[pos[i]] == taken[i]
  {
    ReachableInv(s);
    pos := TakenPositions(s.log.removed, t);
    var taken := s.threads[t].taken;
    forall i | 0 <= i < |taken| ensures s.log.inserted[pos[i]] == taken[i] {
      assert RemovedIds(s.log.removed)[pos[i]] == taken[i];
    }
  }

  // ---------------------------------------------------------------- ownership

  /** A packet handed to `net_dev_send` is in exactly one place, and any other is nowhere. */
  lemma OnePlaceEach(s: State, id: nat, p: Place, q: Place)
    requires Reachable(s)
    ensures id in s.log.sent <==> exists o :: Located(s, id, o)
    ensures Located(s, id, p) && Located(s, id, q) ==> p == q
  {
    ReachableInv(s);
    assert forall o :: Located(s, id, o) <==> Recorded(s.log, id, o);
    if id in s.log.sent {
      assert Located(s, id, s.log.place[id]);
    }
  }

  /** No packet is freed twice, and none is used again once freed. */
  lemma FreedOnce(s: State)
    requires Reachable(s)
    ensures NoDuplicates(FreedIds(s.log.freed))
    ensures forall id :: id in FreedIds(s.log.freed) ==>
              id !in s.net.queue.ids && forall t :: t in s.threads && Holds(s.threads[t]) ==> HeldId(s.threads[t]) != id
  {
    ReachableInv(s);
    forall id | id in FreedIds(s.log.freed)
      ensures id !in s.net.queue.ids && forall t :: t in s.threads && Holds(s.threads[t]) ==> HeldId(s.threads[t]) != id
    {
      OnePlaceEach(s, id, Released, Queued);
      assert Located(s, id, Released);
      forall t | t in s.threads && Holds(s.threads[t]) ensures HeldId(s.threads[t]) != id {
        OnePlaceEach(s, id, Released, Held(t));
      }
    }
  }

  /**
   Every packet sent is accounted for, the counters agree with the packets
   modulo 2^32, and no packet is counted with more bytes than it has.
   */
  lemma Conservation(s: State)
    requires Reachable(s)
    ensures var f := s.log.freed;
            |s.log.sent| == Tally(s.threads, IsSender) + |s.net.queue.ids| + Tally(s.threads, Holds)
                          + CountWhy(f, Refused) + CountWhy(f, Flushed)
                          + CountWhy(f, Delivered) + CountWhy(f, CopyFault) + CountWhy(f, StoreFault)
    ensures s.net.txDropped
         == Wrap32(CountWhy(s.log.freed, Refused) + CountWhy(s.log.freed, Flushed) - Uncounted(s.net.control))
    ensures s.net.txPackets == Wrap32(CountWhy(s.log.freed, Delivered) + CountWhy(s.log.freed, StoreFault)
                                      + Tally(s.threads, IsCounted))
    ensures s.net.txBytes == Wrap32(BytesOf(s.log.freed) + Total(s.threads, Measured))
    ensures forall f :: f in s.log.freed ==> f.bytes <= SizeOf(s.log, f.id)
  {
    hide Wrap32, CountWhy, BytesOf, Total, WakeInv, CancelInv, OwnershipInv, HistoryInv, ControlInv, Reachable;
    ReachableInv(s);
    FatesPartition(s.log.freed);
  }

  // ---------------------------------------------------------------- limits, closing, destruction

  lemma BoundedQueue(s0: State, es: seq<Event>)
    requires Init(s0) && IsRun(s0, es)
    ensures |After(s0, es).net.queue.ids| <= s0.net.limit
  {
    InvInit(s0);
    InvRun(s0, es);
  }

  predicate NeverEnables(es: seq<Event>) {
    forall i :: 0 <= i < |es| ==> es[i] != Manage(OpenEnable)
  }

  lemma DisabledStep(s: State, e: Event)
    requires Enabled(s, e) && !s.net.queue.enabled && e != Manage(OpenEnable)
    ensures var q, q' := s.net.queue, Do(s, e).net.queue;
            && !q'.enabled && |q'.ids| <= |q.ids| && q'.ids == q.ids[|q.ids| - |q'.ids|..]
            && (e == Manage(CloseFlush) ==> q'.ids == [])
  {
    hide Do;
    QueueStep(s, e);
  }

  /**
   Once disabled, the queue only loses packets from its front until the next
   `net_dev_open`, whatever senders and readers do; a flush leaves it empty for good.
   */
  lemma {:induction false} CloseDrains(s: State, es: seq<Event>)
    requires IsRun(s, es) && !s.net.queue.enabled && NeverEnables(es)
    ensures var q, q' := s.net.queue, After(s, es).net.queue;
            && !q'.enabled && |q'.ids| <= |q.ids| && q'.ids == q.ids[|q.ids| - |q'.ids|..]
            && (Manage(CloseFlush) in es ==> q'.ids == [])
    decreases |es|
  {
    hide Do;
    if es != [] {
      var s1 := Do(s, es[0]);
      DisabledStep(s, es[0]);
      assert forall i :: 0 <= i < |es[1..]| ==> es[1..][i] == es[i + 1];
      CloseDrains(s1, es[1..]);
      assert Manage(CloseFlush) in es ==> es[0] == Manage(CloseFlush) || Manage(CloseFlush) in es[1..];
    }
  }

  /** A net device that is absent, or registered but not up, has an empty queue: `vnet_close` never warns. */
  lemma EmptyAtDestruction(s: State)
    requires Reachable(s)
    ensures s.net.control.Absent? || s.net.control.Down? || s.net.control.Destroyed? ==>
              s.net.queue == QueueView([], false)
    ensures !s.net.leftover
  {
    ReachableInv(s);
  }

  // ---------------------------------------------------------------- wake-ups

  /** A poller sleeps over a non-empty queue only while a sender is between its insert and its wake-up. */
  lemma NoLostWakeup(s: State, t: nat)
    requires Reachable(s) && t in s.threads && Asleep(s.threads[t]) && s.net.queue.ids != []
    ensures exists u :: u in s.threads && s.threads[u].Waker?
  {
    ReachableInv(s);
  }

  /** Every poller registered in `s` is as in `s`, but triggered. */
  predicate AllTriggered(s: State, s': State) {
    forall t :: t in s.threads && s.threads[t].Poller? && s.threads[t].registered ==>
      t in s'.threads && s'.threads[t] == Poller(s.threads[t].at, true, true, s.threads[t].missed)
  }

  /** A canceller's wake-up triggers every poller registered by then. */
  lemma CancelReachesRegistered(s: State, u: nat)
    requires CanCancel(s, u, WakePollers)
    ensures AllTriggered(s, Do(s, Cancel(u, WakePollers)))
  {
  }

  /** That wake-up triggers every registered poller, and leaves none asleep. */
  lemma WakeReachesEveryone(s: State, u: nat)
    requires Reachable(s) && CanSend(s, u, WakeReaders)
    ensures !SomeAsleep(Do(s, Send(u, WakeReaders)).threads)
    ensures AllTriggered(s, Do(s, Send(u, WakeReaders)))
  {
    ReachableInv(s);
    WakeLeavesNobodyAsleep(s.threads, false, u);
  }

  /**
   With no canceller at work, a poller sleeps through a cancel exactly when the
   canceller's wake-up ran between the poller's test of the flag and its
   registration: the flag is tested before the poller registers.
   */
  lemma LostCancelExactly(s: State, t: nat)
    requires Reachable(s) && t in s.threads && Asleep(s.threads[t]) && !CancelPending(s.threads)
    ensures s.net.canceled <==> s.threads[t].missed
  {
    ReachableInv(s);
    assert Unaware(s.threads[t]);
  }

  predicate SetsFlag(e: Event) {
    e.Cancel? && e.cancel.SetFlag?
  }

  /** A canceller set the flag, and the file was not opened again after that. */
  predicate SetSinceOpen(es: seq<Event>) {
    exists i :: 0 <= i < |es| && SetsFlag(es[i]) && forall j :: i < j < |es| ==> es[j] != Manage(AddDevice)
  }

  lemma CanceledStep(s: State, e: Event)
    requires Enabled(s, e)
    ensures Do(s, e).net.canceled == (SetsFlag(e) || (s.net.canceled && e != Manage(AddDevice)))
  {
  }

  lemma {:induction false} CanceledInRun(s: State, es: seq<Event>)
    requires IsRun(s, es)
    ensures After(s, es).net.canceled <==>
              SetSinceOpen(es) || (s.net.canceled && forall j :: 0 <= j < |es| ==> es[j] != Manage(AddDevice))
    decreases |es|
  {
    hide Do, Enabled;
    if es != [] {
      var rest := es[1..];
      CanceledStep(s, es[0]);
      CanceledInRun(Do(s, es[0]), rest);
      assert forall i :: 0 < i < |es| ==> es[i] == rest[i - 1];
      if SetSinceOpen(rest) {
        var i :| 0 <= i < |rest| && SetsFlag(rest[i]) && forall j :: i < j < |rest| ==> rest[j] != Manage(AddDevice);
        assert SetsFlag(es[i + 1]);
      }
      if SetSinceOpen(es) {
        var i :| 0 <= i < |es| && SetsFlag(es[i]) && forall j :: i < j < |es| ==> es[j] != Manage(AddDevice);
        assert i > 0 ==> SetsFlag(rest[i - 1]);
        assert forall j :: 0 <= j < |rest| ==> rest[j] == es[j + 1];
      }
    }
  }

  /** The cancel flag is set exactly when a canceller set it and the file was not opened since. */
  lemma CanceledSinceOpen(s0: State, es: seq<Event>)
    requires Init(s0) && IsRun(s0, es)
    ensures After(s0, es).net.canceled <==> SetSinceOpen(es)
  {
    CanceledInRun(s0, es);
  }

  // ---------------------------------------------------------------- progress

  /** Every call in progress has a next step, in every reachable state. */
  lemma NobodyIsStuck(s: State, t: nat)
    requires Reachable(s) && t in s.threads
    ensures match s.threads[t]
            case Sender(_) => Enabled(s, Send(t, Offer))
            case Waker => Enabled(s, Send(t, WakeReaders))
            case Reader(_, _, stage) =>
              (match stage
               case Next => Enabled(s, Read(t, Remove))
               case Copying => forall copied, room :: Enabled(s, Read(t, Copy(copied, room)))
               case Counting(_) => Enabled(s, Read(t, Count))
               case Measuring(_) => Enabled(s, Read(t, Measure))
               case Returning(_) => forall stored :: Enabled(s, Read(t, Store(stored)))
               case Freeing(_, _) => Enabled(s, Read(t, Release))
               case Returned => true)
            case Poller(at, _, triggered, _) =>
              (match at
               case Testing => Enabled(s, Poll(t, Test))
               case Registering => Enabled(s, Poll(t, Register))
               case Checking => Enabled(s, Poll(t, Check))
               case Waiting => Enabled(s, Poll(t, Leave)) && (triggered <==> Enabled(s, Poll(t, Again))))
            case Canceller => Enabled(s, Cancel(t, SetFlag))
            case CancelWaker => Enabled(s, Cancel(t, WakePollers))
            case Finished => true
  {
    hide PlacesInv, DistinctInv, HistoryInv, ConservationInv, StatisticsInv, SizesInv, WakeInv, CancelInv, Reachable;
    ReachableInv(s);
  }

  /** Any number of calls may begin: a send of a new packet at any time, a call on the file while it is open. */
  lemma CallsMayBegin(s: State, t: nat, id: nat, size: u32, count: nat)
    requires Reachable(s) && t !in s.threads && count > 0
    ensures id !in s.log.sent ==>
              && Enabled(s, Send(t, Arrive(id, size)))
              && var s' := Do(s, Send(t, Arrive(id, size)));
                 s'.threads == s.threads[t := Sender(id)] && SizeOf(s'.log, id) == size && s'.net == s.net
    ensures !s.net.control.Absent? && !s.net.control.Destroyed? ==>
              && Enabled(s, Read(t, StartRead(count))) && Enabled(s, Poll(t, StartPoll))
              && Enabled(s, Cancel(t, StartCancel))
              && Do(s, Read(t, StartRead(count))) == s.(threads := s.threads[t := Reader(count, [], Next)])
              && Do(s, Poll(t, StartPoll)) == s.(threads := s.threads[t := Poller(Testing, false, false, false)])
              && Do(s, Cancel(t, StartCancel)) == s.(threads := s.threads[t := Canceller])
  {
    hide PlacesInv, ReadersInv, HistoryInv, ConservationInv, StatisticsInv, SizesInv, WakeInv, CancelInv, Reachable;
    ReachableInv(s);
  }

  /** The control thread has a next step until the module is gone; a new open waits for the last call of the old one. */
  lemma ControlIsNeverStuck(s: State)
    ensures s.net.control.Absent? ==> Enabled(s, Manage(Destroy))
    ensures Enabled(s, Manage(AddDevice)) <==>
              s.net.control.Absent? && forall t :: t in s.threads ==> !UsesFile(s.threads[t])
    ensures s.net.control.Down? ==> Enabled(s, Manage(OpenEnable)) && Enabled(s, Manage(RemoveDevice))
    ensures s.net.control.Opening? ==> Enabled(s, Manage(OpenConnect))
    ensures s.net.control.Up? ==> Enabled(s, Manage(CloseDisable(false))) && Enabled(s, Manage(CloseDisable(true)))
    ensures s.net.control.Draining? ==> Enabled(s, Manage(CloseFlush))
    ensures s.net.control.Accounting? ==> Enabled(s, Manage(CloseCount))
    ensures s.net.control.Disconnecting? ==> Enabled(s, Manage(CloseDisconnect))
  {
  }

  /** The states the control thread goes through. */
  lemma ControlPath(s: State, e: ControlStep)
    requires CanManage(s, e)
    ensures Do(s, Manage(e)).threads == s.threads
    ensures var c := Do(s, Manage(e)).net.control;
            match e
            case AddDevice => c == Down
            case OpenEnable => c == Opening
            case OpenConnect => c == Up
            case CloseDisable(removing) => c == Draining(removing)
            case CloseFlush => c == Accounting(s.net.control.remove, |s.net.queue.ids|)
            case CloseCount => c == Disconnecting(s.net.control.remove)
            case CloseDisconnect => c == if s.net.control.remove then Absent else Down
            case RemoveDevice => c == Absent
            case Destroy => c == Destroyed
  {
  }

  /** A triggered poller tests again, still registered; one that leaves is done. */
  lemma PollerResumes(s: State, t: nat)
    requires CanPoll(s, t, Leave)
    ensures Do(s, Poll(t, Leave)) == s.(threads := s.threads[t := Finished])
    ensures s.threads[t].triggered ==>
              && Enabled(s, Poll(t, Again))
              && Do(s, Poll(t, Again)) ==
                   s.(threads := s.threads[t := Poller(Testing, s.threads[t].registered, false, false)])
  {
  }

  lemma {:induction false} RunAppend(s: State, es: seq<Event>, e: Event)
    requires IsRun(s, es) && Enabled(After(s, es), e)
    ensures IsRun(s, es + [e]) && After(s, es + [e]) == Do(After(s, es), e)
    decreases |es|
  {
    hide Do, Enabled;
    if es == [] {
      assert IsRun(Do(s, e), []);
      assert (es + [e])[1..] == [];
    } else {
      RunAppend(Do(s, es[0]), es[1..], e);
      assert (es + [e])[1..] == es[1..] + [e];
    }
  }

  lemma ReachableStep(s: State, e: Event)
    requires Reachable(s) && Enabled(s, e)
    ensures Reachable(Do(s, e))
  {
    hide Do, Enabled;
    var s0, es :| Init(s0) && IsRun(s0, es) && After(s0, es) == s;
    RunAppend(s0, es, e);
  }

  /** Eight steps of one poller and one canceller after which the cancelled poller sleeps, with nobody to wake it. */
  lemma LostCancelHappens() returns (s: State)
    ensures Reachable(s) && s.net.canceled && 0 in s.threads && Asleep(s.threads[0]) && !CancelPending(s.threads)
    ensures forall t :: t in s.threads && t != 0 ==> s.threads[t] == Finished
  {
    var net := Net(QueueView([], false), 256, Absent, false, false, false, 0, 0, 0);
    s := State(net, map[], Log([], map[], [], [], [], map[]));
    assert Reachable(s) by {
      assert IsRun(s, []) && After(s, []) == s;
    }
    s := PollerTestsFlag(s);
    s := CancelGoesBy(s);
    hide Reachable;
    s := Follow(s, Poll(0, Register));
    assert s.threads[0] == Poller(Checking, true, false, true);
    s := Follow(s, Poll(0, Check));
    assert s.threads[0] == Poller(Waiting, true, false, true);
  }

  lemma PollerTestsFlag(s0: State) returns (s: State)
    requires Reachable(s0) && Init(s0)
    ensures Reachable(s) && s.net == s0.net.(control := Down)
    ensures s.threads == map[0 := Poller(Registering, false, false, false)]
  {
    hide Reachable;
    s := Follow(s0, Manage(AddDevice));
    s := Follow(s, Poll(0, StartPoll));
    s := Follow(s, Poll(0, Test));
  }

  lemma CancelGoesBy(s0: State) returns (s: State)
    requires Reachable(s0) && s0.net.control == Down
    requires s0.threads == map[0 := Poller(Registering, false, false, false)]
    ensures Reachable(s) && s.net == s0.net.(canceled := true)
    ensures s.threads == map[0 := Poller(Registering, false, false, true), 1 := Finished]
  {
    hide Reachable;
    s := Follow(s0, Cancel(1, StartCancel));
    s := Follow(s, Cancel(1, SetFlag));
    s := Follow(s, Cancel(1, WakePollers));
  }

  lemma Follow(s: State, e: Event) returns (s': State)
    requires Reachable(s) && Enabled(s, e)
    ensures Reachable(s') && s' == Do(s, e)
  {
    ReachableStep(s, e);
    s' := Do(s, e);
  }
}
