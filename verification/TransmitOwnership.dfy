/** Who has each packet, how many there are, and what the counters say about them. */
module TransmitOwnership {
  import opened MachineInts
  import opened TransmitMachine

  // ---------------------------------------------------------------- one place for every packet

  function FreedIds(f: seq<Free>): (ids: seq<nat>)
    ensures |ids| == |f| && forall i :: 0 <= i < |f| ==> ids[i] == f[i].id
  {
    seq(|f|, i requires 0 <= i < |f| => f[i].id)
  }

  predicate NoDuplicates(s: seq<nat>) {
    forall i, j :: 0 <= i < j < |s| ==> s[i] != s[j]
  }

  /** Packet `id` is physically at `p`. */
  predicate Located(s: State, id: nat, p: Place) {
    match p
    case Entering(t) => t in s.threads && s.threads[t] == Sender(id)
    case Queued => id in s.net.queue.ids
    case Held(t) => t in s.threads && Holds(s.threads[t]) && HeldId(s.threads[t]) == id
    case Released => id in FreedIds(s.log.freed)
  }

  predicate Recorded(log: Log, id: nat, p: Place) {
    id in log.place && log.place[id] == p
  }

  ghost predicate PlacesInv(s: State) {
    forall id, p :: Located(s, id, p) <==> Recorded(s.log, id, p)
  }

  ghost predicate ReadersInv(s: State) {
    forall t :: t in s.threads && s.threads[t].Reader? && !s.threads[t].stage.Returned? ==>
      && s.threads[t].left > 0 && (s.threads[t].stage.Next? || s.threads[t].taken != [])
      && (s.threads[t].stage.Freeing? ==> !s.threads[t].stage.why.Refused? && !s.threads[t].stage.why.Flushed?)
  }

  ghost predicate DistinctInv(s: State) {
    && NoDuplicates(s.log.sent) && NoDuplicates(s.net.queue.ids) && NoDuplicates(FreedIds(s.log.freed))
    && (forall id :: id in s.log.sent <==> id in s.log.place)
    && NoDuplicates(s.log.inserted)
    && (forall id :: id in s.log.inserted ==> id in s.log.place && !s.log.place[id].Entering?)
  }

  ghost predicate OwnershipInv(s: State) {
    ReadersInv(s) && PlacesInv(s) && DistinctInv(s)
  }

  lemma ReadersStep(s: State, e: Event)
    requires ReadersInv(s) && Enabled(s, e)
    ensures ReadersInv(Do(s, e))
  {
  }

  lemma FreedAppend(f: seq<Free>, x: Free)
    ensures FreedIds(f + [x]) == FreedIds(f) + [x.id]
  {
  }

  lemma FreedFlush(f: seq<Free>, ids: seq<nat>)
    ensures FreedIds(f + FlushedFrees(ids)) == FreedIds(f) + ids
  {
  }

  lemma PlacesStep(s: State, e: Event)
    requires OwnershipInv(s) && Enabled(s, e)
    ensures PlacesInv(Do(s, e))
  {
    match e
    case Send(t, step) => PlacesSend(s, t, step);
    case Read(t, step) => PlacesRead(s, t, step);
    case Poll(t, step) => PlacesQuiet(s, e);
    case Cancel(t, step) => PlacesQuiet(s, e);
    case Manage(step) => PlacesManage(s, step);
  }

  lemma PlacesSend(s: State, t: nat, e: SendStep)
    requires OwnershipInv(s) && CanSend(s, t, e)
    ensures PlacesInv(DoSend(s, t, e))
  {
    var s' := DoSend(s, t, e);
    if e.Offer? {
      FreedAppend(s.log.freed, Free(s.threads[t].id, Refused, 0));
      assert Located(s, s.threads[t].id, Entering(t));
    }
    forall id, p ensures Located(s', id, p) <==> Recorded(s'.log, id, p) {
      assert Located(s, id, p) <==> Recorded(s.log, id, p);
    }
  }

  lemma PlacesRead(s: State, t: nat, e: ReadStep)
    requires OwnershipInv(s) && CanRead(s, t, e)
    ensures PlacesInv(DoRead(s, t, e))
  {
    if e.Release? {
      PlacesRelease(s, t);
    } else if e.Remove? && s.net.queue.ids != [] {
      PlacesTake(s, t);
    } else {
      PlacesQuiet(s, Read(t, e));
    }
  }

  lemma PlacesTake(s: State, t: nat)
    requires OwnershipInv(s) && CanRead(s, t, Remove) && s.net.queue.ids != []
    ensures PlacesInv(DoRead(s, t, Remove))
  {
    var s' := DoRead(s, t, Remove);
    assert Located(s, s.net.queue.ids[0], Queued);
    forall id, p ensures Located(s', id, p) <==> Recorded(s'.log, id, p) {
      assert Located(s, id, p) <==> Recorded(s.log, id, p);
    }
  }

  lemma PlacesRelease(s: State, t: nat)
    requires OwnershipInv(s) && CanRead(s, t, Release)
    ensures PlacesInv(DoRead(s, t, Release))
  {
    var s', th := DoRead(s, t, Release), s.threads[t];
    FreedAppend(s.log.freed, Free(HeldId(th), th.stage.why, th.stage.bytes));
    assert Located(s, HeldId(th), Held(t));
    forall id, p ensures Located(s', id, p) <==> Recorded(s'.log, id, p) {
      assert Located(s, id, p) <==> Recorded(s.log, id, p);
    }
  }

  lemma PlacesQuiet(s: State, e: Event)
    requires PlacesInv(s) && Enabled(s, e) && (e.Read? || e.Poll? || e.Cancel?)
    requires e.Read? ==> !e.read.Release? && (e.read.Remove? ==> s.net.queue.ids == [])
    ensures PlacesInv(Do(s, e))
  {
    var s' := Do(s, e);
    forall id, p ensures Located(s', id, p) <==> Recorded(s'.log, id, p) {
      assert Located(s, id, p) <==> Recorded(s.log, id, p);
    }
  }

  lemma PlacesManage(s: State, e: ControlStep)
    requires PlacesInv(s) && CanManage(s, e)
    ensures PlacesInv(DoManage(s, e))
  {
    var s' := DoManage(s, e);
    FreedFlush(s.log.freed, s.net.queue.ids);
    forall id, p ensures Located(s', id, p) <==> Recorded(s'.log, id, p) {
      assert Located(s, id, p) <==> Recorded(s.log, id, p);
      assert Located(s, id, Queued) <==> Recorded(s.log, id, Queued);
    }
  }

  lemma DistinctStep(s: State, e: Event)
    requires OwnershipInv(s) && Enabled(s, e)
    ensures DistinctInv(Do(s, e))
  {
    match e
    case Send(t, step) => DistinctSend(s, t, step);
    case Read(t, step) => DistinctRead(s, t, step);
    case Poll(t, step) =>
    case Cancel(t, step) =>
    case Manage(step) => DistinctManage(s, step);
  }

  lemma DistinctSend(s: State, t: nat, e: SendStep)
    requires OwnershipInv(s) && CanSend(s, t, e)
    ensures DistinctInv(DoSend(s, t, e))
  {
    if e.Offer? {
      var id := s.threads[t].id;
      FreedAppend(s.log.freed, Free(id, Refused, 0));
      assert Located(s, id, Entering(t));
      assert !Located(s, id, Queued) && !Located(s, id, Released);
    }
  }

  lemma DistinctRead(s: State, t: nat, e: ReadStep)
    requires OwnershipInv(s) && CanRead(s, t, e)
    ensures DistinctInv(DoRead(s, t, e))
  {
    if e.Release? {
      var id := HeldId(s.threads[t]);
      FreedAppend(s.log.freed, Free(id, s.threads[t].stage.why, s.threads[t].stage.bytes));
      assert Located(s, id, Held(t));
      assert !Located(s, id, Released);
    } else if e.Remove? && s.net.queue.ids != [] {
      assert Located(s, s.net.queue.ids[0], Queued);
    }
  }

  lemma DistinctManage(s: State, e: ControlStep)
    requires OwnershipInv(s) && CanManage(s, e)
    ensures DistinctInv(DoManage(s, e))
  {
    var ids := s.net.queue.ids;
    FreedFlush(s.log.freed, ids);
    forall id | id in ids ensures id !in FreedIds(s.log.freed) {
      assert Located(s, id, Queued);
      assert !Located(s, id, Released);
    }
    NoDuplicatesConcat(FreedIds(s.log.freed), ids);
  }

  lemma NoDuplicatesConcat(a: seq<nat>, b: seq<nat>)
    requires NoDuplicates(a) && NoDuplicates(b) && forall x :: x in b ==> x !in a
    ensures NoDuplicates(a + b)
  {
    forall i, j | 0 <= i < j < |a + b| ensures (a + b)[i] != (a + b)[j] {
      assert j >= |a| ==> b[j - |a|] in b;
    }
  }

  // ---------------------------------------------------------------- sums over threads

  /** The sum of `w` over all threads. */
  ghost function Total(threads: map<nat, Thread>, w: Thread -> nat): nat
    decreases threads.Keys
  {
    if threads == map[] then 0
    else
      var t :| t in threads;
      w(threads[t]) + Total(threads - {t}, w)
  }

  function Ones(P: Thread -> bool): (w: Thread -> nat)
    ensures forall th :: w(th) == if P(th) then 1 else 0
  {
    (th: Thread) => if P(th) then 1 else 0
  }

  /** How many threads satisfy `P`. */
  ghost function Tally(threads: map<nat, Thread>, P: Thread -> bool): nat {
    Total(threads, Ones(P))
  }

  /** The sum does not depend on where it begins. */
  lemma {:induction false} TotalPick(threads: map<nat, Thread>, t: nat, w: Thread -> nat)
    requires t in threads
    ensures Total(threads, w) == w(threads[t]) + Total(threads - {t}, w)
    decreases threads.Keys
  {
    var u :| u in threads && Total(threads, w) == w(threads[u]) + Total(threads - {u}, w);
    if u != t {
      TotalPick(threads - {u}, t, w);
      TotalPick(threads - {t}, u, w);
      assert threads - {u} - {t} == threads - {t} - {u};
    }
  }

  lemma TotalUpdate(threads: map<nat, Thread>, t: nat, th: Thread, w: Thread -> nat)
    ensures Total(threads[t := th], w)
         == Total(threads, w) - (if t in threads then w(threads[t]) else 0) + w(th)
  {
    TotalPick(threads[t := th], t, w);
    assert threads[t := th] - {t} == threads - {t};
    if t in threads {
      TotalPick(threads, t, w);
    } else {
      assert threads - {t} == threads;
    }
  }

  lemma {:induction false} TotalWake(threads: map<nat, Thread>, cancel: bool, w: Thread -> nat)
    requires forall th: Thread :: th.Poller? ==> w(th) == 0
    ensures Total(WakeAll(threads, cancel), w) == Total(threads, w)
    decreases threads.Keys
  {
    if t :| t in threads {
      TotalPick(threads, t, w);
      TotalPick(WakeAll(threads, cancel), t, w);
      TotalWake(threads - {t}, cancel, w);
      assert WakeAll(threads, cancel) - {t} == WakeAll(threads - {t}, cancel);
    } else {
      assert WakeAll(threads, cancel) == threads;
    }
  }

  /** What one step does to any sum over the threads that leaves pollers out. */
  lemma TotalOfStep(s: State, e: Event, w: Thread -> nat)
    requires Enabled(s, e) && forall th: Thread :: th.Poller? ==> w(th) == 0
    ensures Total(Do(s, e).threads, w) == Total(s.threads, w) + ThreadDelta(s, e, w)
  {
    hide Total;
    if !e.Manage? {
      var wakes := (e.Send? && e.send.WakeReaders?) || (e.Cancel? && e.cancel.WakePollers?);
      var woken := if wakes then WakeAll(s.threads, e.Cancel?) else s.threads;
      if wakes {
        TotalWake(s.threads, e.Cancel?, w);
      }
      TotalUpdate(woken, e.t, Do(s, e).threads[e.t], w);
      assert Do(s, e).threads == woken[e.t := Do(s, e).threads[e.t]];
    }
  }

  ghost function ThreadDelta(s: State, e: Event, w: Thread -> nat): int
    requires Enabled(s, e)
  {
    if e.Manage? then 0
    else w(Do(s, e).threads[e.t]) - if e.t in s.threads then w(s.threads[e.t]) else 0
  }

  // ---------------------------------------------------------------- conservation

  predicate IsSender(th: Thread) {
    th.Sender?
  }

  /** sent = entering + queued + in hand + freed. */
  ghost predicate ConservationInv(s: State) {
    |s.log.sent| == Tally(s.threads, IsSender) + |s.net.queue.ids| + Tally(s.threads, Holds) + |s.log.freed|
  }

  lemma ConservationStep(s: State, e: Event)
    requires ConservationInv(s) && Enabled(s, e)
    ensures ConservationInv(Do(s, e))
  {
    hide ConservationInv, DoSend, DoRead, DoPoll, DoCancel, DoManage;
    match e
    case Send(t, step) => ConservationSend(s, t, step);
    case Read(t, step) => ConservationRead(s, t, step);
    case Poll(_, _) => ConservationElsewhere(s, e);
    case Cancel(_, _) => ConservationElsewhere(s, e);
    case Manage(step) => ConservationManage(s, step);
  }

  lemma ConservationManage(s: State, e: ControlStep)
    requires ConservationInv(s) && CanManage(s, e)
    ensures ConservationInv(DoManage(s, e))
  {
    hide Total;
  }

  lemma ConservationSend(s: State, t: nat, e: SendStep)
    requires ConservationInv(s) && CanSend(s, t, e)
    ensures ConservationInv(DoSend(s, t, e))
  {
    hide Total, WakeAll;
    TotalOfStep(s, Send(t, e), Ones(IsSender));
    TotalOfStep(s, Send(t, e), Ones(Holds));
  }

  lemma ConservationRead(s: State, t: nat, e: ReadStep)
    requires ConservationInv(s) && CanRead(s, t, e)
    ensures ConservationInv(DoRead(s, t, e))
  {
    hide Total;
    TotalOfStep(s, Read(t, e), Ones(IsSender));
    TotalOfStep(s, Read(t, e), Ones(Holds));
  }

  lemma ConservationElsewhere(s: State, e: Event)
    requires ConservationInv(s) && Enabled(s, e) && (e.Poll? || e.Cancel?)
    ensures ConservationInv(Do(s, e))
  {
    hide Total, WakeAll;
    TotalOfStep(s, e, Ones(IsSender));
    TotalOfStep(s, e, Ones(Holds));
  }

  // ---------------------------------------------------------------- statistics

  function CountWhy(f: seq<Free>, why: Fate): nat {
    if f == [] then 0
    else CountWhy(f[..|f| - 1], why) + if f[|f| - 1].why == why then 1 else 0
  }

  /** A reader counted packets with this fate before they were freed. */
  predicate CountsAsSent(why: Fate) {
    why.Delivered? || why.StoreFault?
  }

  /** The bytes readers copied of the packets they counted. */
  function BytesOf(f: seq<Free>): nat {
    if f == [] then 0
    else BytesOf(f[..|f| - 1]) + if CountsAsSent(f[|f| - 1].why) then f[|f| - 1].bytes else 0
  }

  /** A reader whose packet is already in `tx_packets`. */
  predicate IsCounted(th: Thread) {
    Holds(th) && (th.stage.Measuring? || th.stage.Returning? || (th.stage.Freeing? && CountsAsSent(th.stage.why)))
  }

  /** What a reader's packet has added to `tx_bytes`. */
  function Measured(th: Thread): nat {
    if Holds(th) && (th.stage.Returning? || (th.stage.Freeing? && CountsAsSent(th.stage.why))) then th.stage.bytes
    else 0
  }

  /** Packets flushed from the queue but not yet in `tx_dropped`. */
  function Uncounted(c: Control): nat {
    if c.Accounting? then c.flushed else 0
  }

  function Dropped(s: State): int {
    CountWhy(s.log.freed, Refused) + CountWhy(s.log.freed, Flushed) - Uncounted(s.net.control)
  }

  ghost function Transmitted(s: State): nat {
    CountWhy(s.log.freed, Delivered) + CountWhy(s.log.freed, StoreFault) + Tally(s.threads, IsCounted)
  }

  ghost function TransmittedBytes(s: State): nat {
    BytesOf(s.log.freed) + Total(s.threads, Measured)
  }

  ghost predicate StatisticsInv(s: State) {
    && s.net.txDropped == Wrap32(Dropped(s))
    && s.net.txPackets == Wrap32(Transmitted(s))
    && s.net.txBytes == Wrap32(TransmittedBytes(s))
  }

  lemma LastFreed(f: seq<Free>, x: Free)
    ensures forall why :: CountWhy(f + [x], why) == CountWhy(f, why) + if x.why == why then 1 else 0
    ensures BytesOf(f + [x]) == BytesOf(f) + if CountsAsSent(x.why) then x.bytes else 0
  {
    assert (f + [x])[..|f|] == f;
  }

  lemma {:induction false} AllFlushed(f: seq<Free>, ids: seq<nat>)
    ensures forall why :: CountWhy(f + FlushedFrees(ids), why) == CountWhy(f, why) + if why == Flushed then |ids| else 0
    ensures BytesOf(f + FlushedFrees(ids)) == BytesOf(f)
    decreases |ids|
  {
    if ids == [] {
      assert f + FlushedFrees(ids) == f;
    } else {
      var k := |ids| - 1;
      AllFlushed(f, ids[..k]);
      LastFreed(f + FlushedFrees(ids[..k]), Free(ids[k], Flushed, 0));
      assert f + FlushedFrees(ids) == f + FlushedFrees(ids[..k]) + [Free(ids[k], Flushed, 0)];
    }
  }

  /** Every freed packet has exactly one reason. */
  lemma {:induction false} FatesPartition(f: seq<Free>)
    ensures |f| == CountWhy(f, Refused) + CountWhy(f, Flushed) + CountWhy(f, Delivered)
                 + CountWhy(f, CopyFault) + CountWhy(f, StoreFault)
  {
    if f != [] {
      FatesPartition(f[..|f| - 1]);
    }
  }

  lemma StatisticsStep(s: State, e: Event)
    requires StatisticsInv(s) && ReadersInv(s) && Enabled(s, e)
    ensures StatisticsInv(Do(s, e))
  {
    hide StatisticsInv, DoSend, DoRead, DoPoll, DoCancel, DoManage;
    match e
    case Send(t, step) => StatisticsSend(s, t, step);
    case Read(t, step) => StatisticsRead(s, t, step);
    case Poll(_, _) => StatisticsElsewhere(s, e);
    case Cancel(_, _) => StatisticsElsewhere(s, e);
    case Manage(step) => StatisticsManage(s, step);
  }

  lemma StatisticsElsewhere(s: State, e: Event)
    requires StatisticsInv(s) && Enabled(s, e) && (e.Poll? || e.Cancel?)
    ensures StatisticsInv(Do(s, e))
  {
    hide Wrap32, CountWhy, BytesOf, Total, WakeAll;
    TotalOfStep(s, e, Ones(IsCounted));
    TotalOfStep(s, e, Measured);
  }

  lemma StatisticsSend(s: State, t: nat, e: SendStep)
    requires StatisticsInv(s) && CanSend(s, t, e)
    ensures StatisticsInv(DoSend(s, t, e))
  {
    hide Wrap32, CountWhy, BytesOf, Total, WakeAll;
    TotalOfStep(s, Send(t, e), Ones(IsCounted));
    TotalOfStep(s, Send(t, e), Measured);
    if e.Offer? {
      LastFreed(s.log.freed, Free(s.threads[t].id, Refused, 0));
      WrapAbsorbs(Dropped(s), 1);
    }
  }

  lemma StatisticsRead(s: State, t: nat, e: ReadStep)
    requires StatisticsInv(s) && ReadersInv(s) && CanRead(s, t, e)
    ensures StatisticsInv(DoRead(s, t, e))
  {
    hide DoRead, StatisticsInv;
    if e.Release? {
      StatisticsRelease(s, t);
    } else {
      StatisticsOfTurn(s, t, e);
    }
  }

  lemma StatisticsRelease(s: State, t: nat)
    requires StatisticsInv(s) && ReadersInv(s) && CanRead(s, t, Release)
    ensures StatisticsInv(DoRead(s, t, Release))
  {
    hide Wrap32, CountWhy, BytesOf, Total;
    TotalOfStep(s, Read(t, Release), Ones(IsCounted));
    TotalOfStep(s, Read(t, Release), Measured);
    LastFreed(s.log.freed, Free(HeldId(s.threads[t]), s.threads[t].stage.why, s.threads[t].stage.bytes));
  }

  lemma StatisticsOfTurn(s: State, t: nat, e: ReadStep)
    requires StatisticsInv(s) && CanRead(s, t, e) && !e.Release?
    ensures StatisticsInv(DoRead(s, t, e))
  {
    hide Wrap32, CountWhy, BytesOf, Total;
    TotalOfStep(s, Read(t, e), Ones(IsCounted));
    TotalOfStep(s, Read(t, e), Measured);
    if e.Count? {
      WrapAbsorbs(Transmitted(s), 1);
    } else if e.Measure? {
      WrapAbsorbs(TransmittedBytes(s), s.threads[t].stage.bytes);
    }
  }

  lemma StatisticsManage(s: State, e: ControlStep)
    requires StatisticsInv(s) && CanManage(s, e)
    ensures StatisticsInv(DoManage(s, e))
  {
    hide Wrap32, CountWhy, BytesOf, Total;
    if e.CloseFlush? {
      AllFlushed(s.log.freed, s.net.queue.ids);
    } else if e.CloseCount? {
      WrapAbsorbs(Dropped(s), s.net.control.flushed);
    }
  }

  // ---------------------------------------------------------------- lengths

  /** No reader copies more of a packet than there is. */
  ghost predicate SizesInv(s: State) {
    && (forall id :: id in s.log.sizes ==> id in s.log.place)
    && (forall f :: f in s.log.freed ==> f.bytes <= SizeOf(s.log, f.id))
    && (forall t :: t in s.threads && Holds(s.threads[t]) && !s.threads[t].stage.Copying? ==>
          s.threads[t].stage.bytes <= SizeOf(s.log, HeldId(s.threads[t])))
  }

  lemma SizesStep(s: State, e: Event)
    requires SizesInv(s) && Enabled(s, e)
    ensures SizesInv(Do(s, e))
  {
    hide SizesInv, DoSend, DoRead, DoPoll, DoCancel, DoManage;
    match e
    case Send(t, step) => SizesSend(s, t, step);
    case Read(t, step) => SizesRead(s, t, step);
    case Poll(_, _) => SizesElsewhere(s, e);
    case Cancel(_, _) => SizesElsewhere(s, e);
    case Manage(_) => SizesElsewhere(s, e);
  }

  lemma SizesSend(s: State, t: nat, e: SendStep)
    requires SizesInv(s) && CanSend(s, t, e)
    ensures SizesInv(DoSend(s, t, e))
  {
  }

  lemma SizesRead(s: State, t: nat, e: ReadStep)
    requires SizesInv(s) && CanRead(s, t, e)
    ensures SizesInv(DoRead(s, t, e))
  {
  }

  lemma SizesElsewhere(s: State, e: Event)
    requires SizesInv(s) && Enabled(s, e) && !e.Send? && !e.Read?
    ensures SizesInv(Do(s, e))
  {
  }
}
