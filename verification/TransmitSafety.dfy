/** What every reachable state of the transmit machine satisfies. */
module TransmitSafety {
  import opened PacketQueue
  import opened TransmitMachine

  // ---------------------------------------------------------------- open, close and the queue

  predicate ControlInv(n: Net) {
    && (n.queue.enabled <==> n.control.Opening? || n.control.Up?)
    && (n.connected <==> n.control.Up? || n.control.Draining? || n.control.Accounting? || n.control.Disconnecting?)
    && (n.queue.enabled || n.control.Draining? || n.queue.ids == [])
    && |n.queue.ids| <= n.limit
    && !n.leftover
  }

  lemma ControlKept(s: State, e: Event)
    requires ControlInv(s.net) && Enabled(s, e)
    ensures ControlInv(Do(s, e).net) && Do(s, e).net.limit == s.net.limit
  {
  }

  /** The only things any step does to the queue. */
  lemma QueueStep(s: State, e: Event)
    requires Enabled(s, e)
    ensures var q, q' := s.net.queue, Do(s, e).net.queue;
            match e
            case Send(t, Offer) =>
              var taken := q.enabled && |q.ids| < s.net.limit;
              q' == QueueView(if taken then q.ids + [s.threads[t].id] else q.ids, q.enabled)
            case Read(_, Remove) => q' == QueueView(if q.ids == [] then [] else q.ids[1..], q.enabled)
            case Manage(OpenEnable) => q' == QueueView(q.ids, true)
            case Manage(CloseDisable(_)) => q' == QueueView(q.ids, false)
            case Manage(CloseFlush) => q' == QueueView([], q.enabled)
            case _ => q' == q
  {
  }

  /** A sender whose packet was queued goes on to wake readers; one that was refused is done, and counts the drop. */
  lemma SenderGoesOn(s: State, t: nat)
    requires CanSend(s, t, Offer)
    ensures var s', q := DoSend(s, t, Offer), s.net.queue;
            if q.enabled && |q.ids| < s.net.limit then
              s'.threads == s.threads[t := Waker] && s'.net.txDropped == s.net.txDropped
            else
              s'.threads == s.threads[t := Finished] && s'.net.txDropped == (s.net.txDropped + 1) % 0x1_0000_0000
  {
  }

  // ---------------------------------------------------------------- order of packets

  function RemovedIds(r: seq<Removal>): (ids: seq<nat>)
    ensures |ids| == |r| && forall i :: 0 <= i < |r| ==> ids[i] == r[i].id
  {
    seq(|r|, i requires 0 <= i < |r| => r[i].id)
  }

  /** What reader `t` took, in order. */
  function TakenBy(r: seq<Removal>, t: nat): seq<nat> {
    if r == [] then []
    else
      var last := r[|r| - 1];
      TakenBy(r[..|r| - 1], t) + if last.ByReader? && last.t == t then [last.id] else []
  }

  ghost predicate HistoryInv(s: State) {
    && s.log.inserted == RemovedIds(s.log.removed) + s.net.queue.ids
    && (forall t :: t in s.threads && s.threads[t].Reader? ==> s.threads[t].taken == TakenBy(s.log.removed, t))
    && (forall t :: t !in s.threads ==> TakenBy(s.log.removed, t) == [])
  }

  lemma TakenByAppend(r: seq<Removal>, x: Removal, t: nat)
    ensures TakenBy(r + [x], t) == TakenBy(r, t) + if x.ByReader? && x.t == t then [x.id] else []
  {
    assert (r + [x])[..|r|] == r;
  }

  lemma {:induction false} TakenByFlush(r: seq<Removal>, ids: seq<nat>, t: nat)
    ensures TakenBy(r + FlushedRemovals(ids), t) == TakenBy(r, t)
    decreases |ids|
  {
    if ids == [] {
      assert r + FlushedRemovals(ids) == r;
    } else {
      var k := |ids| - 1;
      TakenByFlush(r, ids[..k], t);
      TakenByAppend(r + FlushedRemovals(ids[..k]), ByFlush(ids[k]), t);
      assert r + FlushedRemovals(ids) == r + FlushedRemovals(ids[..k]) + [ByFlush(ids[k])];
    }
  }

  lemma HistoryStep(s: State, e: Event)
    requires HistoryInv(s) && Enabled(s, e)
    ensures HistoryInv(Do(s, e))
  {
    match e
    case Send(t, step) => HistorySend(s, t, step);
    case Read(t, step) => HistoryRead(s, t, step);
    case Poll(t, step) =>
    case Cancel(t, step) =>
    case Manage(step) => HistoryManage(s, step);
  }

  lemma HistorySend(s: State, t: nat, e: SendStep)
    requires HistoryInv(s) && CanSend(s, t, e)
    ensures HistoryInv(DoSend(s, t, e))
  {
    hide TakenBy;
  }

  lemma HistoryRead(s: State, t: nat, e: ReadStep)
    requires HistoryInv(s) && CanRead(s, t, e)
    ensures HistoryInv(DoRead(s, t, e))
  {
    hide TakenBy;
    if e.Remove? && s.net.queue.ids != [] {
      var r, id := s.log.removed, s.net.queue.ids[0];
      forall u ensures TakenBy(r + [ByReader(id, t)], u) == TakenBy(r, u) + if u == t then [id] else [] {
        TakenByAppend(r, ByReader(id, t), u);
      }
      assert RemovedIds(r + [ByReader(id, t)]) == RemovedIds(r) + [id];
    }
  }

  lemma HistoryManage(s: State, e: ControlStep)
    requires HistoryInv(s) && CanManage(s, e)
    ensures HistoryInv(DoManage(s, e))
  {
    hide TakenBy;
    if e.CloseFlush? {
      var r, ids := s.log.removed, s.net.queue.ids;
      forall u ensures TakenBy(r + FlushedRemovals(ids), u) == TakenBy(r, u) {
        TakenByFlush(r, ids, u);
      }
      assert RemovedIds(r + FlushedRemovals(ids)) == RemovedIds(r) + ids;
    }
  }
}
