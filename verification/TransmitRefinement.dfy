/**
 The linked queue, the `net_dev.c` methods and the reading of user memory carry
 out the machine's steps: in a reachable state each step of a thread may be
 taken by the code, and does what the machine says.
 */
module TransmitRefinement {
  import opened MachineInts
  import opened PacketQueue
  import opened NetDev
  import opened UserMemory
  import opened BatchRead
  import opened TransmitMachine
  import opened TransmitOwnership
  import opened TransmitTheorems

  /** The device's fields hold the shared part of `s`. */
  ghost predicate Represents(dev: NetDev, s: State)
    reads dev, dev.queue, dev.queue.contents
  {
    && dev.Valid()
    && dev.queue.State() == s.net.queue
    && dev.txQueueLen == s.net.limit
    && dev.connected == s.net.connected
    && dev.txDropped == s.net.txDropped && dev.txPackets == s.net.txPackets && dev.txBytes == s.net.txBytes
    && Ids(dev.freed) == FreedIds(s.log.freed)
    && forall p :: p in dev.queue.contents ==> HasItsSize(p, s)
  }

  /** `skb` is as long as the packet it stands for. */
  predicate HasItsSize(skb: Packet, s: State) {
    |skb.data| == SizeOf(s.log, skb.id)
  }

  lemma IdsMember(ps: seq<Packet>, p: Packet)
    requires p in ps
    ensures p.id in Ids(ps)
  {
    var i :| 0 <= i < |ps| && ps[i] == p;
    assert Ids(ps)[i] == p.id;
  }

  /** A packet a sender or reader has is neither queued nor freed. */
  lemma OwnedIsElsewhere(dev: NetDev, skb: Packet, s: State, p: Place)
    requires Reachable(s) && Represents(dev, s)
    requires Located(s, skb.id, p) && (p.Entering? || p.Held?)
    ensures skb !in dev.queue.contents && skb !in dev.freed
  {
    OnePlaceEach(s, skb.id, p, Queued);
    OnePlaceEach(s, skb.id, p, Released);
    if skb in dev.queue.contents {
      IdsMember(dev.queue.contents, skb);
    }
    if skb in dev.freed {
      IdsMember(dev.freed, skb);
    }
  }

  /** The steps that change no field of the device. */
  predicate LeavesDevice(e: Event) {
    match e
    case Send(_, step) => !step.Offer?
    case Read(_, step) => step.StartRead? || step.Copy? || step.Store?
    case Poll(_, _) => true
    case Cancel(_, _) => true
    case Manage(step) => step.AddDevice? || step.RemoveDevice? || step.Destroy?
  }

  lemma QuietStep(dev: NetDev, s: State, e: Event)
    requires Reachable(s) && Represents(dev, s) && Enabled(s, e) && LeavesDevice(e)
    ensures Represents(dev, Do(s, e))
  {
    hide Reachable, Inv;
    if e.Send? && e.send.Arrive? {
      forall p | p in dev.queue.contents ensures p.id != e.send.id {
        IdsMember(dev.queue.contents, p);
        OnlySentIsSomewhere(s, p.id);
      }
    }
  }

  lemma OnlySentIsSomewhere(s: State, id: nat)
    requires Reachable(s) && id in s.net.queue.ids
    ensures id in s.log.place
  {
    ReachableInv(s);
    assert Located(s, id, Queued) <==> Recorded(s.log, id, Queued);
  }

  // ---------------------------------------------------------------- senders

  /** The locked region of `net_dev_send`: it never inserts a packet that is already linked. */
  method OfferStep(dev: NetDev, skb: Packet, ghost s: State, ghost t: nat)
    requires Reachable(s) && Represents(dev, s)
    requires t in s.threads && s.threads[t] == Sender(skb.id) && HasItsSize(skb, s)
    modifies dev, dev.queue, dev.queue.contents, skb
    ensures Represents(dev, DoSend(s, t, Offer))
  {
    OwnedIsElsewhere(dev, skb, s, Entering(t));
    ghost var was := dev.freed;
    var woken := dev.Send(skb);
    if !woken {
      FreedAppend(s.log.freed, Free(skb.id, Refused, 0));
      assert Ids(dev.freed) == Ids(was) + [skb.id];
    }
  }

  // ---------------------------------------------------------------- readers

  /** Reader `t` holds the packet `skb` stands for. */
  predicate HasInHand(s: State, t: nat, skb: Packet) {
    t in s.threads && Holds(s.threads[t]) && HeldId(s.threads[t]) == skb.id && HasItsSize(skb, s)
  }

  /** The `queue_remove` of a reader: it gets the packet the machine gives it. */
  method RemoveStep(dev: NetDev, ghost s: State, ghost t: nat) returns (skb: Packet?)
    requires Reachable(s) && Represents(dev, s) && CanRead(s, t, Remove)
    modifies dev, dev.queue, dev.queue.contents
    ensures var s' := DoRead(s, t, Remove);
            && Represents(dev, s')
            && (skb == null <==> s'.threads[t].stage == Returned)
            && (skb != null ==> HasInHand(s', t, skb))
  {
    ghost var q := dev.queue.contents;
    skb := dev.Take();
    OneFewer(q, s);
  }

  lemma OneFewer(q: seq<Packet>, s: State)
    requires forall p :: p in q ==> HasItsSize(p, s)
    ensures q != [] ==> HasItsSize(q[0], s)
    ensures q != [] ==> forall p :: p in q[1..] ==> HasItsSize(p, s)
  {
  }

  /** The capacity of the user packet at `p`, where it can be read. */
  function RoomAt(mem: Memory, p: nat): u32 {
    if Accessible(mem, p, 4) then WordAt(mem, p) else 0
  }

  /** A reader's `get_user` and `copy_to_user`. */
  method CopyStep(dev: NetDev, user: UserSpace, p: nat, skb: Packet, f: FillFault, ghost s: State, ghost t: nat)
    returns (failed: bool, len: u32)
    requires Reachable(s) && Represents(dev, s) && CanRead(s, t, Copy(false, 0)) && HasInHand(s, t, skb)
    modifies user
    ensures var copies := Copy(!failed, RoomAt(old(user.mem), p));
            && CanRead(s, t, copies) && Represents(dev, DoRead(s, t, copies))
            && DoRead(s, t, copies).threads[t].stage == (if failed then Freeing(CopyFault, 0) else Counting(len))
  {
    failed, len := CopyToUser(user, p, skb, f);
    QuietStep(dev, s, Event.Read(t, Copy(!failed, RoomAt(old(user.mem), p))));
  }

  /** A reader's update of `tx_packets`. */
  method CountStep(dev: NetDev, ghost s: State, ghost t: nat)
    requires Represents(dev, s) && CanRead(s, t, Count)
    modifies dev`txPackets
    ensures Represents(dev, DoRead(s, t, Count))
  {
    dev.CountPacket();
  }

  /** A reader's update of `tx_bytes`. */
  method MeasureStep(dev: NetDev, len: u32, ghost s: State, ghost t: nat)
    requires Represents(dev, s) && CanRead(s, t, Measure) && s.threads[t].stage.bytes == len
    modifies dev`txBytes
    ensures Represents(dev, DoRead(s, t, Measure))
  {
    dev.CountBytes(len);
  }

  /** A reader's `put_user`. */
  method StoreStep(dev: NetDev, user: UserSpace, p: nat, len: u32, f: FillFault, ghost s: State, ghost t: nat)
    returns (failed: bool)
    requires Reachable(s) && Represents(dev, s) && CanRead(s, t, Store(false)) && s.threads[t].stage.bytes == len
    modifies user
    ensures CanRead(s, t, Store(!failed)) && Represents(dev, DoRead(s, t, Store(!failed)))
    ensures !failed ==> Accessible(old(user.mem), p, 4) && user.mem == PutWord(old(user.mem), p, len)
  {
    failed := StoreLength(user, p, len, f);
    QuietStep(dev, s, Event.Read(t, Store(!failed)));
  }

  /** The reader's `kfree_skb`: the packet is not queued and was not freed before. */
  method ReleaseStep(dev: NetDev, skb: Packet, ghost s: State, ghost t: nat)
    requires Reachable(s) && Represents(dev, s) && CanRead(s, t, Release) && HasInHand(s, t, skb)
    modifies dev
    ensures Represents(dev, DoRead(s, t, Release))
  {
    OwnedIsElsewhere(dev, skb, s, Held(t));
    ghost var was := dev.freed;
    dev.Free(skb);
    FreedAppend(s.log.freed, Free(skb.id, s.threads[t].stage.why, s.threads[t].stage.bytes));
    assert Ids(dev.freed) == Ids(was) + [skb.id];
  }

  // ---------------------------------------------------------------- the control thread

  /** `queue_enable` in `net_dev_open`. */
  method EnableStep(dev: NetDev, ghost s: State)
    requires Represents(dev, s) && CanManage(s, OpenEnable)
    modifies dev.queue
    ensures Represents(dev, DoManage(s, OpenEnable))
  {
    dev.queue.Enable(true);
  }

  method ConnectStep(dev: NetDev, ghost s: State)
    requires Represents(dev, s) && CanManage(s, OpenConnect)
    modifies dev`connected
    ensures Represents(dev, DoManage(s, OpenConnect))
  {
    dev.connected := true;
  }

  /** `queue_enable` in `net_dev_close`. */
  method DisableStep(dev: NetDev, ghost s: State, ghost removing: bool)
    requires Represents(dev, s) && CanManage(s, CloseDisable(removing))
    modifies dev.queue
    ensures Represents(dev, DoManage(s, CloseDisable(removing)))
  {
    dev.queue.Enable(false);
  }

  /** The locked region of `net_dev_flush_tx_queue`, whatever senders and readers did since the disable step. */
  method FlushStep(dev: NetDev, ghost s: State) returns (flushed: nat)
    requires Represents(dev, s) && CanManage(s, CloseFlush)
    modifies dev, dev.queue, dev.queue.contents
    ensures var s' := DoManage(s, CloseFlush);
            Represents(dev, s') && s'.net.control.flushed == flushed
  {
    ghost var was := dev.freed;
    flushed := dev.Drain();
    FreedFlush(s.log.freed, s.net.queue.ids);
    assert Ids(dev.freed) == Ids(was) + s.net.queue.ids;
  }

  method AccountStep(dev: NetDev, flushed: nat, ghost s: State)
    requires Represents(dev, s) && CanManage(s, CloseCount) && s.net.control.flushed == flushed
    modifies dev`txDropped
    ensures Represents(dev, DoManage(s, CloseCount))
  {
    dev.CountDropped(flushed);
  }

  method DisconnectStep(dev: NetDev, ghost s: State)
    requires Represents(dev, s) && CanManage(s, CloseDisconnect)
    modifies dev`connected
    ensures Represents(dev, DoManage(s, CloseDisconnect))
  {
    dev.connected := false;
  }

  /** `queue_close` in `vnet_close`: it finds no packet in any reachable state. */
  method DestroyStep(dev: NetDev, ghost s: State) returns (leftover: bool)
    requires Reachable(s) && Represents(dev, s) && CanManage(s, Destroy)
    ensures Represents(dev, DoManage(s, Destroy)) && leftover == DoManage(s, Destroy).net.leftover
    ensures !leftover
  {
    leftover := dev.queue.Close();
    EmptyAtDestruction(s);
  }

  // ---------------------------------------------------------------- several steps in a row

  lemma RunOfTwo(s: State, e1: Event, e2: Event)
    requires Enabled(s, e1) && Enabled(Do(s, e1), e2)
    ensures IsRun(s, [e1, e2]) && After(s, [e1, e2]) == Do(Do(s, e1), e2)
  {
    hide Do, Enabled;
    assert IsRun(s, []) && After(s, []) == s;
    RunAppend(s, [], e1);
    RunAppend(s, [e1], e2);
    assert [] + [e1] == [e1] && [e1] + [e2] == [e1, e2];
  }

  /** The machine's steps for one packet read, given what filling the user's buffer of capacity `room` did. */
  ghost function TurnSteps(t: nat, fill: Fill, room: u32): seq<Event> {
    var copied := [Event.Read(t, Remove)] + [Event.Read(t, Copy(fill.counted, room))];
    var counted :=
      if !fill.counted then copied
      else copied + [Event.Read(t, Count)] + [Event.Read(t, Measure)] + [Event.Read(t, Store(fill.ok))];
    counted + [Event.Read(t, Release)]
  }

  /** Why a reader frees its packet. */
  function FateOf(fill: Fill): Fate {
    if fill.ok then Delivered else if fill.counted then StoreFault else CopyFault
  }

  /** Running `TurnSteps`: the oldest packet goes through the reader's hands, counted or not, and is freed. */
  lemma TurnRun(s: State, t: nat, fill: Fill, room: u32)
    requires CanRead(s, t, Remove) && s.net.queue.ids != [] && (fill.ok ==> fill.counted)
    requires fill.bytes == if fill.counted then Min(SizeOf(s.log, s.net.queue.ids[0]), room) else 0
    ensures IsRun(s, TurnSteps(t, fill, room))
    ensures var s', id := After(s, TurnSteps(t, fill, room)), s.net.queue.ids[0];
            && s'.net == (if fill.counted then Counted(s.net, fill.bytes) else s.net).(queue := s.net.queue.Rest())
            && s'.log.freed == s.log.freed + [Free(id, FateOf(fill), fill.bytes)] && s'.log.sizes == s.log.sizes
            && t in s'.threads && s'.threads[t].Reader? && s'.threads[t].taken == s.threads[t].taken + [id]
            && s'.threads[t].left == s.threads[t].left - 1
            && (s'.threads[t].stage == Next <==> fill.ok && s.threads[t].left > 1)
  {
    hide Do, Enabled, IsRun, After;
    var takes, copies := Event.Read(t, Remove), Event.Read(t, Copy(fill.counted, room));
    var s' := TakeAndCopy(s, t, fill.counted, room);
    RunOfTwo(s, takes, copies);
    var es := [takes] + [copies];
    assert [takes, copies] == es;
    if fill.counted {
      var s2 := s';
      s' := CountAndStore(s2, t, fill.ok);
      RunAppend(s, es, Event.Read(t, Count));
      RunAppend(s, es + [Event.Read(t, Count)], Event.Read(t, Measure));
      RunAppend(s, es + [Event.Read(t, Count)] + [Event.Read(t, Measure)], Event.Read(t, Store(fill.ok)));
      es := es + [Event.Read(t, Count)] + [Event.Read(t, Measure)] + [Event.Read(t, Store(fill.ok))];
    }
    Releases(s', t);
    RunAppend(s, es, Event.Read(t, Release));
  }

  /** Both counters after one more packet of `bytes` bytes. */
  function Counted(n: Net, bytes: u32): Net {
    n.(txPackets := Wrap32(n.txPackets + 1), txBytes := Wrap32(n.txBytes + bytes))
  }

  lemma TakeAndCopy(s: State, t: nat, copied: bool, room: u32) returns (s': State)
    requires CanRead(s, t, Remove) && s.net.queue.ids != []
    ensures var takes, copies := Event.Read(t, Remove), Event.Read(t, Copy(copied, room));
            Enabled(s, takes) && Enabled(Do(s, takes), copies) && s' == Do(Do(s, takes), copies)
    ensures var id, th := s.net.queue.ids[0], s.threads[t];
            && s'.net == s.net.(queue := s.net.queue.Rest())
            && s'.threads == s.threads[t := Reader(th.left, th.taken + [id],
                 if copied then Counting(Min(SizeOf(s.log, id), room)) else Freeing(CopyFault, 0))]
            && s'.log.freed == s.log.freed && s'.log.sizes == s.log.sizes
  {
    s' := Do(Do(s, Event.Read(t, Remove)), Event.Read(t, Copy(copied, room)));
  }

  lemma CountAndStore(s: State, t: nat, stored: bool) returns (s': State)
    requires CanRead(s, t, Count)
    ensures var s1 := Do(s, Event.Read(t, Count));
            && Enabled(s, Event.Read(t, Count)) && Enabled(s1, Event.Read(t, Measure))
            && Enabled(Do(s1, Event.Read(t, Measure)), Event.Read(t, Store(stored)))
            && s' == Do(Do(s1, Event.Read(t, Measure)), Event.Read(t, Store(stored)))
    ensures var bytes := s.threads[t].stage.bytes;
            && s'.net == Counted(s.net, bytes) && s'.log == s.log
            && s'.threads == s.threads[t := s.threads[t].(
                 stage := Freeing(if stored then Delivered else StoreFault, bytes))]
  {
    s' := Do(Do(Do(s, Event.Read(t, Count)), Event.Read(t, Measure)), Event.Read(t, Store(stored)));
  }

  lemma Releases(s: State, t: nat)
    requires CanRead(s, t, Release)
    ensures Enabled(s, Event.Read(t, Release))
    ensures var s', th := Do(s, Event.Read(t, Release)), s.threads[t];
            && s'.net == s.net && s'.log.sizes == s.log.sizes
            && s'.log.freed == s.log.freed + [Free(HeldId(th), th.stage.why, th.stage.bytes)]
            && s'.threads == s.threads[t := th.(
                 left := th.left - 1, stage := if th.stage.why == Delivered && th.left > 1 then Next else Returned)]
  {
  }

  lemma FillCounts(mem: Memory, p: nat, src: Payload, f: FillFault)
    ensures var r := FillOne(mem, p, src, f);
            (r.ok ==> r.counted) && r.bytes == if r.counted then Min(|src|, RoomAt(mem, p)) else 0
  {
    hide WordAt, Put, PutWord;
  }

  /** One turn of a reader's loop, when nothing comes between, is a run of the machine. */
  method TurnOfReader(dev: NetDev, user: UserSpace, p: nat, f: FillFault, ghost s: State, ghost t: nat)
    returns (empty: bool, failed: bool)
    requires Represents(dev, s) && CanRead(s, t, Remove)
    modifies dev`txPackets, dev`txBytes, dev`freed, dev.queue, dev.queue.contents, user
    ensures empty <==> s.net.queue.ids == []
    ensures empty ==> Represents(dev, DoRead(s, t, Remove)) && DoRead(s, t, Remove).threads[t].stage == Returned
    ensures !empty ==>
              var fill, room := FillOne(old(user.mem), p, old(dev.queue.contents)[0].data, f), RoomAt(old(user.mem), p);
              && failed == !fill.ok && user.mem == fill.mem
              && IsRun(s, TurnSteps(t, fill, room)) && Represents(dev, After(s, TurnSteps(t, fill, room)))
  {
    hide FillOne, IsRun, After, TurnSteps, RoomAt;
    ghost var q, was, room := dev.queue.contents, dev.freed, RoomAt(user.mem, p);
    empty, failed := ReadOne(dev, user, p, f);
    if !empty {
      ghost var fill := FillOne(old(user.mem), p, q[0].data, f);
      FillCounts(old(user.mem), p, q[0].data, f);
      OneFewer(q, s);
      TurnRun(s, t, fill, room);
      FreedAppend(s.log.freed, Free(q[0].id, FateOf(fill), fill.bytes));
      assert Ids(was + [q[0]]) == Ids(was) + [q[0].id];
    }
  }

  /** `net_dev_open` is its two steps. */
  method OpenSteps(dev: NetDev, ghost s: State)
    requires Represents(dev, s) && s.net.control == Down
    modifies dev, dev.queue
    ensures IsRun(s, [Manage(OpenEnable), Manage(OpenConnect)])
    ensures Represents(dev, After(s, [Manage(OpenEnable), Manage(OpenConnect)]))
  {
    dev.Open();
    ghost var s1 := DoManage(s, OpenEnable);
    ghost var s2 := DoManage(s1, OpenConnect);
    RunOfTwo(s, Manage(OpenEnable), Manage(OpenConnect));
    assert After(s, [Manage(OpenEnable), Manage(OpenConnect)]) == s2;
  }

  /** `net_dev_close` is its four steps. */
  method CloseSteps(dev: NetDev, ghost s: State, ghost removing: bool)
    requires Represents(dev, s) && s.net.control == Up
    modifies dev, dev.queue, dev.queue.contents
    ensures var disabled := DoManage(s, CloseDisable(removing));
            var s' := DoManage(DoManage(DoManage(disabled, CloseFlush), CloseCount), CloseDisconnect);
            Represents(dev, s') && s'.net.control == if removing then Absent else Down
  {
    ghost var was := dev.freed;
    ghost var ids := s.net.queue.ids;
    dev.Close();
    FreedFlush(s.log.freed, ids);
    assert Ids(dev.freed) == Ids(was) + ids;
  }

  // ---------------------------------------------------------------- pollers

  datatype PollFlag = POLLIN | POLLRDNORM | POLLOUT | POLLWRNORM | POLLPRI | POLLERR

  ghost function PollRun(t: nat, canceled: bool): seq<Event> {
    if canceled then [Poll(t, Test)] else [Poll(t, Test)] + [Poll(t, Register)] + [Poll(t, Check)]
  }

  /** `io_dev_poll` is one step or three; a poller for input goes on to wait exactly when only writing is possible. */
  method PollSteps(dev: NetDev, canceled: bool, ghost s: State, ghost t: nat) returns (mask: set<PollFlag>)
    requires Represents(dev, s) && canceled == s.net.canceled && CanPoll(s, t, Test)
    ensures IsRun(s, PollRun(t, canceled))
    ensures var s' := After(s, PollRun(t, canceled));
            && Represents(dev, s') && s'.net == s.net && t in s'.threads
            && (s'.threads[t].Poller? <==> mask == {POLLOUT, POLLWRNORM})
            && (s'.threads[t].Poller? ==> s'.threads[t].at == Waiting && s'.threads[t].registered)
    ensures canceled ==> mask == {POLLPRI, POLLERR}
    ensures !canceled && s.net.queue.ids == [] ==> mask == {POLLOUT, POLLWRNORM}
    ensures !canceled && s.net.queue.ids != [] ==> mask == {POLLOUT, POLLWRNORM, POLLIN, POLLRDNORM}
    ensures POLLOUT in mask <==> !canceled
  {
    mask := {POLLPRI, POLLERR};
    assert IsRun(s, []) && After(s, []) == s;
    RunAppend(s, [], Poll(t, Test));
    assert [] + [Poll(t, Test)] == [Poll(t, Test)];
    if canceled {
      return;
    }
    mask := {POLLOUT, POLLWRNORM};
    RunAppend(s, [Poll(t, Test)], Poll(t, Register));
    var empty := dev.queue.IsEmpty();
    if !empty {
      mask := mask + {POLLIN, POLLRDNORM};
    }
    RunAppend(s, [Poll(t, Test)] + [Poll(t, Register)], Poll(t, Check));
  }
}
