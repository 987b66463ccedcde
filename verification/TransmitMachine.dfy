/**
 The driver under concurrency: any number of senders, readers, pollers and
 cancellers, and one control thread that adds, opens, closes and removes the
 net device. Each event is one atomic step of one thread: a region under the
 queue lock, one counter update, one wake-up, or one call or return.
 */
module TransmitMachine {
  import opened MachineInts
  import opened PacketQueue

  datatype ReadStage =
    | Next                  // about to take a packet
    | Copying               // holds a packet, copying it to the user's buffer
    | Counting(bytes: u32)  // copied so many bytes, about to count the packet
    | Measuring(bytes: u32) // about to count the bytes
    | Returning(bytes: u32) // about to store the length for the user
    | Freeing(why: Fate, bytes: u32)   // about to free the packet
    | Returned

  datatype PollStage =
    | Testing       // about to test the cancel flag
    | Registering   // about to enter the wait queue
    | Checking      // about to look at the packet queue
    | Waiting       // saw an empty queue; asleep unless triggered

  datatype Thread =
    | Sender(id: nat)           // in `net_dev_send` before its locked region
    | Waker                     // inserted its packet, about to wake readers
    | Reader(left: nat, taken: seq<nat>, stage: ReadStage)
      // `missed`: a canceller woke the wait queue after this poller tested the
      // flag and before it registered
    | Poller(at: PollStage, registered: bool, triggered: bool, missed: bool)
    | Canceller                 // about to set the cancel flag
    | CancelWaker               // set the flag, about to wake readers
    | Finished

  /** Why a packet was freed. */
  datatype Fate =
    | Refused        // by `net_dev_send`
    | Flushed        // by `net_dev_flush_tx_queue`
    | Delivered      // read without a fault
    | CopyFault      // lost to a fault before it was counted
    | StoreFault     // lost to a fault after it was counted

  /** A packet freed, and how many of its bytes a reader had copied to the user. */
  datatype Free = Free(id: nat, why: Fate, bytes: u32)

  /** A packet leaving the queue: to a reader, or flushed. */
  datatype Removal = ByReader(id: nat, t: nat) | ByFlush(id: nat)

  datatype Place = Entering(t: nat) | Queued | Held(t: nat) | Released

  datatype Control =
    | Absent                               // no net device
    | Down                                 // registered, not up
    | Opening                              // queue enabled, not yet connected
    | Up
    | Draining(remove: bool)               // queue disabled, not yet flushed
    | Accounting(remove: bool, flushed: nat)   // flushed, not yet counted
    | Disconnecting(remove: bool)
    | Destroyed                            // after `vnet_close`

  /** The shared part of `struct vnet`. */
  datatype Net = Net(
    queue: QueueView,
    limit: nat,           // `tx_queue_len`
    control: Control,
    connected: bool,
    canceled: bool,
    leftover: bool,       // `queue_close` found packets
    txDropped: u32,
    txPackets: u32,
    txBytes: u32)

  /** What has happened to packets so far. */
  datatype Log = Log(
    sent: seq<nat>,
    sizes: map<nat, u32>,
    inserted: seq<nat>,
    removed: seq<Removal>,
    freed: seq<Free>,
    place: map<nat, Place>)

  /** How long packet `id` is. */
  function SizeOf(log: Log, id: nat): u32 {
    if id in log.sizes then log.sizes[id] else 0
  }

  datatype State = State(net: Net, threads: map<nat, Thread>, log: Log)

  datatype SendStep = Arrive(id: nat, size: u32) | Offer | WakeReaders
  datatype ReadStep =
    | StartRead(count: nat) | Remove | Copy(copied: bool, room: u32) | Count | Measure | Store(stored: bool) | Release
  datatype PollStep = StartPoll | Test | Register | Check | Again | Leave
  datatype CancelStep = StartCancel | SetFlag | WakePollers
  datatype ControlStep =
    | AddDevice | OpenEnable | OpenConnect
    | CloseDisable(removing: bool) | CloseFlush | CloseCount | CloseDisconnect
    | RemoveDevice | Destroy

  datatype Event =
    | Send(t: nat, send: SendStep)
    | Read(t: nat, read: ReadStep)
    | Poll(t: nat, poll: PollStep)
    | Cancel(t: nat, cancel: CancelStep)
    | Manage(manage: ControlStep)

  predicate Init(s: State) {
    && s.net == Net(QueueView([], false), s.net.limit, Absent, false, false, false, 0, 0, 0)
    && s.threads == map[]
    && s.log == Log([], map[], [], [], [], map[])
  }

  // ---------------------------------------------------------------- senders

  predicate CanSend(s: State, t: nat, e: SendStep) {
    match e
    case Arrive(id, _) => t !in s.threads && id !in s.log.place
    case Offer => t in s.threads && s.threads[t].Sender?
    case WakeReaders => t in s.threads && s.threads[t].Waker?
  }

  /** `wake_up_interruptible`: every registered poller is triggered. */
  function Woken(th: Thread, cancel: bool): Thread {
    if !th.Poller? then th
    else if th.registered then th.(triggered := true)
    else if cancel && th.at == Registering then th.(missed := true)
    else th
  }

  function WakeAll(threads: map<nat, Thread>, cancel: bool): map<nat, Thread> {
    map t | t in threads :: Woken(threads[t], cancel)
  }

  /** `net_dev_send`. */
  function DoSend(s: State, t: nat, e: SendStep): State
    requires CanSend(s, t, e)
  {
    match e
    case Arrive(id, size) =>
      State(s.net, s.threads[t := Sender(id)],
            s.log.(sent := s.log.sent + [id], sizes := s.log.sizes[id := size],
                   place := s.log.place[id := Entering(t)]))
    case Offer =>
      var id := s.threads[t].id;
      if s.net.queue.Accepts(s.net.limit) then
        State(s.net.(queue := s.net.queue.Insert(id)), s.threads[t := Waker],
              s.log.(inserted := s.log.inserted + [id], place := s.log.place[id := Queued]))
      else
        State(s.net.(txDropped := Wrap32(s.net.txDropped + 1)), s.threads[t := Finished],
              s.log.(freed := s.log.freed + [Free(id, Refused, 0)], place := s.log.place[id := Released]))
    case WakeReaders =>
      s.(threads := WakeAll(s.threads, false)[t := Finished])
  }

  // ---------------------------------------------------------------- readers

  /** A call on the open device file is in progress. */
  predicate UsesFile(th: Thread) {
    (th.Reader? && th.stage != Returned) || th.Poller? || th.Canceller? || th.CancelWaker?
  }

  predicate FileIsOpen(c: Control) {
    !c.Absent? && !c.Destroyed?
  }

  /** A reader between taking a packet and freeing it. */
  predicate Holds(th: Thread) {
    th.Reader? && !th.stage.Next? && !th.stage.Returned? && th.taken != [] && th.left > 0
  }

  function HeldId(th: Thread): nat
    requires Holds(th)
  {
    th.taken[|th.taken| - 1]
  }

  predicate CanRead(s: State, t: nat, e: ReadStep) {
    if e.StartRead? then t !in s.threads && FileIsOpen(s.net.control) && e.count > 0
    else
      && t in s.threads && s.threads[t].Reader?
      && var th := s.threads[t];
         match e
         case Remove => th.stage == Next && th.left > 0
         case Copy(_, _) => th.stage == Copying && Holds(th)
         case Count => th.stage.Counting? && Holds(th)
         case Measure => th.stage.Measuring? && Holds(th)
         case Store(_) => th.stage.Returning? && Holds(th)
         case Release => th.stage.Freeing? && Holds(th)
  }

  /** `io_read_to_iovec`. */
  function DoRead(s: State, t: nat, e: ReadStep): State
    requires CanRead(s, t, e)
  {
    if e.StartRead? then s.(threads := s.threads[t := Reader(e.count, [], Next)])
    else
      var th := s.threads[t];
      match e
      case Remove =>
        if s.net.queue.ids == [] then s.(threads := s.threads[t := th.(stage := Returned)])
        else
          var id := s.net.queue.ids[0];
          State(s.net.(queue := s.net.queue.Rest()), s.threads[t := th.(taken := th.taken + [id], stage := Copying)],
                s.log.(removed := s.log.removed + [ByReader(id, t)], place := s.log.place[id := Held(t)]))
      case Copy(copied, room) =>
        var stage := if copied then Counting(Min(SizeOf(s.log, HeldId(th)), room)) else Freeing(CopyFault, 0);
        s.(threads := s.threads[t := th.(stage := stage)])
      case Count =>
        s.(threads := s.threads[t := th.(stage := Measuring(th.stage.bytes))],
           net := s.net.(txPackets := Wrap32(s.net.txPackets + 1)))
      case Measure =>
        s.(threads := s.threads[t := th.(stage := Returning(th.stage.bytes))],
           net := s.net.(txBytes := Wrap32(s.net.txBytes + th.stage.bytes)))
      case Store(stored) =>
        var stage := Freeing(if stored then Delivered else StoreFault, th.stage.bytes);
        s.(threads := s.threads[t := th.(stage := stage)])
      case Release =>
        var stage := if th.stage.why == Delivered && th.left > 1 then Next else Returned;
        s.(threads := s.threads[t := th.(left := th.left - 1, stage := stage)],
           log := s.log.(freed := s.log.freed + [Free(HeldId(th), th.stage.why, th.stage.bytes)],
                         place := s.log.place[HeldId(th) := Released]))
  }

  // ---------------------------------------------------------------- pollers and cancellers

  predicate CanPoll(s: State, t: nat, e: PollStep) {
    if e.StartPoll? then t !in s.threads && FileIsOpen(s.net.control)
    else
      && t in s.threads && s.threads[t].Poller?
      && var th := s.threads[t];
         match e
         case Test => th.at == Testing
         case Register => th.at == Registering
         case Check => th.at == Checking
         case Again => th.at == Waiting && th.triggered
         case Leave => th.at == Waiting
  }

  /** `io_dev_poll`, and the kernel's loop around it. */
  function DoPoll(s: State, t: nat, e: PollStep): State
    requires CanPoll(s, t, e)
  {
    var th' :=
      if e.StartPoll? then Poller(Testing, false, false, false)
      else
        var th := s.threads[t];
        match e
        case Test => if s.net.canceled then Finished else th.(at := Registering)
        case Register => th.(at := Checking, registered := true)
        case Check => if s.net.queue.ids != [] then Finished else th.(at := Waiting)
        case Again => th.(at := Testing, triggered := false, missed := false)
        case Leave => Finished;
    s.(threads := s.threads[t := th'])
  }

  predicate CanCancel(s: State, t: nat, e: CancelStep) {
    match e
    case StartCancel => t !in s.threads && FileIsOpen(s.net.control)
    case SetFlag => t in s.threads && s.threads[t].Canceller?
    case WakePollers => t in s.threads && s.threads[t].CancelWaker?
  }

  /** `KVNET_IOCTL_CANCEL_PENDING_READ`. */
  function DoCancel(s: State, t: nat, e: CancelStep): State
    requires CanCancel(s, t, e)
  {
    match e
    case StartCancel => s.(threads := s.threads[t := Canceller])
    case SetFlag => s.(threads := s.threads[t := CancelWaker], net := s.net.(canceled := true))
    case WakePollers => s.(threads := WakeAll(s.threads, true)[t := Finished])
  }

  // ---------------------------------------------------------------- the control thread

  predicate CanManage(s: State, e: ControlStep) {
    match e
    // The kernel opens the file again only after its last user has let go of it.
    case AddDevice => s.net.control == Absent && forall t :: t in s.threads ==> !UsesFile(s.threads[t])
    case OpenEnable => s.net.control == Down
    case OpenConnect => s.net.control == Opening
    case CloseDisable(_) => s.net.control == Up
    case CloseFlush => s.net.control.Draining?
    case CloseCount => s.net.control.Accounting?
    case CloseDisconnect => s.net.control.Disconnecting?
    case RemoveDevice => s.net.control == Down
    case Destroy => s.net.control == Absent
  }

  function FlushedRemovals(ids: seq<nat>): (r: seq<Removal>)
    ensures |r| == |ids| && forall i :: 0 <= i < |ids| ==> r[i] == ByFlush(ids[i])
  {
    seq(|ids|, i requires 0 <= i < |ids| => ByFlush(ids[i]))
  }

  function FlushedFrees(ids: seq<nat>): (r: seq<Free>)
    ensures |r| == |ids| && forall i :: 0 <= i < |ids| ==> r[i] == Free(ids[i], Flushed, 0)
  {
    seq(|ids|, i requires 0 <= i < |ids| => Free(ids[i], Flushed, 0))
  }

  /** The whole loop of `net_dev_flush_tx_queue` runs under the queue lock. */
  function FlushLog(log: Log, ids: seq<nat>): Log {
    log.(removed := log.removed + FlushedRemovals(ids),
         freed := log.freed + FlushedFrees(ids),
         place := map id | id in log.place :: if id in ids then Released else log.place[id])
  }

  /** `io_dev_open` and `io_dev_close`, `net_dev_open` and `net_dev_close`, `vnet_close`. */
  function DoManage(s: State, e: ControlStep): State
    requires CanManage(s, e)
  {
    var n := s.net;
    match e
    case AddDevice => s.(net := n.(control := Down, canceled := false))
    case OpenEnable => s.(net := n.(control := Opening, queue := n.queue.Enable(true)))
    case OpenConnect => s.(net := n.(control := Up, connected := true))
    case CloseDisable(removing) => s.(net := n.(control := Draining(removing), queue := n.queue.Enable(false)))
    case CloseFlush =>
      s.(net := n.(control := Accounting(n.control.remove, |n.queue.ids|), queue := n.queue.Flushed()),
         log := FlushLog(s.log, n.queue.ids))
    case CloseCount =>
      s.(net := n.(control := Disconnecting(n.control.remove), txDropped := Wrap32(n.txDropped + n.control.flushed)))
    case CloseDisconnect =>
      s.(net := n.(control := if n.control.remove then Absent else Down, connected := false))
    case RemoveDevice => s.(net := n.(control := Absent))
    case Destroy => s.(net := n.(control := Destroyed, leftover := n.queue.ids != []))
  }

  // ---------------------------------------------------------------- runs

  predicate Enabled(s: State, e: Event) {
    match e
    case Send(t, step) => CanSend(s, t, step)
    case Read(t, step) => CanRead(s, t, step)
    case Poll(t, step) => CanPoll(s, t, step)
    case Cancel(t, step) => CanCancel(s, t, step)
    case Manage(step) => CanManage(s, step)
  }

  function Do(s: State, e: Event): State
    requires Enabled(s, e)
  {
    match e
    case Send(t, step) => DoSend(s, t, step)
    case Read(t, step) => DoRead(s, t, step)
    case Poll(t, step) => DoPoll(s, t, step)
    case Cancel(t, step) => DoCancel(s, t, step)
    case Manage(step) => DoManage(s, step)
  }

  predicate IsRun(s: State, es: seq<Event>)
    decreases |es|
  {
    es == [] || (Enabled(s, es[0]) && IsRun(Do(s, es[0]), es[1..]))
  }

  function After(s: State, es: seq<Event>): State
    requires IsRun(s, es)
    decreases |es|
  {
    if es == [] then s else After(Do(s, es[0]), es[1..])
  }
}
