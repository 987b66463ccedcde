/**
 Loading and unloading the module, and opening and closing its device file:
 `init.c`, `vnet.c` and the set-up halves of `io_dev.c` and `net_dev.c`.
 */
module Lifecycle {
  import opened Errno
  import opened MachineInts
  import opened PacketQueue
  import opened NetDev
  import opened UserMemory
  import opened BatchHeader
  import opened BatchRead
  import opened BatchWrite

  /** `module_start` stores it in the configuration, from where a net device takes its `tx_queue_len`. */
  const MAX_QUEUE_LEN: i32 := 256

  // ---------------------------------------------------------------- kernel resources

  datatype Resource =
    | VnetMemory | DeviceNumbers | CharDevice | DeviceClass | DeviceNode   // held by the module
    | NetDevice | Registration                                             // held by an open file

  datatype KernelCall = Acquire(r: Resource) | Release(r: Resource)

  datatype Holdings = Misuse | Held(stack: seq<Resource>)

  /**
   What is held after `calls`, newest last. It is a misuse to acquire what is
   held already, or to release anything but the newest resource.
   */
  function Replay(calls: seq<KernelCall>): Holdings {
    if calls == [] then Held([])
    else
      var before, call := Replay(calls[..|calls| - 1]), calls[|calls| - 1];
      if before.Misuse? then Misuse
      else
        var s := before.stack;
        match call
        case Acquire(r) => if r in s then Misuse else Held(s + [r])
        case Release(r) => if s == [] || s[|s| - 1] != r then Misuse else Held(s[..|s| - 1])
  }

  lemma ReplayAppend(calls: seq<KernelCall>, call: KernelCall, s: seq<Resource>)
    requires Replay(calls) == Held(s)
    ensures call.Acquire? && call.r !in s ==> Replay(calls + [call]) == Held(s + [call.r])
    ensures call.Release? && s != [] && s[|s| - 1] == call.r ==> Replay(calls + [call]) == Held(s[..|s| - 1])
  {
    assert (calls + [call])[..|calls|] == calls;
  }

  function Times(calls: seq<KernelCall>, call: KernelCall): nat {
    if calls == [] then 0
    else Times(calls[..|calls| - 1], call) + if calls[|calls| - 1] == call then 1 else 0
  }

  predicate NoRepeats(s: seq<Resource>) {
    forall i, j :: 0 <= i < j < |s| ==> s[i] != s[j]
  }

  lemma {:induction false} HeldOnce(calls: seq<KernelCall>)
    requires Replay(calls).Held?
    ensures NoRepeats(Replay(calls).stack)
  {
    if calls != [] {
      HeldOnce(calls[..|calls| - 1]);
    }
  }

  /** Without misuse, every resource acquired was released exactly once, except those still held. */
  lemma {:induction false} ReleasedOnce(calls: seq<KernelCall>, r: Resource)
    requires Replay(calls).Held?
    ensures Times(calls, Acquire(r)) == Times(calls, Release(r)) + if r in Replay(calls).stack then 1 else 0
  {
    if calls != [] {
      var k := |calls| - 1;
      ReleasedOnce(calls[..k], r);
      HeldOnce(calls[..k]);
      LastCall(Replay(calls[..k]).stack, calls[k], r);
    }
  }

  lemma LastCall(s: seq<Resource>, call: KernelCall, r: Resource)
    requires NoRepeats(s)
    ensures r in s + [call.r] <==> r in s || r == call.r
    ensures s != [] && s[|s| - 1] == call.r ==> (r in s[..|s| - 1] <==> r in s && r != call.r)
  {
    assert s != [] ==> s == s[..|s| - 1] + [s[|s| - 1]];
  }

  function Acquires(s: seq<Resource>): (calls: seq<KernelCall>)
    ensures |calls| == |s| && forall i :: 0 <= i < |s| ==> calls[i] == Acquire(s[i])
  {
    seq(|s|, i requires 0 <= i < |s| => Acquire(s[i]))
  }

  /** Releasing `s`, newest first. */
  function Releases(s: seq<Resource>): (calls: seq<KernelCall>)
    ensures |calls| == |s| && forall i :: 0 <= i < |s| ==> calls[i] == Release(s[|s| - 1 - i])
  {
    seq(|s|, i requires 0 <= i < |s| => Release(s[|s| - 1 - i]))
  }

  /** Since `before`, exactly `s` was acquired, in order, and then released in reverse. */
  predicate Undone(calls: seq<KernelCall>, before: seq<KernelCall>, s: seq<Resource>) {
    calls == before + Acquires(s) + Releases(s)
  }

  lemma UndoneMeaning(calls: seq<KernelCall>, before: seq<KernelCall>, s: seq<Resource>)
    requires Undone(calls, before, s)
    ensures |calls| == |before| + 2 * |s| && before <= calls
    ensures forall i :: 0 <= i < |s| ==>
              calls[|before| + i] == Acquire(s[i]) && calls[|calls| - 1 - i] == Release(s[i])
  {
    hide Acquires, Releases;
    forall i | 0 <= i < |s| ensures calls[|before| + i] == Acquire(s[i]) && calls[|calls| - 1 - i] == Release(s[i]) {
      assert calls[|before| + i] == Acquires(s)[i];
      assert calls[|calls| - 1 - i] == Releases(s)[|s| - 1 - i];
    }
  }

  lemma OneMore(s: seq<Resource>, r: Resource)
    ensures Acquires(s + [r]) == Acquires(s) + [Acquire(r)]
    ensures Releases(s + [r]) == [Release(r)] + Releases(s)
    ensures Acquires([r]) == [Acquire(r)] && Releases([r]) == [Release(r)]
  {
  }

  /** `struct vnet` without its packet queue. */
  class Vnet {
    const dev: NetDev
    var numbers: bool        // `major_number` is not -1
    var ioAdded: bool
    var class_: bool         // `class` is not an error pointer
    var device: bool         // `device` is not an error pointer
    var isOpen: bool
    var canceled: bool
    var netDevice: bool      // `net_dev.os_specific.device` is not null
    var netAdded: bool
    var up: bool             // the interface flag the kernel keeps for the net device

    constructor (dev: NetDev)
      ensures this.dev == dev
      ensures !numbers && !ioAdded && !class_ && !device && !isOpen && !canceled && !netDevice && !netAdded && !up
    {
      this.dev := dev;
      numbers, ioAdded, class_, device := false, false, false, false;
      isOpen, canceled, netDevice, netAdded, up := false, false, false, false, false;
    }
  }

  /** The return values of the kernel services `io_dev_add` calls: 0 or an error. */
  datatype AddResults = AddResults(region: int, cdev: int, class_: int, device: int) {
    /** The first error, or 0. */
    function Status(): int {
      if region != 0 then region else if cdev != 0 then cdev else if class_ != 0 then class_ else device
    }

    /** What is set up before the first error. */
    function Reached(): seq<Resource> {
      SetUp(region == 0, region == 0 && cdev == 0, region == 0 && cdev == 0 && class_ == 0, Status() == 0)
    }
  }

  /** Where the set-up stops: the error it returns, and what it has acquired by then, in order. */
  lemma SetUpStops(r: AddResults)
    ensures r.region != 0 ==> r.Status() == r.region && r.Reached() == [VnetMemory]
    ensures r.region == 0 && r.cdev != 0 ==> r.Status() == r.cdev && r.Reached() == [VnetMemory, DeviceNumbers]
    ensures r.region == 0 && r.cdev == 0 && r.class_ != 0 ==>
              r.Status() == r.class_ && r.Reached() == [VnetMemory, DeviceNumbers, CharDevice]
    ensures r.region == 0 && r.cdev == 0 && r.class_ == 0 && r.device != 0 ==>
              r.Status() == r.device && r.Reached() == [VnetMemory, DeviceNumbers, CharDevice, DeviceClass]
    ensures r == AddResults(0, 0, 0, 0) ==>
              r.Status() == 0 && r.Reached() == [VnetMemory, DeviceNumbers, CharDevice, DeviceClass, DeviceNode]
  {
  }

  function When(b: bool, r: Resource): seq<Resource> {
    if b then [r] else []
  }

  /** What a module in the given state of set-up holds. */
  function SetUp(numbers: bool, ioAdded: bool, class_: bool, device: bool): seq<Resource> {
    [VnetMemory] + When(numbers, DeviceNumbers) + When(ioAdded, CharDevice)
    + When(class_, DeviceClass) + When(device, DeviceNode)
  }

  lemma NewestResource(numbers: bool, ioAdded: bool, class_: bool)
    ensures SetUp(false, false, false, false) == [VnetMemory]
    ensures SetUp(true, false, false, false) == [VnetMemory] + [DeviceNumbers]
    ensures SetUp(numbers, true, false, false) == SetUp(numbers, false, false, false) + [CharDevice]
    ensures SetUp(numbers, ioAdded, true, false) == SetUp(numbers, ioAdded, false, false) + [DeviceClass]
    ensures SetUp(numbers, ioAdded, class_, true) == SetUp(numbers, ioAdded, class_, false) + [DeviceNode]
  {
  }

  lemma NotYetHeld(numbers: bool, ioAdded: bool, class_: bool, device: bool)
    ensures CharDevice !in SetUp(numbers, false, class_, device)
    ensures DeviceClass !in SetUp(numbers, ioAdded, false, device)
    ensures DeviceNode !in SetUp(numbers, ioAdded, class_, false)
    ensures NetDevice !in SetUp(numbers, ioAdded, class_, device)
    ensures Registration !in SetUp(numbers, ioAdded, class_, device)
  {
  }

  /** The loaded module and everything it has asked of the kernel. */
  class Module {
    var gsVnet: Vnet?
    ghost var calls: seq<KernelCall>

    /** What the fields say is held, in the order it was acquired. */
    ghost function Owned(): seq<Resource>
      reads this, gsVnet
    {
      if gsVnet == null then []
      else ModuleOwned(gsVnet) + When(gsVnet.netDevice, NetDevice) + When(gsVnet.netAdded, Registration)
    }

    static ghost function ModuleOwned(v: Vnet): seq<Resource>
      reads v
    {
      SetUp(v.numbers, v.ioAdded, v.class_, v.device)
    }

    ghost function Footprint(): set<object>
      reads this, gsVnet, if gsVnet == null then {} else {gsVnet.dev, gsVnet.dev.queue}
    {
      {this} + if gsVnet == null then {}
               else {gsVnet, gsVnet.dev, gsVnet.dev.queue} + set p | p in gsVnet.dev.queue.contents
    }

    /** The kernel's record and the fields agree, and no resource was ever misused. */
    ghost predicate Balanced()
      reads this, gsVnet
    {
      Replay(calls) == Held(Owned())
    }

    /**
     Only an interface that is up can have packets queued, and only a
     registered one can be up.
     */
    ghost predicate Consistent()
      reads Footprint()
    {
      && Balanced()
      && (gsVnet != null ==>
            && gsVnet.dev.Valid()
            && (gsVnet.netAdded ==> gsVnet.netDevice) && (gsVnet.up ==> gsVnet.netAdded)
            && (gsVnet.up <==> gsVnet.dev.connected) && (gsVnet.up <==> gsVnet.dev.queue.enabled)
            && (!gsVnet.up ==> gsVnet.dev.queue.contents == []))
    }

    /** Between calls, the device file is open exactly when one net device is allocated and registered. */
    ghost predicate Valid()
      reads Footprint()
    {
      Consistent() && (gsVnet != null ==> gsVnet.isOpen == gsVnet.netDevice == gsVnet.netAdded)
    }

    constructor ()
      ensures Valid() && gsVnet == null && calls == []
    {
      gsVnet, calls := null, [];
    }

    /** A kernel service hands over `r`. */
    ghost method Got(r: Resource, s: seq<Resource>)
      requires Replay(calls) == Held(s) && r !in s
      modifies this`calls
      ensures calls == old(calls) + [Acquire(r)] && Replay(calls) == Held(s + [r])
    {
      ReplayAppend(calls, Acquire(r), s);
      calls := calls + [Acquire(r)];
    }

    /** A kernel service takes back `r`, the newest resource held. */
    ghost method Gave(r: Resource, s: seq<Resource>)
      requires Replay(calls) == Held(s + [r])
      modifies this`calls
      ensures calls == old(calls) + [Release(r)] && Replay(calls) == Held(s)
      ensures calls + Releases(s) == old(calls) + Releases(s + [r])
    {
      OneMore(s, r);
      ReplayAppend(calls, Release(r), s + [r]);
      assert (s + [r])[..|s|] == s;
      calls := calls + [Release(r)];
    }

    /** `vnet_init`. */
    method VnetInit(memory: bool) returns (ret: int)
      requires Valid()
      modifies this
      ensures Valid() && old(calls) <= calls
      ensures ret == (if old(gsVnet) == null && memory then 0 else -1)
      ensures ret != 0 ==> gsVnet == old(gsVnet) && calls == old(calls)
      ensures ret == 0 ==> calls == old(calls) + [Acquire(VnetMemory)] && !gsVnet.ioAdded
      ensures ret == 0 ==>
                && gsVnet != null && fresh(gsVnet) && fresh(gsVnet.dev) && fresh(gsVnet.dev.queue)
                && ModuleOwned(gsVnet) == Owned() == [VnetMemory] && !gsVnet.isOpen && gsVnet.dev.queue.contents == []
                && gsVnet.dev.txQueueLen == 256
    {
      hide Replay;
      if gsVnet != null || !memory {
        return -1;
      }
      var dev := new NetDev(MAX_QUEUE_LEN);
      gsVnet := new Vnet(dev);
      Got(VnetMemory, []);
      return 0;
    }

    /** `vnet_close`: reports whether `queue_close` found packets. */
    method VnetClose() returns (leftover: bool)
      requires Valid() && Owned() == (if gsVnet == null then [] else [VnetMemory])
      modifies this
      ensures Valid() && gsVnet == null && Owned() == [] && old(calls) <= calls
      ensures !leftover && calls == old(calls + Releases(Owned()))
    {
      hide Replay;
      leftover := false;
      if gsVnet != null {
        leftover := gsVnet.dev.queue.Close();
        Gave(VnetMemory, []);
        gsVnet := null;
      }
    }

    /** `io_dev_add`: on an error it keeps what it has, for `io_dev_remove` to release. */
    method IoDevAdd(results: AddResults, ghost before: seq<KernelCall>) returns (ret: int)
      requires gsVnet != null && Replay(calls) == Held([VnetMemory]) && !gsVnet.ioAdded
      requires calls == before + Acquires([VnetMemory])
      modifies this`calls, gsVnet`numbers, gsVnet`ioAdded, gsVnet`class_, gsVnet`device
      ensures ret == 0 <==> results == AddResults(0, 0, 0, 0)
      ensures ret == results.Status() && ModuleOwned(gsVnet) == results.Reached()
      ensures Replay(calls) == Held(results.Reached()) && calls == before + Acquires(results.Reached())
    {
      hide Replay, SetUp, Acquires;
      var v := gsVnet;
      NewestResource(true, true, true);
      v.numbers, v.class_, v.device := false, false, false;
      if results.region != 0 {
        return results.region;
      }
      Got(DeviceNumbers, [VnetMemory]);
      OneMore([VnetMemory], DeviceNumbers);
      v.numbers := true;
      if results.cdev != 0 {
        return results.cdev;
      }
      NotYetHeld(true, false, false, false);
      Got(CharDevice, SetUp(true, false, false, false));
      OneMore(SetUp(true, false, false, false), CharDevice);
      v.ioAdded := true;
      if results.class_ != 0 {
        return results.class_;
      }
      NotYetHeld(true, true, false, false);
      Got(DeviceClass, SetUp(true, true, false, false));
      OneMore(SetUp(true, true, false, false), DeviceClass);
      v.class_ := true;
      if results.device != 0 {
        return results.device;
      }
      NotYetHeld(true, true, true, false);
      Got(DeviceNode, SetUp(true, true, true, false));
      OneMore(SetUp(true, true, true, false), DeviceNode);
      v.device := true;
      return 0;
    }

    /** `io_dev_remove`: releases whatever part of the set-up was reached. */
    method IoDevRemove()
      requires gsVnet != null && Replay(calls) == Held(ModuleOwned(gsVnet))
      modifies this`calls, gsVnet`numbers, gsVnet`ioAdded, gsVnet`class_, gsVnet`device
      ensures Replay(calls) == Held([VnetMemory]) && old(calls) <= calls
      ensures calls + Releases([VnetMemory]) == old(calls + Releases(ModuleOwned(gsVnet)))
      ensures ModuleOwned(gsVnet) == [VnetMemory]
    {
      hide Replay, SetUp, Releases;
      var v := gsVnet;
      NewestResource(v.numbers, v.ioAdded, v.class_);
      if v.device {
        Gave(DeviceNode, SetUp(v.numbers, v.ioAdded, v.class_, false));
        v.device := false;
      }
      if v.class_ {
        Gave(DeviceClass, SetUp(v.numbers, v.ioAdded, false, false));
        v.class_ := false;
      }
      if v.ioAdded {
        Gave(CharDevice, SetUp(v.numbers, false, false, false));
        v.ioAdded := false;
      }
      if v.numbers {
        Gave(DeviceNumbers, [VnetMemory]);
        v.numbers := false;
      }
    }

    /** `module_stop`: the kernel calls it only while the device file is closed. */
    method ModuleStop() returns (leftover: bool)
      requires Valid() && gsVnet != null && !gsVnet.isOpen
      modifies this, gsVnet
      ensures Valid() && gsVnet == null && Owned() == []
      ensures !leftover && calls == old(calls + Releases(Owned()))
    {
      hide Replay, SetUp, Releases;
      IoDevRemove();
      leftover := VnetClose();
    }

    /**
     `module_start`: everything is set up, or nothing is left. Without memory for
     `struct vnet`, its `module_stop` follows a null `gs_vnet` and the kernel halts.
     */
    method ModuleStart(memory: bool, results: AddResults) returns (ret: int, halted: bool)
      requires Valid() && gsVnet == null
      modifies this
      ensures Valid() && (halted <==> !memory)
      ensures halted ==> gsVnet == null && calls == old(calls)
      ensures !halted ==> (ret == 0 <==> results == AddResults(0, 0, 0, 0))
      ensures !halted && ret == 0 ==>
                && gsVnet != null && fresh(Footprint() - {this}) && !gsVnet.isOpen && gsVnet.dev.txQueueLen == 256
                && Owned() == [VnetMemory, DeviceNumbers, CharDevice, DeviceClass, DeviceNode]
                && calls == old(calls) + Acquires(Owned())
      ensures !halted && ret != 0 ==> gsVnet == null && Owned() == []
      ensures !halted && results.region != 0 ==> ret == results.region && Undone(calls, old(calls), [VnetMemory])
      ensures !halted && results.region == 0 && results.cdev != 0 ==>
                ret == results.cdev && Undone(calls, old(calls), [VnetMemory, DeviceNumbers])
      ensures !halted && results.region == 0 && results.cdev == 0 && results.class_ != 0 ==>
                ret == results.class_ && Undone(calls, old(calls), [VnetMemory, DeviceNumbers, CharDevice])
      ensures !halted && results.region == 0 && results.cdev == 0 && results.class_ == 0 && results.device != 0 ==>
                ret == results.device && Undone(calls, old(calls), [VnetMemory, DeviceNumbers, CharDevice, DeviceClass])
    {
      hide Replay, SetUp, Acquires, Releases, AddResults.Status, AddResults.Reached;
      SetUpStops(results);
      ghost var before := calls;
      ret, halted := -EINVAL, false;
      var status := VnetInit(memory);
      if status == 0 {
        OneMore([], VnetMemory);
        ret := IoDevAdd(results, before);
      }
      if ret != 0 {
        if gsVnet == null {
          halted := true;
        } else {
          var leftover := ModuleStop();
        }
      }
    }

    /** `unregister_netdev`: the kernel stops an interface that is up. */
    method UnregisterNetdev()
      requires Consistent() && gsVnet != null && gsVnet.netAdded
      modifies Footprint()
      ensures gsVnet == old(gsVnet) && calls == old(calls) + [Release(Registration)]
      ensures gsVnet.dev.Valid() && !gsVnet.up && !gsVnet.dev.connected
      ensures gsVnet.dev.queue.State() == QueueView([], false)
      ensures gsVnet.dev.freed == old(gsVnet.dev.freed + gsVnet.dev.queue.contents)
      ensures gsVnet.netDevice && gsVnet.isOpen == old(gsVnet.isOpen)
      ensures ModuleOwned(gsVnet) == old(ModuleOwned(gsVnet))
      ensures Replay(calls) == Held(ModuleOwned(gsVnet) + [NetDevice])
    {
      hide Replay, SetUp;
      if gsVnet.up {
        gsVnet.dev.Close();
        gsVnet.up := false;
      }
      Gave(Registration, ModuleOwned(gsVnet) + [NetDevice]);
    }

    /** `net_dev_remove`: a net device that was never registered is only freed. */
    method NetDevRemove()
      requires Consistent() && gsVnet != null
      modifies Footprint()
      ensures Consistent() && gsVnet == old(gsVnet)
      ensures calls == old(calls) + (if old(gsVnet.netAdded) then [Release(Registration)] else [])
                                  + (if old(gsVnet.netDevice) then [Release(NetDevice)] else [])
      ensures !gsVnet.netDevice && !gsVnet.netAdded && !gsVnet.up
      ensures gsVnet.dev.freed == old(gsVnet.dev.freed + gsVnet.dev.queue.contents)
      ensures gsVnet.isOpen == old(gsVnet.isOpen) && ModuleOwned(gsVnet) == old(ModuleOwned(gsVnet))
      ensures !old(gsVnet.netAdded) ==>
                unchanged(gsVnet.dev, gsVnet.dev.queue) && gsVnet.canceled == old(gsVnet.canceled)
    {
      hide Replay, SetUp;
      if gsVnet.netDevice {
        if gsVnet.netAdded {
          UnregisterNetdev();
        }
        Gave(NetDevice, ModuleOwned(gsVnet));
        gsVnet.netDevice, gsVnet.netAdded := false, false;
      }
    }

    /** `alloc_netdev`. */
    method AllocNetdev(memory: bool)
      requires Valid() && gsVnet != null && !gsVnet.isOpen
      modifies this`calls, gsVnet`netDevice
      ensures Consistent() && gsVnet.netDevice == memory
      ensures calls == old(calls) + if memory then [Acquire(NetDevice)] else []
    {
      hide Replay, SetUp;
      if memory {
        NotYetHeld(gsVnet.numbers, gsVnet.ioAdded, gsVnet.class_, gsVnet.device);
        Got(NetDevice, ModuleOwned(gsVnet));
        gsVnet.netDevice := true;
      }
    }

    /** `net_dev_add`: a net device that cannot be registered is freed again. */
    method NetDevAdd(memory: bool, register: int) returns (ret: int)
      requires Valid() && gsVnet != null && !gsVnet.isOpen
      modifies Footprint()
      ensures Consistent() && gsVnet == old(gsVnet)
      ensures ret == (if memory then register else -12)
      ensures calls == old(calls) + (if memory then [Acquire(NetDevice)] else [])
                                  + (if !memory then [] else if register == 0 then [Acquire(Registration)]
                                     else [Release(NetDevice)])
      ensures (gsVnet.netDevice <==> ret == 0) && (gsVnet.netAdded <==> ret == 0)
      ensures !gsVnet.isOpen && !gsVnet.up && ModuleOwned(gsVnet) == old(ModuleOwned(gsVnet))
      ensures gsVnet.canceled == old(gsVnet.canceled) && unchanged(gsVnet.dev, gsVnet.dev.queue)
    {
      hide Replay, SetUp;
      AllocNetdev(memory);
      if !gsVnet.netDevice {
        NetDevRemove();
        return -ENOMEM;
      }
      if register != 0 {
        NetDevRemove();
        return register;
      }
      NotYetHeld(gsVnet.numbers, gsVnet.ioAdded, gsVnet.class_, gsVnet.device);
      Got(Registration, ModuleOwned(gsVnet) + [NetDevice]);
      gsVnet.netAdded := true;
      return 0;
    }

    /** `io_dev_open`. */
    method IoDevOpen(memory: bool, register: int) returns (ret: int)
      requires Valid() && gsVnet != null
      modifies Footprint()
      ensures Valid() && gsVnet == old(gsVnet) && ModuleOwned(gsVnet) == old(ModuleOwned(gsVnet))
      ensures ret == 0 ==> calls == old(calls) + [Acquire(NetDevice), Acquire(Registration)]
      ensures ret != 0 ==>
                calls == old(calls) || (memory && calls == old(calls) + [Acquire(NetDevice), Release(NetDevice)])
      ensures ret == (if old(gsVnet.isOpen) then -13 else if !memory then -12 else register)
      ensures gsVnet.isOpen == (old(gsVnet.isOpen) || ret == 0)
      ensures gsVnet.canceled == (ret != 0 && old(gsVnet.canceled))
      ensures gsVnet.up == old(gsVnet.up) && unchanged(gsVnet.dev, gsVnet.dev.queue)
    {
      hide Replay, SetUp;
      if gsVnet.isOpen {
        return -EACCES;
      }
      ret := NetDevAdd(memory, register);
      if ret != 0 {
        return;
      }
      gsVnet.isOpen := true;
      gsVnet.canceled := false;
    }

    /** `io_dev_close`: the net device goes, and with it every queued packet. */
    method IoDevClose()
      requires Valid() && gsVnet != null
      modifies Footprint()
      ensures Valid() && gsVnet == old(gsVnet) && !gsVnet.isOpen
      ensures calls == old(calls) + if old(gsVnet.isOpen) then [Release(Registration), Release(NetDevice)] else []
      ensures gsVnet.dev.queue.State() == QueueView([], false)
      ensures gsVnet.dev.freed == old(gsVnet.dev.freed + gsVnet.dev.queue.contents)
      ensures Owned() == old(ModuleOwned(gsVnet))
    {
      hide Replay, SetUp;
      NetDevRemove();
      gsVnet.isOpen := false;
    }

    /** `ifconfig up` of a registered net device. */
    method InterfaceUp()
      requires Valid() && gsVnet != null && gsVnet.netAdded && !gsVnet.up
      modifies gsVnet`up, gsVnet.dev, gsVnet.dev.queue
      ensures Valid() && gsVnet.up && gsVnet.dev.queue.State() == QueueView([], true)
    {
      gsVnet.dev.Open();
      gsVnet.up := true;
    }

    method InterfaceDown()
      requires Valid() && gsVnet != null && gsVnet.up
      modifies gsVnet`up, gsVnet.dev, gsVnet.dev.queue, gsVnet.dev.queue.contents
      ensures Valid() && !gsVnet.up && gsVnet.dev.queue.State() == QueueView([], false)
      ensures gsVnet.dev.freed == old(gsVnet.dev.freed + gsVnet.dev.queue.contents)
    {
      gsVnet.dev.Close();
      gsVnet.up := false;
    }

    /** The network stack hands a new packet to `net_dev_send`; one that is not up drops it. */
    method Transmit(id: nat, data: Payload)
      requires Valid() && gsVnet != null && gsVnet.netAdded
      modifies gsVnet.dev, gsVnet.dev.queue, gsVnet.dev.queue.contents
      ensures Valid() && fresh(Footprint() - old(Footprint()))
      ensures var q, q' := old(gsVnet.dev.queue.contents), gsVnet.dev.queue.contents;
              if gsVnet.up && |q| < gsVnet.dev.txQueueLen then
                |q'| == |q| + 1 && q'[..|q|] == q && q'[|q|].id == id && q'[|q|].data == data
              else
                q' == q && gsVnet.dev.txDropped == Wrap32(old(gsVnet.dev.txDropped) + 1)
    {
      var skb := new Packet(id, data);
      var woken := gsVnet.dev.Send(skb);
    }

    /** A read of the open file. */
    method ReadFile(user: UserSpace, iov: nat, len: nat, k: CallFaults, faults: nat -> FillFault) returns (ret: int)
      requires Valid() && gsVnet != null && gsVnet.isOpen
      modifies gsVnet.dev, gsVnet.dev.queue, gsVnet.dev.queue.contents, user
      ensures Valid() && fresh(Footprint() - old(Footprint()))
      ensures var refusal := Refusal(old(user.mem), iov, len, k);
              if refusal != 0 then ret == refusal && StartOf(gsVnet.dev) == old(StartOf(gsVnet.dev))
              else
                var b := BatchOf(old(user.mem), iov, len, old(gsVnet.dev.queue.contents), faults);
                ret == ReadResult(b, k) && Reached(gsVnet.dev, old(StartOf(gsVnet.dev)), b)
    {
      hide Replay, SetUp, Balanced, HeaderAt, BatchOf, Wrap32, Reached, ReadResult, FillOne, PutWord;
      ghost var mem, at := user.mem, StartOf(gsVnet.dev);
      ret := IoRead(gsVnet.dev, user, iov, len, k, faults);
      if Refusal(mem, iov, len, k) == 0 {
        ReachedMeaning(gsVnet.dev, at, BatchOf(mem, iov, len, at.queue, faults));
      }
      assert Balanced() && gsVnet.dev.Valid() && gsVnet.dev.queue.enabled == at.enabled;
      assert at.queue == [] ==> gsVnet.dev.queue.contents == [];
    }

    /** A write to the open file. */
    method WriteFile(user: UserSpace, iov: nat, len: nat, k: CallFaults, faults: nat -> WriteFault)
      returns (ret: int, halted: bool)
      requires Valid() && gsVnet != null && gsVnet.isOpen
      modifies gsVnet.dev, user
      ensures Valid() && fresh(Footprint() - old(Footprint()))
      ensures var refusal := Refusal(user.mem, iov, len, k);
              if refusal != 0 then ret == refusal && !halted && gsVnet.dev.received == old(gsVnet.dev.received)
              else
                var h := HeaderAt(user.mem, iov, len);
                && (halted <==> LoopOutcome(user.mem, h, faults) == NoRoom)
                && gsVnet.dev.received == old(gsVnet.dev.received) + Delivery(user.mem, h, faults)
    {
      hide Replay, SetUp, Balanced, LoopOutcome, Delivery, HeaderAt, Wrap32, PacketAt;
      ret, halted := IoWrite(gsVnet.dev, user, iov, len, k, faults);
    }

    /** The module may be asked this now: what the kernel guarantees its callbacks. */
    predicate Allowed(request: Request)
      reads this, gsVnet
    {
      if gsVnet == null then request.Load?
      else
        match request
        case Load(_, _) => false
        case Unload => !gsVnet.isOpen
        case OpenFile(_, _) => true
        case CloseFile => gsVnet.isOpen
        case BringUp => gsVnet.netAdded && !gsVnet.up
        case BringDown => gsVnet.up
        case Send(_, _) => gsVnet.netAdded
        case Read(_, _, _, _, _) => gsVnet.isOpen
        case Write(_, _, _, _, _) => gsVnet.isOpen
    }

    /** A call on the open file. */
    method ServeFile(request: Request) returns (halted: bool)
      requires Valid() && gsVnet != null && gsVnet.isOpen && (request.Read? || request.Write?)
      modifies gsVnet.dev, gsVnet.dev.queue, gsVnet.dev.queue.contents
      ensures Valid() && fresh(Footprint() - old(Footprint()))
      ensures halted ==> request.Write?
    {
      hide Replay, SetUp, Refusal, BatchOf, Reached, LoopOutcome, Delivery, HeaderAt;
      halted := false;
      var user := new UserSpace(request.mem);
      if request.Read? {
        var ret := ReadFile(user, request.iov, request.len, request.k, request.fills);
      } else {
        var ret;
        ret, halted := WriteFile(user, request.iov, request.len, request.k, request.writes);
      }
    }

    /** One request, if it is allowed now. */
    method Serve(request: Request) returns (leftover: bool, halted: bool)
      requires Valid()
      modifies Footprint()
      ensures Valid() && fresh(Footprint() - old(Footprint()))
      ensures !leftover
      ensures halted ==> (request.Load? && !request.memory) || request.Write?
      ensures old(gsVnet) == null && request.Load? && request.memory && request.results == AddResults(0, 0, 0, 0) ==>
                gsVnet != null && !gsVnet.isOpen
      ensures old(gsVnet) != null && old(!gsVnet.isOpen) && request.Unload? ==> gsVnet == null
      ensures old(gsVnet) != null && !request.Unload? ==> gsVnet == old(gsVnet)
      ensures old(gsVnet) != null && request.OpenFile? && request.memory && request.register == 0 ==> gsVnet.isOpen
      ensures old(gsVnet) != null && request.CloseFile? ==> !gsVnet.isOpen
      ensures old(gsVnet) != null && old(gsVnet.netAdded) && request.BringUp? ==> gsVnet.up
      ensures old(gsVnet) != null && request.BringDown? ==> !gsVnet.up
      ensures old(gsVnet) != null && request.Send? && old(gsVnet.up) ==>
                var n := old(|gsVnet.dev.queue.contents|);
                n < gsVnet.dev.txQueueLen ==>
                  |gsVnet.dev.queue.contents| == n + 1 && gsVnet.dev.queue.contents[n].id == request.id
    {
      hide Replay, SetUp, Acquires, Releases, Refusal, BatchOf, Reached, LoopOutcome, Delivery, HeaderAt;
      leftover, halted := false, false;
      if Allowed(request) {
        match request
        case Load(memory, results) =>
          var ret;
          ret, halted := ModuleStart(memory, results);
        case Unload => leftover := ModuleStop();
        case OpenFile(memory, register) => var ret := IoDevOpen(memory, register);
        case CloseFile => IoDevClose();
        case BringUp => InterfaceUp();
        case BringDown => InterfaceDown();
        case Send(id, data) => Transmit(id, data);
        case _ => halted := ServeFile(request);
      }
    }
  }

  /** What the kernel may ask of the module, one request at a time. */
  datatype Request =
    | Load(memory: bool, results: AddResults) | Unload
    | OpenFile(memory: bool, register: int) | CloseFile
    | BringUp | BringDown
    | Send(id: nat, data: Payload)
    | Read(mem: Memory, iov: nat, len: nat, k: CallFaults, fills: nat -> FillFault)
    | Write(mem: Memory, iov: nat, len: nat, k: CallFaults, writes: nat -> WriteFault)

  /** What every module between requests has held and given back. */
  lemma BetweenRequests(m: Module)
    requires m.Valid()
    ensures m.gsVnet != null ==> m.gsVnet.isOpen == (NetDevice in m.Owned()) == (Registration in m.Owned())
    ensures m.gsVnet == null ==> forall r :: Times(m.calls, Acquire(r)) == Times(m.calls, Release(r))
  {
    hide Replay, Times, SetUp;
    if m.gsVnet != null {
      NotYetHeld(m.gsVnet.numbers, m.gsVnet.ioAdded, m.gsVnet.class_, m.gsVnet.device);
    } else {
      forall r ensures Times(m.calls, Acquire(r)) == Times(m.calls, Release(r)) {
        ReleasedOnce(m.calls, r);
      }
    }
  }

  /**
   Any run of requests, from loading on and until one halts the kernel: the file
   is open exactly when one net device is allocated and registered, `vnet_close`
   never finds a packet, and an unloaded module has given everything back exactly once.
   */
  method Run(requests: seq<Request>) returns (m: Module, warned: bool)
    ensures fresh(m) && m.Valid() && !warned
    ensures m.gsVnet != null ==> m.gsVnet.isOpen == (NetDevice in m.Owned()) == (Registration in m.Owned())
    ensures m.gsVnet == null ==> forall r :: Times(m.calls, Acquire(r)) == Times(m.calls, Release(r))
  {
    hide Replay, Times, SetUp, Module.Owned;
    m := new Module();
    warned := false;
    for i := 0 to |requests|
      invariant fresh(m.Footprint()) && m.Valid() && !warned
    {
      var leftover, halted := m.Serve(requests[i]);
      warned := warned || leftover;
      if halted {
        break;
      }
    }
    BetweenRequests(m);
  }
}
