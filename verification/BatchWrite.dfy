/** Writing a batch of packets: `io_write.c` against user memory that may fault. */
module BatchWrite {
  import opened Errno
  import opened MachineInts
  import opened PacketQueue
  import opened NetDev
  import opened UserMemory
  import opened BatchHeader

  /** `get_user`, `dev_alloc_skb`, the bytes `copy_from_user` can transfer. */
  datatype WriteFault = WriteFault(get: bool, alloc: bool, copied: nat)

  const NET_IP_ALIGN: nat := 2

  /** The buffer allocated for `dataLen` bytes, in 32-bit arithmetic, holds them behind the reserved ones. */
  predicate HasRoom(dataLen: u32) {
    dataLen <= Wrap32(dataLen + NET_IP_ALIGN) - NET_IP_ALIGN
  }

  lemma RoomExactly(dataLen: u32)
    ensures HasRoom(dataLen) <==> dataLen < 0xffff_fffe
  {
    if dataLen >= 0x1_0000_0000 - NET_IP_ALIGN {
      assert Wrap32(dataLen + NET_IP_ALIGN) == dataLen + NET_IP_ALIGN - 0x1_0000_0000;
    }
  }

  /** One packet of a write. Without room, `skb_put` stops the kernel. */
  datatype Outcome = Accepted | Failed(error: int) | NoRoom

  function OutcomeOf(mem: Memory, p: nat, f: WriteFault): (o: Outcome)
    ensures o.Failed? ==> o.error < 0
  {
    if f.get || !Accessible(mem, p, 4) then Failed(-EFAULT)
    else if f.alloc then Failed(-ENOMEM)
    else
      var dataLen := WordAt(mem, p);
      if !HasRoom(dataLen) then NoRoom
      else if f.copied < dataLen || !Accessible(mem, p + 4, dataLen) then Failed(-EFAULT)
      else Accepted
  }

  /** The cause of every outcome: an earlier failure hides a later one. */
  lemma OutcomeMeaning(mem: Memory, p: nat, f: WriteFault)
    ensures var o := OutcomeOf(mem, p, f);
            && (f.get || !Accessible(mem, p, 4) ==> o == Failed(-14))
            && (!f.get && Accessible(mem, p, 4) ==>
                  if f.alloc then o == Failed(-12)
                  else if WordAt(mem, p) >= 0xffff_fffe then o == NoRoom
                  else if f.copied < WordAt(mem, p) || !Accessible(mem, p + 4, WordAt(mem, p)) then o == Failed(-14)
                  else o == Accepted)
  {
    hide WordAt, HasRoom;
    if Accessible(mem, p, 4) {
      RoomExactly(WordAt(mem, p));
    }
  }

  /** The first packet that is not accepted, or `n`. */
  function FirstFailure(mem: Memory, ptrs: seq<nat>, faults: nat -> WriteFault, n: nat): (k: nat)
    requires n <= |ptrs|
    ensures k <= n && (k < n ==> OutcomeOf(mem, ptrs[k], faults(k)) != Accepted)
    ensures forall i :: 0 <= i < k ==> OutcomeOf(mem, ptrs[i], faults(i)) == Accepted
  {
    hide OutcomeOf;
    var os := seq(n, i requires 0 <= i < n => OutcomeOf(mem, ptrs[i], faults(i)));
    assert forall i {:trigger ptrs[i]} :: 0 <= i < n ==> os[i] == OutcomeOf(mem, ptrs[i], faults(i));
    FirstOther(os)
  }

  function FirstOther(os: seq<Outcome>): (k: nat)
    ensures k <= |os| && (k < |os| ==> os[k] != Accepted)
    ensures forall i :: 0 <= i < k ==> os[i] == Accepted
  {
    if os == [] || os[0] != Accepted then 0 else 1 + FirstOther(os[1..])
  }

  /** The packets behind the first `k` pointers. */
  function Stack(mem: Memory, ptrs: seq<nat>, k: nat): (r: seq<Payload>)
    requires k <= |ptrs| && forall i :: 0 <= i < k ==> Sound(mem, ptrs[i])
    ensures |r| == k && forall i :: 0 <= i < k ==> r[i] == PacketAt(mem, ptrs[i])
  {
    seq(k, i requires 0 <= i < k && Sound(mem, ptrs[i]) => PacketAt(mem, ptrs[i]))
  }

  function Sizes(s: seq<Payload>): nat {
    if s == [] then 0 else Sizes(s[..|s| - 1]) + |s[|s| - 1]|
  }

  lemma SizesAppend(s: seq<Payload>, x: Payload)
    ensures Sizes(s + [x]) == Sizes(s) + |x|
  {
    assert (s + [x])[..|s|] == s;
  }

  /** What an accepted packet has to be. */
  lemma AcceptedIsSound(mem: Memory, p: nat, f: WriteFault)
    ensures OutcomeOf(mem, p, f) == Accepted <==>
              !f.get && !f.alloc && Sound(mem, p) && HasRoom(WordAt(mem, p)) && WordAt(mem, p) <= f.copied
  {
    hide WordAt;
    if Accessible(mem, p, 4) {
      forall k | Accessible(mem, p + 4, WordAt(mem, p)) && p <= k < p + Extent(mem, p) ensures k in mem.at {
      }
    }
  }

  /** One packet of `io_write_from_iovec`. */
  method WriteOne(dev: NetDev, user: UserSpace, p: nat, f: WriteFault) returns (o: Outcome)
    modifies dev`rxPackets, dev`rxBytes, dev`received
    ensures o == OutcomeOf(user.mem, p, f)
    ensures o != Accepted ==>
              && dev.received == old(dev.received)
              && dev.rxPackets == old(dev.rxPackets) && dev.rxBytes == old(dev.rxBytes)
    ensures o == Accepted ==>
              && Sound(user.mem, p)
              && dev.received == old(dev.received) + [PacketAt(user.mem, p)]
              && dev.rxPackets == Wrap32(old(dev.rxPackets) + 1)
              && dev.rxBytes == Wrap32(old(dev.rxBytes) + |PacketAt(user.mem, p)|)
  {
    hide WordAt, Wrap32, HasRoom;
    AcceptedIsSound(user.mem, p, f);
    if f.get || !Accessible(user.mem, p, 4) {
      return Failed(-EFAULT);
    }
    var dataLen := WordAt(user.mem, p);
    if f.alloc {
      return Failed(-ENOMEM);
    }
    if !HasRoom(dataLen) {
      return NoRoom;
    }
    if f.copied < dataLen || !Accessible(user.mem, p + 4, dataLen) {
      return Failed(-EFAULT);
    }
    dev.received := dev.received + [Get(user.mem, p + 4, dataLen)];
    dev.rxPackets := Wrap32(dev.rxPackets + 1);
    dev.rxBytes := Wrap32(dev.rxBytes + dataLen);
    return Accepted;
  }

  /** What a write that reached its loop has done once it delivered `sent`. */
  ghost predicate Wrote(dev: NetDev, received: seq<Payload>, rxPackets: u32, rxBytes: u32, sent: seq<Payload>)
    reads dev
  {
    && dev.received == received + sent
    && dev.rxPackets == Wrap32(rxPackets + |sent|)
    && dev.rxBytes == Wrap32(rxBytes + Sizes(sent))
  }

  /** The packets a write of header `h` delivers. */
  function Delivery(mem: Memory, h: Header, faults: nat -> WriteFault): (r: seq<Payload>)
    requires h.count <= |h.pkt|
    ensures |r| <= h.count
    ensures forall i :: 0 <= i < |r| ==> Sound(mem, h.pkt[i]) && r[i] == PacketAt(mem, h.pkt[i])
  {
    var first := FirstFailure(mem, h.pkt, faults, h.count);
    AllSound(mem, h.pkt, faults, first);
    Stack(mem, h.pkt, first)
  }

  lemma AllSound(mem: Memory, ptrs: seq<nat>, faults: nat -> WriteFault, k: nat)
    requires k <= |ptrs| && forall i :: 0 <= i < k ==> OutcomeOf(mem, ptrs[i], faults(i)) == Accepted
    ensures forall i :: 0 <= i < k ==> Sound(mem, ptrs[i])
  {
    hide OutcomeOf;
    forall i | 0 <= i < k ensures Sound(mem, ptrs[i]) {
      AcceptedIsSound(mem, ptrs[i], faults(i));
    }
  }

  /** How the loop ends: with every packet accepted, or with the first that was not. */
  function LoopOutcome(mem: Memory, h: Header, faults: nat -> WriteFault): Outcome
    requires h.count <= |h.pkt|
  {
    var first := FirstFailure(mem, h.pkt, faults, h.count);
    if first < h.count then OutcomeOf(mem, h.pkt[first], faults(first)) else Accepted
  }

  /** If packet `i` is the first not accepted, the loop ends as it does, after delivering exactly those before it. */
  lemma LoopEndsAt(mem: Memory, h: Header, faults: nat -> WriteFault, i: nat)
    requires i <= h.count <= |h.pkt|
    requires forall j :: 0 <= j < i ==> OutcomeOf(mem, h.pkt[j], faults(j)) == Accepted
    requires i < h.count ==> OutcomeOf(mem, h.pkt[i], faults(i)) != Accepted
    ensures |Delivery(mem, h, faults)| == i
    ensures LoopOutcome(mem, h, faults) == if i < h.count then OutcomeOf(mem, h.pkt[i], faults(i)) else Accepted
  {
    hide OutcomeOf;
  }

  /** The loop of `io_write_from_iovec`; `ret` counts packets, or is an error. */
  method WriteLoop(dev: NetDev, user: UserSpace, hdr: Header, faults: nat -> WriteFault)
    returns (ret: int, halted: bool)
    requires hdr.count <= |hdr.pkt|
    modifies dev`rxPackets, dev`rxBytes, dev`received
    ensures var o := LoopOutcome(user.mem, hdr, faults);
            && (halted <==> o == NoRoom)
            && (o == Accepted ==> ret == hdr.count)
            && (o.Failed? ==> ret == o.error < 0)
    ensures Wrote(dev, old(dev.received), old(dev.rxPackets), old(dev.rxBytes), Delivery(user.mem, hdr, faults))
  {
    hide Wrap32, Sizes, WordAt, HasRoom, OutcomeOf, FirstFailure, PacketAt;
    ghost var first := FirstFailure(user.mem, hdr.pkt, faults, hdr.count);
    ghost var sent: seq<Payload> := [];
    AllSound(user.mem, hdr.pkt, faults, first);
    NothingWrote(dev);
    ret, halted := 0, false;
    var i := 0;
    while i < hdr.count
      invariant 0 <= i <= first && ret == i && !halted && sent == Stack(user.mem, hdr.pkt, i)
      invariant Wrote(dev, old(dev.received), old(dev.rxPackets), old(dev.rxBytes), sent)
    {
      var o := WriteOne(dev, user, hdr.pkt[i], faults(i));
      if o != Accepted {
        assert i == first;
        halted := o == NoRoom;
        ret := if o.Failed? then o.error else 0;
        break;
      }
      ghost var x := PacketAt(user.mem, hdr.pkt[i]);
      SizesAppend(sent, x);
      WrapAbsorbs(old(dev.rxPackets) + |sent|, 1);
      WrapAbsorbs(old(dev.rxBytes) + Sizes(sent), |x|);
      sent := sent + [x];
      ret := ret + 1;
      i := i + 1;
    }
  }

  lemma NothingWrote(dev: NetDev)
    ensures Wrote(dev, dev.received, dev.rxPackets, dev.rxBytes, [])
  {
    WrapIsIdentity(dev.rxPackets);
    WrapIsIdentity(dev.rxBytes);
  }

  /**
   `io_write_from_iovec`, for any user memory and any faults: the packets before
   the first failure are delivered, in order, and counted. The call returns
   unless the packet it stopped at had no room.
   */
  method IoWrite(dev: NetDev, user: UserSpace, iov: nat, len: nat, k: CallFaults, faults: nat -> WriteFault)
    returns (ret: int, halted: bool)
    modifies dev`rxPackets, dev`rxBytes, dev`received, user
    ensures user.mem == old(user.mem)
    ensures var refusal := Refusal(user.mem, iov, len, k);
            refusal != 0 ==>
              && ret == refusal && !halted && dev.received == old(dev.received)
              && dev.rxPackets == old(dev.rxPackets) && dev.rxBytes == old(dev.rxBytes)
    ensures Refusal(user.mem, iov, len, k) == 0 ==>
              var h := HeaderAt(user.mem, iov, len);
              var o := LoopOutcome(user.mem, h, faults);
              && (halted <==> o == NoRoom)
              && (!halted ==> ret == if o.Failed? then o.error else if k.copyOut then -14 else 4 + 8 * h.count)
              && Wrote(dev, old(dev.received), old(dev.rxPackets), old(dev.rxBytes), Delivery(user.mem, h, faults))
    ensures !halted && ret > 0 ==>
              ret <= len && |dev.received| == |old(dev.received)| + HeaderAt(user.mem, iov, len).count
  {
    hide Wrap32, Sizes, PutWord, OutcomeOf, PacketAt;
    halted := false;
    if len < HeaderLen(1) {
      return -EINVAL, false;
    }
    if k.noMemory {
      return -ENOMEM, false;
    }
    if k.copyIn || !Accessible(user.mem, iov, len) {
      return -EFAULT, false;
    }
    var hdr := HeaderAt(user.mem, iov, len);
    if hdr.count == 0 || len < HeaderLen(1) + (hdr.count - 1) * 8 {
      return -EINVAL, false;
    }
    ret, halted := WriteLoop(dev, user, hdr, faults);
    if !halted && ret >= 0 {
      if k.copyOut {
        ret := -EFAULT;
      } else {
        PutSameWord(user.mem, iov);
        user.mem := PutWord(user.mem, iov, ret);
        ret := HeaderLen(1) + (if ret != 0 then (ret - 1) * 8 else ret);
      }
    }
  }

  /** Packet `i` gets its buffer after all before it were accepted, and its allocation size wraps. */
  predicate WrapsAt(mem: Memory, h: Header, faults: nat -> WriteFault, i: nat)
    requires i < h.count <= |h.pkt|
  {
    && (forall j :: 0 <= j < i ==> OutcomeOf(mem, h.pkt[j], faults(j)) == Accepted)
    && !faults(i).get && !faults(i).alloc && Accessible(mem, h.pkt[i], 4)
    && WordAt(mem, h.pkt[i]) >= 0xffff_fffe
  }

  /** A write stops the kernel exactly when it gets to a packet whose allocation size wraps. */
  lemma HaltsExactly(mem: Memory, h: Header, faults: nat -> WriteFault)
    requires h.count <= |h.pkt|
    ensures LoopOutcome(mem, h, faults) == NoRoom <==> exists i :: 0 <= i < h.count && WrapsAt(mem, h, faults, i)
  {
    hide WordAt, HasRoom;
    var first := FirstFailure(mem, h.pkt, faults, h.count);
    forall i | 0 <= i < h.count && Accessible(mem, h.pkt[i], 4)
      ensures HasRoom(WordAt(mem, h.pkt[i])) <==> WordAt(mem, h.pkt[i]) < 0xffff_fffe
    {
      RoomExactly(WordAt(mem, h.pkt[i]));
    }
    assert LoopOutcome(mem, h, faults) == NoRoom ==> WrapsAt(mem, h, faults, first);
    forall i | 0 <= i < h.count && WrapsAt(mem, h, faults, i) ensures i == first {
    }
  }
}
