/** Reading a batch of packets: `io_read.c` against user memory that may fault. */
module BatchRead {
  import opened Errno
  import opened MachineInts
  import opened PacketQueue
  import opened NetDev
  import opened UserMemory
  import opened BatchHeader

  /** `get_user`, the bytes `copy_to_user` can transfer, `put_user`. */
  datatype FillFault = FillFault(get: bool, copied: nat, put: bool)

  /** The copy into one user buffer; `len` is what it was to transfer. */
  datatype CopyOut = CopyOut(mem: Memory, failed: bool, len: u32)

  function CopyOne(mem: Memory, p: nat, src: Payload, f: FillFault): CopyOut {
    if f.get || !Accessible(mem, p, 4) then CopyOut(mem, true, 0)
    else
      var len := Min(|src|, WordAt(mem, p));
      var moved := Min(Min(f.copied, len), Reach(mem, p + 4, len));
      CopyOut(Put(mem, p + 4, src[..moved]), moved < len, len)
  }

  /** What one `io_read_fill_network_packet` does. */
  datatype Fill = Fill(mem: Memory, ok: bool, counted: bool, bytes: u32)

  function FillOne(mem: Memory, p: nat, src: Payload, f: FillFault): Fill {
    var c := CopyOne(mem, p, src, f);
    if c.failed then Fill(c.mem, false, false, 0)
    else if f.put then Fill(c.mem, false, true, c.len)
    else Fill(PutWord(c.mem, p, c.len), true, true, c.len)
  }

  /** All of a packet that fits its buffer at `p` can be copied there. */
  predicate Copies(mem: Memory, p: nat, src: Payload, f: FillFault) {
    && !f.get && Accessible(mem, p, 4)
    && var len := Min(|src|, WordAt(mem, p)); len <= f.copied && Accessible(mem, p + 4, len)
  }

  /**
   Byte `i` of a packet reaches the buffer if and only if it is within the
   capacity, and no fault comes before it; nothing else changes.
   */
  lemma CopyMeaning(mem: Memory, p: nat, src: Payload, f: FillFault)
    ensures var c := CopyOne(mem, p, src, f);
            && (c.failed <==> !Copies(mem, p, src, f))
            && (!c.failed ==> c.len == Min(|src|, WordAt(mem, p)))
            && c.mem.order == mem.order && c.mem.at.Keys == mem.at.Keys
    ensures forall k :: k in mem.at ==>
              var i := k - (p + 4);
              CopyOne(mem, p, src, f).mem.at[k] ==
                if !f.get && Accessible(mem, p, 4) && 0 <= i < Min(|src|, WordAt(mem, p)) && i < f.copied
                   && Accessible(mem, p + 4, i) then src[i] else mem.at[k]
  {
    hide WordAt;
  }

  /** A packet that was copied is counted with its bytes, whether or not its length can be stored. */
  lemma FillMeaning(mem: Memory, p: nat, src: Payload, f: FillFault)
    ensures var r := FillOne(mem, p, src, f);
            && (r.counted <==> Copies(mem, p, src, f))
            && (r.ok <==> Copies(mem, p, src, f) && !f.put)
            && r.bytes == (if r.counted then Min(|src|, WordAt(mem, p)) else 0)
            && r.mem == if r.ok then PutWord(CopyOne(mem, p, src, f).mem, p, r.bytes) else CopyOne(mem, p, src, f).mem
  {
    hide WordAt, PutWord;
  }

  /** A batch after up to `n` packets: it stops at the first that fails. */
  datatype Batch = Batch(mem: Memory, filled: nat, failed: bool, packets: nat, bytes: nat)

  function Fresh(mem: Memory): Batch {
    Batch(mem, 0, false, 0, 0)
  }

  function Advance(b: Batch, p: nat, src: Payload, f: FillFault): Batch {
    var r := FillOne(b.mem, p, src, f);
    Batch(r.mem, b.filled + (if r.ok then 1 else 0), !r.ok, b.packets + (if r.counted then 1 else 0), b.bytes + r.bytes)
  }

  /** The batch from packet `i` on, up to packet `n`. */
  function Onward(b: Batch, ptrs: seq<nat>, src: seq<Payload>, faults: nat -> FillFault, i: nat, n: nat): (r: Batch)
    requires i <= n <= |ptrs| && n <= |src|
    requires b.filled == i || b.failed
    ensures b.filled <= i && (b.failed ==> b.filled < i) ==> r.filled <= n && (r.failed <==> r.filled < n)
    decreases n - i
  {
    if i == n || b.failed then b
    else Onward(Advance(b, ptrs[i], src[i], faults(i)), ptrs, src, faults, i + 1, n)
  }

  /** A whole batch of at most `n` packets. */
  function ReadBatch(mem: Memory, ptrs: seq<nat>, src: seq<Payload>, faults: nat -> FillFault, n: nat): (b: Batch)
    requires n <= |ptrs| && n <= |src|
    ensures b.filled <= n && (b.failed <==> b.filled < n)
  {
    Onward(Fresh(mem), ptrs, src, faults, 0, n)
  }

  lemma {:induction false} OnwardLast(b: Batch, ptrs: seq<nat>, src: seq<Payload>, faults: nat -> FillFault,
                                      i: nat, n: nat)
    requires i <= n < |ptrs| && n < |src| && (b.filled == i || b.failed)
    ensures var last := Onward(b, ptrs, src, faults, i, n);
            Onward(b, ptrs, src, faults, i, n + 1) ==
              if last.failed then last else Advance(last, ptrs[n], src[n], faults(n))
    decreases n - i
  {
    hide Advance;
    if i < n && !b.failed {
      AdvanceCounts(b, ptrs[i], src[i], faults(i));
      OnwardLast(Advance(b, ptrs[i], src[i], faults(i)), ptrs, src, faults, i + 1, n);
    } else if !b.failed {
      AdvanceCounts(b, ptrs[n], src[n], faults(n));
    }
  }

  /** A batch of `n + 1` packets is one of `n`, and one more packet unless that one failed. */
  lemma BatchGrows(mem: Memory, ptrs: seq<nat>, src: seq<Payload>, faults: nat -> FillFault, n: nat)
    requires n < |ptrs| && n < |src|
    ensures ReadBatch(mem, ptrs, src, faults, 0) == Batch(mem, 0, false, 0, 0)
    ensures var b, b' := ReadBatch(mem, ptrs, src, faults, n), ReadBatch(mem, ptrs, src, faults, n + 1);
            if b.failed then b' == b
            else
              var r := FillOne(b.mem, ptrs[n], src[n], faults(n));
              b' == Batch(r.mem, if r.ok then n + 1 else n, !r.ok,
                          if r.counted then b.packets + 1 else b.packets, b.bytes + r.bytes)
  {
    hide FillOne;
    OnwardLast(Fresh(mem), ptrs, src, faults, 0, n);
  }

  function Payloads(s: seq<Packet>): (r: seq<Payload>)
    ensures |r| == |s| && forall i :: 0 <= i < |s| ==> r[i] == s[i].data
  {
    seq(|s|, i requires 0 <= i < |s| => s[i].data)
  }

  // ---------------------------------------------------------------- filling one buffer

  /** `get_user` of the capacity, then `copy_to_user`. */
  method CopyToUser(user: UserSpace, p: nat, skb: Packet, f: FillFault) returns (failed: bool, len: u32)
    modifies user
    ensures CopyOut(user.mem, failed, len) == CopyOne(old(user.mem), p, skb.data, f)
  {
    if f.get || !Accessible(user.mem, p, 4) {
      return true, 0;
    }
    var dataLen := WordAt(user.mem, p);
    len := Min(|skb.data|, dataLen);
    var moved := Min(Min(f.copied, len), Reach(user.mem, p + 4, len));
    user.mem := Put(user.mem, p + 4, skb.data[..moved]);
    failed := moved < len;
  }

  /** `put_user` of the length. */
  method StoreLength(user: UserSpace, p: nat, len: u32, f: FillFault) returns (failed: bool)
    modifies user
    ensures failed <==> f.put || !Accessible(old(user.mem), p, 4)
    ensures user.mem == if failed then old(user.mem) else PutWord(old(user.mem), p, len)
  {
    failed := f.put || !Accessible(user.mem, p, 4);
    if !failed {
      user.mem := PutWord(user.mem, p, len);
    }
  }

  lemma StillAccessible(mem: Memory, p: nat, src: Payload, f: FillFault)
    requires !CopyOne(mem, p, src, f).failed
    ensures Accessible(CopyOne(mem, p, src, f).mem, p, 4)
  {
  }

  /** `io_read_fill_network_packet`. */
  method FillNetworkPacket(dev: NetDev, user: UserSpace, p: nat, skb: Packet, f: FillFault) returns (failed: bool)
    modifies dev`txPackets, dev`txBytes, user
    ensures var r := FillOne(old(user.mem), p, skb.data, f);
            && failed == !r.ok && user.mem == r.mem
            && dev.txPackets == (if r.counted then Wrap32(old(dev.txPackets) + 1) else old(dev.txPackets))
            && dev.txBytes == (if r.counted then Wrap32(old(dev.txBytes) + r.bytes) else old(dev.txBytes))
  {
    hide CopyOne, Wrap32;
    var len;
    failed, len := CopyToUser(user, p, skb, f);
    if failed {
      return;
    }
    StillAccessible(old(user.mem), p, skb.data, f);
    dev.CountPacket();
    dev.CountBytes(len);
    failed := StoreLength(user, p, len, f);
  }

  // ---------------------------------------------------------------- the loop

  /** How many packets a batch takes off the queue: the failing one is lost. */
  function Taken(b: Batch): nat {
    b.filled + if b.failed then 1 else 0
  }

  /** The device when a read began. */
  datatype Start = Start(queue: seq<Packet>, freed: seq<Packet>, enabled: bool, txPackets: u32, txBytes: u32)

  ghost function StartOf(dev: NetDev): Start
    reads dev, dev.queue
  {
    Start(dev.queue.contents, dev.freed, dev.queue.enabled, dev.txPackets, dev.txBytes)
  }

  /** A read that began at `at` has got as far as `b`. */
  ghost predicate Reached(dev: NetDev, at: Start, b: Batch)
    reads dev, dev.queue, dev.queue.contents
  {
    && dev.Valid() && dev.queue.enabled == at.enabled
    && Taken(b) <= |at.queue|
    && dev.queue.contents == at.queue[Taken(b)..] && dev.freed == at.freed + at.queue[..Taken(b)]
    && dev.txPackets == Wrap32(at.txPackets + b.packets)
    && dev.txBytes == Wrap32(at.txBytes + b.bytes)
  }

  /** The packets a batch filled and the one it failed at are off the queue and freed, and it is counted. */
  lemma ReachedMeaning(dev: NetDev, at: Start, b: Batch)
    requires Reached(dev, at, b)
    ensures var n := b.filled + if b.failed then 1 else 0;
            && dev.Valid() && n <= |at.queue|
            && dev.queue.contents == at.queue[n..] && dev.freed == at.freed + at.queue[..n]
            && dev.queue.enabled == at.enabled
            && dev.txPackets == Wrap32(at.txPackets + b.packets) && dev.txBytes == Wrap32(at.txBytes + b.bytes)
  {
  }

  lemma CountedOrNothing(mem: Memory, p: nat, src: Payload, f: FillFault)
    ensures var r := FillOne(mem, p, src, f);
            (r.ok ==> r.counted) && (!r.counted ==> r.bytes == 0)
  {
  }

  /** One turn of the loop of `io_read_to_iovec`: take a packet, fill the user's buffer, free the packet. */
  method ReadOne(dev: NetDev, user: UserSpace, p: nat, f: FillFault) returns (empty: bool, failed: bool)
    requires dev.Valid()
    modifies dev`txPackets, dev`txBytes, dev`freed, dev.queue, dev.queue.contents, user
    ensures dev.Valid() && dev.queue.enabled == old(dev.queue.enabled)
    ensures empty <==> old(dev.queue.contents) == []
    ensures empty ==> StartOf(dev) == old(StartOf(dev)) && user.mem == old(user.mem)
    ensures !empty ==>
              var q := old(dev.queue.contents);
              var r := FillOne(old(user.mem), p, q[0].data, f);
              && dev.queue.contents == q[1..] && dev.freed == old(dev.freed) + [q[0]]
              && failed == !r.ok && user.mem == r.mem
              && dev.txPackets == (if r.counted then Wrap32(old(dev.txPackets) + 1) else old(dev.txPackets))
              && dev.txBytes == (if r.counted then Wrap32(old(dev.txBytes) + r.bytes) else old(dev.txBytes))
  {
    hide FillOne, Wrap32;
    failed := false;
    var skb := dev.Take();
    empty := skb == null;
    if skb != null {
      failed := FillNetworkPacket(dev, user, p, skb, f);
      dev.Free(skb);
    }
  }

  /** The same turn, seen as one more packet of a batch. */
  method ReadTurn(dev: NetDev, user: UserSpace, p: nat, f: FillFault, ghost at: Start, ghost b: Batch)
    returns (empty: bool, failed: bool)
    requires Reached(dev, at, b) && user.mem == b.mem && !b.failed
    modifies dev`txPackets, dev`txBytes, dev`freed, dev.queue, dev.queue.contents, user
    ensures empty <==> b.filled == |at.queue|
    ensures empty ==> Reached(dev, at, b) && user.mem == b.mem
    ensures !empty ==>
              var next := Advance(b, p, at.queue[b.filled].data, f);
              && failed == next.failed && Reached(dev, at, next) && user.mem == next.mem
              && dev.queue.contents == at.queue[b.filled + 1..]
  {
    hide FillOne, Wrap32, PutWord, WordAt;
    ghost var k, q := b.filled, at.queue;
    empty, failed := ReadOne(dev, user, p, f);
    if !empty {
      ghost var r := FillOne(b.mem, p, q[k].data, f);
      CountedOrNothing(b.mem, p, q[k].data, f);
      WrapAbsorbs(at.txPackets + b.packets, 1);
      WrapAbsorbs(at.txBytes + b.bytes, r.bytes);
      assert q[k..][1..] == q[k + 1..];
      assert q[..k + 1] == q[..k] + [q[k]];
      assert at.freed + q[..k + 1] == at.freed + q[..k] + [q[k]];
      assert Taken(Advance(b, p, q[k].data, f)) == k + 1;
    }
  }

  lemma AtStart(dev: NetDev, mem: Memory)
    requires dev.Valid()
    ensures Reached(dev, StartOf(dev), Fresh(mem))
  {
    WrapIsIdentity(dev.txPackets);
    WrapIsIdentity(dev.txBytes);
  }

  /** The loop of `io_read_to_iovec`; `ret` counts packets, or is an error. */
  method ReadLoop(dev: NetDev, user: UserSpace, hdr: Header, faults: nat -> FillFault) returns (ret: int)
    requires dev.Valid() && 0 < hdr.count <= |hdr.pkt|
    modifies dev`txPackets, dev`txBytes, dev`freed, dev.queue, dev.queue.contents, user
    ensures var q := old(dev.queue.contents);
            var b := ReadBatch(old(user.mem), hdr.pkt, Payloads(q), faults, Min(hdr.count, |q|));
            && ret == (if b.failed then -EFAULT else if b.filled == 0 then -EAGAIN else b.filled)
            && Reached(dev, old(StartOf(dev)), b) && user.mem == b.mem
  {
    hide Reached, Advance, Wrap32, ReadBatch;
    ghost var at := StartOf(dev);
    ghost var src, n := Payloads(at.queue), Min(hdr.count, |at.queue|);
    ghost var b := Fresh(user.mem);
    ghost var whole := ReadBatch(user.mem, hdr.pkt, src, faults, n);
    BatchIsOnward(user.mem, hdr.pkt, src, faults, n);
    AtStart(dev, user.mem);
    ret := 0;
    var i := 0;
    while i < hdr.count
      invariant 0 <= i <= n && ret == i && hdr.count <= |hdr.pkt|
      invariant b.filled == i && !b.failed && Reached(dev, at, b) && user.mem == b.mem
      invariant whole == Onward(b, hdr.pkt, src, faults, i, n)
      invariant dev.queue.contents == at.queue[i..]
    {
      var empty, failed := ReadTurn(dev, user, hdr.pkt[i], faults(i), at, b);
      if empty {
        if ret == 0 {
          ret := -EAGAIN;
        }
        break;
      }
      AdvanceCounts(b, hdr.pkt[i], src[i], faults(i));
      b := Advance(b, hdr.pkt[i], src[i], faults(i));
      if failed {
        ret := -EFAULT;
        break;
      }
      ret := ret + 1;
      i := i + 1;
    }
  }

  lemma AdvanceCounts(b: Batch, p: nat, src: Payload, f: FillFault)
    ensures var next := Advance(b, p, src, f);
            next.filled == b.filled + if next.failed then 0 else 1
  {
  }

  lemma BatchIsOnward(mem: Memory, ptrs: seq<nat>, src: seq<Payload>, faults: nat -> FillFault, n: nat)
    requires n <= |ptrs| && n <= |src|
    ensures ReadBatch(mem, ptrs, src, faults, n) == Onward(Fresh(mem), ptrs, src, faults, 0, n)
  {
  }

  /** The value of a read that reached the loop. */
  function ReadResult(b: Batch, k: CallFaults): int {
    if b.failed then -EFAULT
    else if b.filled == 0 then -EAGAIN
    else if k.copyOut then -EFAULT
    else HeaderLen(b.filled)
  }

  lemma ResultMeaning(b: Batch, k: CallFaults)
    ensures ReadResult(b, k) ==
              if b.failed then -14 else if b.filled == 0 then -11 else if k.copyOut then -14 else 4 + 8 * b.filled
  {
  }

  /** The batch an accepted read of `len` bytes at `iov` makes of queue `q`. */
  ghost function BatchOf(mem: Memory, iov: nat, len: nat, q: seq<Packet>, faults: nat -> FillFault): (b: Batch)
    requires Refusal(mem, iov, len, NoCallFaults) == 0
    ensures b.filled < 0x1_0000_0000
  {
    var h := HeaderAt(mem, iov, len);
    ReadBatch(mem, h.pkt, Payloads(q), faults, Min(h.count, |q|))
  }

  /** `io_read_to_iovec`, for any user memory, overlapping buffers and header included, and any faults. */
  method IoRead(dev: NetDev, user: UserSpace, iov: nat, len: nat, k: CallFaults, faults: nat -> FillFault)
    returns (ret: int)
    requires dev.Valid()
    modifies dev`txPackets, dev`txBytes, dev`freed, dev.queue, dev.queue.contents, user
    ensures var refusal := Refusal(old(user.mem), iov, len, k);
            refusal != 0 ==>
              ret == refusal && dev.Valid() && StartOf(dev) == old(StartOf(dev)) && user.mem == old(user.mem)
    ensures Refusal(old(user.mem), iov, len, k) == 0 ==>
              var b := BatchOf(old(user.mem), iov, len, old(dev.queue.contents), faults);
              && ret == ReadResult(b, k)
              && Reached(dev, old(StartOf(dev)), b)
              && user.mem == if ret > 0 then PutWord(b.mem, iov, b.filled) else b.mem
  {
    hide ReadBatch, FillOne, Wrap32, HeaderAt, PutWord;
    if len < HeaderLen(1) {
      return -EINVAL;
    }
    if k.noMemory {
      return -ENOMEM;
    }
    if k.copyIn || !Accessible(user.mem, iov, len) {
      return -EFAULT;
    }
    var hdr := HeaderAt(user.mem, iov, len);
    if hdr.count == 0 || len < HeaderLen(1) + (hdr.count - 1) * 8 {
      return -EINVAL;
    }
    ret := ReadLoop(dev, user, hdr, faults);
    if ret >= 0 {
      if k.copyOut {
        ret := -EFAULT;
      } else {
        user.mem := PutWord(user.mem, iov, ret);
        ret := HeaderLen(1) + (if ret != 0 then (ret - 1) * 8 else ret);
      }
    }
  }

  // ---------------------------------------------------------------- what a read means

  /** The first `n` packets occupy different bytes of user memory. */
  predicate Separate(mem: Memory, ptrs: seq<nat>, n: nat)
    requires n <= |ptrs|
  {
    && (forall i :: 0 <= i < n ==> Accessible(mem, ptrs[i], 4))
    && (forall i, j :: 0 <= i < j < n ==> Apart(ptrs[i], Extent(mem, ptrs[i]), ptrs[j], Extent(mem, ptrs[j])))
  }

  /** The bytes of a packet that reach the buffer at `p`. */
  function Truncated(mem: Memory, p: nat, src: Payload): seq<byte>
    requires Accessible(mem, p, 4)
  {
    src[..Min(|src|, WordAt(mem, p))]
  }

  ghost predicate NoFillFaults(faults: nat -> FillFault) {
    forall i :: !faults(i).get && faults(i).copied >= 0x1_0000_0000 && !faults(i).put
  }

  function TotalBytes(mem: Memory, ptrs: seq<nat>, src: seq<Payload>, n: nat): nat
    requires n <= |ptrs| && n <= |src| && forall i :: 0 <= i < n ==> Accessible(mem, ptrs[i], 4)
  {
    if n == 0 then 0 else TotalBytes(mem, ptrs, src, n - 1) + |Truncated(mem, ptrs[n - 1], src[n - 1])|
  }

  /** `mem'` has `data` in the packet at `p` and is `mem` elsewhere. */
  predicate Stored(mem: Memory, mem': Memory, p: nat, data: seq<byte>) {
    && mem'.order == mem.order && mem'.at.Keys == mem.at.Keys
    && Sound(mem', p) && PacketAt(mem', p) == data
    && forall k :: k in mem.at && !(p <= k < p + 4 + |data|) ==> mem'.at[k] == mem.at[k]
  }

  lemma FillSucceeds(mem: Memory, p: nat, src: Payload, f: FillFault)
    requires FillOne(mem, p, src, f).ok
    ensures Accessible(mem, p, 4)
    ensures var r := FillOne(mem, p, src, f);
            r.counted && Stored(mem, r.mem, p, Truncated(mem, p, src)) && r.bytes == |Truncated(mem, p, src)|
  {
    hide WordAt, Put, PutWord, Stored;
    StoringBoth(mem, p, Truncated(mem, p, src));
  }

  /** Storing the bytes and then their number makes a sound packet of them. */
  lemma StoringBoth(mem: Memory, p: nat, data: Payload)
    requires Accessible(mem, p, 4) && Accessible(mem, p + 4, |data|)
    ensures Stored(mem, PutWord(Put(mem, p + 4, data), p, |data|), p, data)
  {
    hide WordAt, Digits, Ordered;
    var m1 := Put(mem, p + 4, data);
    var m2 := PutWord(m1, p, |data|);
    GetOfPut(mem, p + 4, data);
    WordOfPutWord(m1, p, |data|);
    PutElsewhere(m1, p, Ordered(m1.order, Digits(|data|, 4)), p + 4, |data|);
    AgreeingGets(m1, m2, p + 4, |data|);
  }

  lemma SoundFillSucceeds(mem: Memory, p: nat, src: Payload, f: FillFault)
    requires Sound(mem, p) && !f.get && f.copied >= 0x1_0000_0000 && !f.put
    ensures FillOne(mem, p, src, f).ok
  {
    hide WordAt, PutWord;
    assert Accessible(mem, p + 4, WordAt(mem, p));
  }

  /** No byte at `k` belongs to what the first `n` packets store. */
  predicate Outside(mem: Memory, ptrs: seq<nat>, src: seq<Payload>, n: nat, k: nat)
    requires n <= |ptrs| && n <= |src| && forall i :: 0 <= i < n ==> Accessible(mem, ptrs[i], 4)
  {
    forall i :: 0 <= i < n ==> !(ptrs[i] <= k < ptrs[i] + 4 + |Truncated(mem, ptrs[i], src[i])|)
  }

  /**
   Each of the first `n` buffers holds its own packet cut to its own capacity,
   nothing else changed, and every packet and every byte stored is counted.
   */
  predicate FilledFrom(mem: Memory, ptrs: seq<nat>, src: seq<Payload>, n: nat, b: Batch)
    requires n <= |ptrs| && n <= |src| && Separate(mem, ptrs, n)
  {
    && b.filled == b.packets == n && !b.failed
    && b.mem.order == mem.order && b.mem.at.Keys == mem.at.Keys
    && (forall i :: 0 <= i < n ==>
          Sound(b.mem, ptrs[i]) && PacketAt(b.mem, ptrs[i]) == Truncated(mem, ptrs[i], src[i]))
    && (forall k :: k in mem.at && Outside(mem, ptrs, src, n, k) ==> b.mem.at[k] == mem.at[k])
    && b.bytes == TotalBytes(mem, ptrs, src, n)
  }
  /** The next packet is untouched when its turn comes. */
  lemma NextIsUntouched(mem: Memory, ptrs: seq<nat>, src: seq<Payload>, n: nat, b: Batch)
    requires n < |ptrs| && n < |src| && Separate(mem, ptrs, n + 1) && FilledFrom(mem, ptrs, src, n, b)
    ensures Agree(mem, b.mem, ptrs[n], Extent(mem, ptrs[n]))
    ensures Accessible(b.mem, ptrs[n], 4) && WordAt(b.mem, ptrs[n]) == WordAt(mem, ptrs[n])
  {
    hide WordAt, PacketAt;
    forall k | ptrs[n] <= k < ptrs[n] + Extent(mem, ptrs[n]) ensures Outside(mem, ptrs, src, n, k) {
      forall i | 0 <= i < n ensures !(ptrs[i] <= k < ptrs[i] + 4 + |Truncated(mem, ptrs[i], src[i])|) {
        assert Apart(ptrs[i], Extent(mem, ptrs[i]), ptrs[n], Extent(mem, ptrs[n]));
      }
    }
    AgreeingGets(mem, b.mem, ptrs[n], 4);
  }

  lemma FilledOneMore(mem: Memory, ptrs: seq<nat>, src: seq<Payload>, n: nat, b: Batch, f: FillFault)
    requires n < |ptrs| && n < |src| && Separate(mem, ptrs, n + 1) && FilledFrom(mem, ptrs, src, n, b)
    requires !Advance(b, ptrs[n], src[n], f).failed
    ensures FilledFrom(mem, ptrs, src, n + 1, Advance(b, ptrs[n], src[n], f))
  {
    hide FillOne, WordAt, PacketAt;
    var next := Advance(b, ptrs[n], src[n], f);
    NextIsUntouched(mem, ptrs, src, n, b);
    FillSucceeds(b.mem, ptrs[n], src[n], f);
    forall i | 0 <= i < n
      ensures Sound(next.mem, ptrs[i]) && PacketAt(next.mem, ptrs[i]) == Truncated(mem, ptrs[i], src[i])
    {
      assert Apart(ptrs[i], Extent(mem, ptrs[i]), ptrs[n], Extent(mem, ptrs[n]));
      SamePacket(b.mem, next.mem, ptrs[i]);
    }
    forall k | k in mem.at && Outside(mem, ptrs, src, n + 1, k) ensures next.mem.at[k] == mem.at[k] {
      assert Outside(mem, ptrs, src, n, k);
    }
  }

  lemma FilledCounts(mem: Memory, ptrs: seq<nat>, src: seq<Payload>, n: nat, b: Batch)
    requires n <= |ptrs| && n <= |src| && Separate(mem, ptrs, n) && FilledFrom(mem, ptrs, src, n, b)
    ensures b.filled == n && !b.failed
  {
  }

  lemma SeparateFewer(mem: Memory, ptrs: seq<nat>, k: nat, n: nat)
    requires k <= n <= |ptrs| && Separate(mem, ptrs, n)
    ensures Separate(mem, ptrs, k)
  {
  }

  lemma {:induction false} FilledOnward(mem: Memory, ptrs: seq<nat>, src: seq<Payload>, faults: nat -> FillFault,
                                        b: Batch, i: nat, n: nat)
    requires i <= n <= |ptrs| && n <= |src|
    requires Separate(mem, ptrs, n) && Separate(mem, ptrs, i) && FilledFrom(mem, ptrs, src, i, b)
    requires b.filled == i && !Onward(b, ptrs, src, faults, i, n).failed
    ensures FilledFrom(mem, ptrs, src, n, Onward(b, ptrs, src, faults, i, n))
    decreases n - i
  {
    hide Advance, FilledFrom, Separate;
    FilledCounts(mem, ptrs, src, i, b);
    if i < n {
      var next := Advance(b, ptrs[i], src[i], faults(i));
      AdvanceCounts(b, ptrs[i], src[i], faults(i));
      SeparateFewer(mem, ptrs, i + 1, n);
      FilledOneMore(mem, ptrs, src, i, b, faults(i));
      FilledOnward(mem, ptrs, src, faults, next, i + 1, n);
    }
  }

  lemma NothingFilled(mem: Memory, ptrs: seq<nat>, src: seq<Payload>)
    ensures FilledFrom(mem, ptrs, src, 0, Fresh(mem))
  {
  }

  /** A batch over separate buffers that did not fail filled them all, each with its own packet. */
  lemma FilledBuffers(mem: Memory, ptrs: seq<nat>, src: seq<Payload>, faults: nat -> FillFault, n: nat)
    requires n <= |ptrs| && n <= |src| && Separate(mem, ptrs, n)
    requires !ReadBatch(mem, ptrs, src, faults, n).failed
    ensures FilledFrom(mem, ptrs, src, n, ReadBatch(mem, ptrs, src, faults, n))
  {
    hide FilledFrom, Onward;
    NothingFilled(mem, ptrs, src);
    FilledOnward(mem, ptrs, src, faults, Fresh(mem), 0, n);
  }

  lemma {:induction false} SoundOnward(mem: Memory, ptrs: seq<nat>, src: seq<Payload>, faults: nat -> FillFault,
                                       b: Batch, i: nat, n: nat)
    requires i <= n <= |ptrs| && n <= |src|
    requires Separate(mem, ptrs, n) && Separate(mem, ptrs, i) && FilledFrom(mem, ptrs, src, i, b)
    requires NoFillFaults(faults) && forall j :: 0 <= j < n ==> Sound(mem, ptrs[j])
    requires b.filled == i
    ensures !Onward(b, ptrs, src, faults, i, n).failed
    decreases n - i
  {
    hide FillOne, FilledFrom, Separate, Sound;
    FilledCounts(mem, ptrs, src, i, b);
    if i < n {
      SeparateFewer(mem, ptrs, i + 1, n);
      SoundNext(mem, ptrs, src, i, b, faults(i));
      FilledOneMore(mem, ptrs, src, i, b, faults(i));
      SoundOnward(mem, ptrs, src, faults, Advance(b, ptrs[i], src[i], faults(i)), i + 1, n);
    }
  }

  lemma SoundNext(mem: Memory, ptrs: seq<nat>, src: seq<Payload>, n: nat, b: Batch, f: FillFault)
    requires n < |ptrs| && n < |src| && Separate(mem, ptrs, n + 1) && FilledFrom(mem, ptrs, src, n, b)
    requires Sound(mem, ptrs[n]) && !f.get && f.copied >= 0x1_0000_0000 && !f.put
    ensures !Advance(b, ptrs[n], src[n], f).failed
  {
    hide FillOne, WordAt;
    NextIsUntouched(mem, ptrs, src, n, b);
    SoundFillSucceeds(b.mem, ptrs[n], src[n], f);
  }

  /** With sound separate buffers and no faults, a batch never fails. */
  lemma SoundBatchSucceeds(mem: Memory, ptrs: seq<nat>, src: seq<Payload>, faults: nat -> FillFault, n: nat)
    requires n <= |ptrs| && n <= |src| && Separate(mem, ptrs, n) && NoFillFaults(faults)
    requires forall j :: 0 <= j < n ==> Sound(mem, ptrs[j])
    ensures !ReadBatch(mem, ptrs, src, faults, n).failed
  {
    hide FilledFrom, Onward, Sound;
    NothingFilled(mem, ptrs, src);
    SoundOnward(mem, ptrs, src, faults, Fresh(mem), 0, n);
  }

  /** An accepted read answers -EAGAIN exactly when there is nothing queued, whatever faults it meets. */
  lemma EagainIffEmpty(mem: Memory, iov: nat, len: nat, q: seq<Packet>, faults: nat -> FillFault, k: CallFaults)
    requires Refusal(mem, iov, len, k) == 0
    ensures ReadResult(BatchOf(mem, iov, len, q, faults), k) == -11 <==> q == []
  {
    hide ReadBatch;
  }

  /** The buffers an accepted read may use are separate, and there as far as they say. */
  predicate Ready(mem: Memory, iov: nat, len: nat)
    requires Refusal(mem, iov, len, NoCallFaults) == 0
  {
    var h := HeaderAt(mem, iov, len);
    Separate(mem, h.pkt, h.count) && forall i :: 0 <= i < h.count ==> Sound(mem, h.pkt[i])
  }

  /**
   A read into sound separate buffers, without faults, takes exactly as many
   packets as it has buffers for or the queue has, fills them in order, and
   returns the length of a header for that many.
   */
  lemma ReadMeaning(mem: Memory, iov: nat, len: nat, q: seq<Packet>, faults: nat -> FillFault)
    requires Refusal(mem, iov, len, NoCallFaults) == 0 && Ready(mem, iov, len) && NoFillFaults(faults)
    ensures var h := HeaderAt(mem, iov, len);
            var n := Min(h.count, |q|);
            var b := BatchOf(mem, iov, len, q, faults);
            && Taken(b) == n && Separate(mem, h.pkt, n) && FilledFrom(mem, h.pkt, Payloads(q), n, b)
            && ReadResult(b, NoCallFaults) == if n == 0 then -11 else 4 + 8 * n
  {
    hide ReadBatch, FilledFrom, Separate, Sound, HeaderAt;
    AcceptedHeader(mem, iov, len, NoCallFaults);
    var h := HeaderAt(mem, iov, len);
    var n := Min(h.count, |q|);
    SeparateFewer(mem, h.pkt, n, h.count);
    SoundBatchSucceeds(mem, h.pkt, Payloads(q), faults, n);
    FilledBuffers(mem, h.pkt, Payloads(q), faults, n);
    FilledCounts(mem, h.pkt, Payloads(q), n, BatchOf(mem, iov, len, q, faults));
  }
}
