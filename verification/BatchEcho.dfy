/** What a read stored is what a write of the same header delivers. */
module BatchEcho {
  import opened MachineInts
  import opened PacketQueue
  import opened NetDev
  import opened UserMemory
  import opened BatchHeader
  import opened BatchRead
  import opened BatchWrite

  ghost predicate NoWriteFaults(faults: nat -> WriteFault) {
    forall i :: !faults(i).get && !faults(i).alloc && faults(i).copied >= 0x1_0000_0000
  }

  /** The bytes of the header are none of those of the packets it points to. */
  predicate HeaderApart(mem: Memory, iov: nat, len: nat)
    requires Refusal(mem, iov, len, NoCallFaults) == 0 && Ready(mem, iov, len)
  {
    var h := HeaderAt(mem, iov, len);
    forall i :: 0 <= i < h.count ==> Apart(iov, len, h.pkt[i], Extent(mem, h.pkt[i]))
  }

  /** The first `n` buffers read back, in order, as the packets cut to the capacity they had in `mem`. */
  predicate Filled(mem: Memory, mem': Memory, ptrs: seq<nat>, src: seq<Payload>, n: nat)
    requires n <= |ptrs| && n <= |src|
  {
    forall i :: 0 <= i < n ==>
      && Accessible(mem, ptrs[i], 4)
      && Sound(mem', ptrs[i]) && PacketAt(mem', ptrs[i]) == Truncated(mem, ptrs[i], src[i])
  }

  /** A batch read through the header at `iov` filled its first `n` buffers. */
  ghost predicate ReadThrough(mem: Memory, iov: nat, len: nat, src: seq<Payload>, n: nat, b: Batch) {
    && Refusal(mem, iov, len, NoCallFaults) == 0 && Ready(mem, iov, len) && HeaderApart(mem, iov, len)
    && var h := HeaderAt(mem, iov, len);
       n <= h.count && n <= |src| && Separate(mem, h.pkt, n) && FilledFrom(mem, h.pkt, src, n, b)
  }

  /** Storing the count leaves the pointers of the header alone, and the buffers as the read left them. */
  lemma ReadThenCount(mem: Memory, iov: nat, len: nat, src: seq<Payload>, n: nat, b: Batch)
    requires ReadThrough(mem, iov, len, src, n, b)
    ensures HeaderLen(1) <= len && Accessible(mem, iov, len)
    ensures var mem', h := PutWord(b.mem, iov, n), HeaderAt(mem, iov, len);
            && n <= |h.pkt| && Accessible(mem', iov, len) && HeaderAt(mem', iov, len) == Header(n, h.pkt)
            && Filled(mem, mem', h.pkt, src, n)
  {
    hide WordAt, HeaderAt, PacketAt, PutWord, Sound;
    AcceptedHeader(mem, iov, len, NoCallFaults);
    var h := HeaderAt(mem, iov, len);
    var mem' := PutWord(b.mem, iov, n);
    HeaderUntouched(mem, iov, len, src, n, b);
    CountStored(mem, b.mem, iov, len, n);
    forall i | 0 <= i < n
      ensures Sound(mem', h.pkt[i]) && PacketAt(mem', h.pkt[i]) == Truncated(mem, h.pkt[i], src[i])
    {
      assert Apart(iov, len, h.pkt[i], Extent(mem, h.pkt[i]));
      CountElsewhere(b.mem, iov, n, h.pkt[i], Extent(b.mem, h.pkt[i]));
      SamePacket(b.mem, mem', h.pkt[i]);
    }
  }

  lemma HeaderUntouched(mem: Memory, iov: nat, len: nat, src: seq<Payload>, n: nat, b: Batch)
    requires ReadThrough(mem, iov, len, src, n, b)
    ensures Agree(mem, b.mem, iov, len)
  {
    hide WordAt, HeaderAt, PacketAt, Sound;
    var ptrs := HeaderAt(mem, iov, len).pkt;
    forall k | iov <= k < iov + len ensures Outside(mem, ptrs, src, n, k) {
      forall i | 0 <= i < n ensures !(ptrs[i] <= k < ptrs[i] + 4 + |Truncated(mem, ptrs[i], src[i])|) {
        assert Apart(iov, len, ptrs[i], Extent(mem, ptrs[i]));
      }
    }
  }

  /** Storing a count changes the count of a header and nothing else of it. */
  lemma CountStored(mem: Memory, m: Memory, iov: nat, len: nat, n: u32)
    requires HeaderLen(1) <= len && Accessible(mem, iov, len) && Agree(mem, m, iov, len)
    ensures var m' := PutWord(m, iov, n);
            Accessible(m', iov, len) && HeaderAt(m', iov, len) == Header(n, HeaderAt(mem, iov, len).pkt)
  {
    hide WordAt, PutWord;
    WordOfPutWord(m, iov, n);
    CountElsewhere(m, iov, n, iov + 4, len - 4);
    SamePointers(mem, PutWord(m, iov, n), iov, len);
  }

  lemma CountElsewhere(m: Memory, iov: nat, n: u32, a: nat, k: nat)
    requires Apart(iov, 4, a, k)
    ensures Agree(m, PutWord(m, iov, n), a, k)
  {
    PutElsewhere(m, iov, Ordered(m.order, Digits(n, 4)), a, k);
  }

  /** The count and length a successful read returns pass every check of a write. */
  lemma ReadHeaderIsWritable(mem: Memory, iov: nat, len: nat, n: nat)
    requires HeaderLen(1) <= len && Accessible(mem, iov, len)
    requires 0 < n && HeaderLen(n) <= len && HeaderAt(mem, iov, len).count == n
    ensures Refusal(mem, iov, HeaderLen(n), NoCallFaults) == 0
    ensures HeaderAt(mem, iov, HeaderLen(n)) == Header(n, HeaderAt(mem, iov, len).pkt[..n])
  {
    hide HeaderAt;
    ShorterHeader(mem, iov, len, HeaderLen(n));
  }

  /** Every packet that may be stored is one for which a write can allocate. */
  predicate RoomForAll(mem: Memory, ptrs: seq<nat>, src: seq<Payload>) {
    forall i :: 0 <= i < |ptrs| && i < |src| && Accessible(mem, ptrs[i], 4) ==>
      HasRoom(|Truncated(mem, ptrs[i], src[i])|)
  }

  /** The packets a read stored are those a write accepts and delivers, as long as their buffers can be allocated. */
  lemma WriteSeesWhatReadStored(mem: Memory, mem': Memory, ptrs: seq<nat>, src: seq<Payload>, n: u32,
                                faults: nat -> WriteFault)
    requires n <= |ptrs| && n <= |src| && NoWriteFaults(faults) && Filled(mem, mem', ptrs, src, n)
    requires RoomForAll(mem, ptrs, src)
    ensures var h := Header(n, ptrs[..n]);
            var sent := Delivery(mem', h, faults);
            && LoopOutcome(mem', h, faults) == Accepted && |sent| == n
            && forall i :: 0 <= i < n ==> Accessible(mem, ptrs[i], 4) && sent[i] == Truncated(mem, ptrs[i], src[i])
  {
    hide OutcomeOf, WordAt, PacketAt, Truncated, HasRoom;
    forall i | 0 <= i < n ensures OutcomeOf(mem', ptrs[i], faults(i)) == Accepted {
      AcceptedIsSound(mem', ptrs[i], faults(i));
    }
  }

  /** `was` followed by the packets `src`, each cut to the buffer it went through. */
  ghost predicate Echoed(received: seq<Payload>, was: seq<Payload>, mem: Memory, ptrs: seq<nat>, src: seq<Payload>,
                         n: nat)
    requires n <= |ptrs| && n <= |src|
  {
    && |received| == |was| + n && received[..|was|] == was
    && forall i :: 0 <= i < n ==>
         Accessible(mem, ptrs[i], 4) && received[|was| + i] == Truncated(mem, ptrs[i], src[i])
  }

  lemma NothingEchoed(received: seq<Payload>, mem: Memory, ptrs: seq<nat>, src: seq<Payload>)
    ensures Echoed(received, received, mem, ptrs, src, 0)
  {
  }

  /** The second half of an echo: writing back a header whose buffers a read filled. */
  method WriteBack(dev: NetDev, user: UserSpace, iov: nat, n: u32, writes: nat -> WriteFault,
                   ghost mem: Memory, ghost ptrs: seq<nat>, ghost src: seq<Payload>)
    returns (put: int, halted: bool)
    requires 0 < n <= |ptrs| && n <= |src| && Refusal(user.mem, iov, HeaderLen(n), NoCallFaults) == 0
    requires HeaderAt(user.mem, iov, HeaderLen(n)) == Header(n, ptrs[..n])
    requires Filled(mem, user.mem, ptrs, src, n) && RoomForAll(mem, ptrs, src) && NoWriteFaults(writes)
    modifies dev`rxPackets, dev`rxBytes, dev`received, user
    ensures !halted && put == 4 + 8 * n && Echoed(dev.received, old(dev.received), mem, ptrs, src, n)
  {
    hide Refusal, HeaderAt, Filled, RoomForAll, Truncated, Delivery, LoopOutcome, WordAt, PacketAt;
    WriteSeesWhatReadStored(mem, user.mem, ptrs, src, n, writes);
    put, halted := IoWrite(dev, user, iov, HeaderLen(n), NoCallFaults, writes);
  }

  /**
   Read a batch into sound separate buffers, then write the same header back
   with the length just returned: the network stack receives the packets the
   queue held, in order, each cut to its buffer, and the same length comes back.
   */
  method Echo(dev: NetDev, user: UserSpace, iov: nat, len: nat, fills: nat -> FillFault, writes: nat -> WriteFault)
    returns (got: int, put: int, halted: bool)
    requires dev.Valid() && Refusal(user.mem, iov, len, NoCallFaults) == 0
    requires Ready(user.mem, iov, len) && HeaderApart(user.mem, iov, len)
    requires NoFillFaults(fills) && NoWriteFaults(writes)
    requires RoomForAll(user.mem, HeaderAt(user.mem, iov, len).pkt, Payloads(dev.queue.contents))
    modifies dev, dev.queue, dev.queue.contents, user
    ensures var q, h := old(dev.queue.contents), HeaderAt(old(user.mem), iov, len);
            var n := Min(h.count, |q|);
            && dev.queue.contents == q[n..] && dev.freed == old(dev.freed) + q[..n]
            && !halted && got == put == (if n == 0 then -11 else 4 + 8 * n)
            && Echoed(dev.received, old(dev.received), old(user.mem), h.pkt, Payloads(q), n)
  {
    hide ReadBatch, FilledFrom, Ready, HeaderApart, Truncated, RoomForAll, HeaderAt, Filled,
         Echoed, PutWord;
    ghost var q, mem, was := dev.queue.contents, user.mem, dev.received;
    AcceptedHeader(mem, iov, len, NoCallFaults);
    ghost var h := HeaderAt(mem, iov, len);
    ghost var n := Min(h.count, |q|);
    ghost var b := BatchOf(mem, iov, len, q, fills);
    ReadMeaning(mem, iov, len, q, fills);
    FilledCounts(mem, h.pkt, Payloads(q), n, b);
    got := IoRead(dev, user, iov, len, NoCallFaults, fills);
    put, halted := got, false;
    if got > 0 {
      ReadThenCount(mem, iov, len, Payloads(q), n, b);
      ReadHeaderIsWritable(user.mem, iov, len, n);
      put, halted := WriteBack(dev, user, iov, WordAt(user.mem, iov), writes, mem, h.pkt, Payloads(q));
    } else {
      NothingEchoed(dev.received, mem, h.pkt, Payloads(q));
    }
  }
}
