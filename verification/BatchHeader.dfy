/** The batch header at the start of every read and write of the device file. */
module BatchHeader {
  import opened Errno
  import opened MachineInts
  import opened PacketQueue
  import opened UserMemory

  /** The kernel's copy of `struct kvnet_header`: a count and the user addresses of packets. */
  datatype Header = Header(count: u32, pkt: seq<nat>)

  /** How the kernel services around the loop fail: no memory, or a fault copying the header in or out. */
  datatype CallFaults = CallFaults(noMemory: bool, copyIn: bool, copyOut: bool)

  const NoCallFaults := CallFaults(false, false, false)

  /** Bytes of a header for `count` packets: four for the count, eight for each pointer. */
  function HeaderLen(count: nat): nat {
    4 + 8 * count
  }

  /** The header in `len` bytes at `iov`, as `memcpy_fromiovecend` copies it. */
  function HeaderAt(m: Memory, iov: nat, len: nat): (h: Header)
    requires HeaderLen(1) <= len && Accessible(m, iov, len)
    ensures |h.pkt| == (len - 4) / 8 && h.count == WordAt(m, iov)
    ensures forall i :: 0 <= i < |h.pkt| ==> h.pkt[i] == PointerAt(m, iov + 4 + 8 * i)
  {
    Header(WordAt(m, iov), seq((len - 4) / 8, i requires 0 <= i < (len - 4) / 8 && Accessible(m, iov, len) =>
      PointerAt(m, iov + HeaderLen(i))))
  }

  /** What both calls answer before they look at any packet; 0 when they go on. */
  function Refusal(m: Memory, iov: nat, len: nat, k: CallFaults): int {
    if len < HeaderLen(1) then -EINVAL
    else if k.noMemory then -ENOMEM
    else if k.copyIn || !Accessible(m, iov, len) then -EFAULT
    else
      var count := HeaderAt(m, iov, len).count;
      if count == 0 || len < HeaderLen(count) then -EINVAL else 0
  }

  /** The cause of every refusal, and what is accepted. */
  lemma RefusalMeaning(m: Memory, iov: nat, len: nat, k: CallFaults)
    ensures var r := Refusal(m, iov, len, k);
            && (len < 12 ==> r == -22)
            && (len >= 12 && k.noMemory ==> r == -12)
            && (len >= 12 && !k.noMemory && (k.copyIn || !Accessible(m, iov, len)) ==> r == -14)
            && (len >= 12 && !k.noMemory && !k.copyIn && Accessible(m, iov, len) ==>
                  var count := WordAt(m, iov);
                  r == if 0 < count && 4 + 8 * count <= len then 0 else -22)
  {
  }

  /** A header stored in memory, its count and then its pointers, is the header the calls read. */
  lemma HeaderRoundTrip(m: Memory, iov: nat, count: u32, ptrs: seq<nat>)
    requires ptrs != [] && Accessible(m, iov, 4 + 8 * |ptrs|)
    requires forall i :: 0 <= i < |ptrs| ==> ptrs[i] < 0x1_0000_0000_0000_0000
    ensures var m' := PutPointers(PutWord(m, iov, count), iov + 4, ptrs);
            && Accessible(m', iov, 4 + 8 * |ptrs|)
            && HeaderAt(m', iov, 4 + 8 * |ptrs|) == Header(count, ptrs)
  {
    hide PutWord, PutPointers, WordAt, PointerAt;
    var m1 := PutWord(m, iov, count);
    var m2 := PutPointers(m1, iov + 4, ptrs);
    assert Accessible(m1, iov, 4 + 8 * |ptrs|) && Accessible(m2, iov, 4 + 8 * |ptrs|);
    WordOfPutWord(m, iov, count);
    BeforePointers(m1, iov + 4, ptrs, iov, 4);
    AgreeingGets(m1, m2, iov, 4);
    var h := HeaderAt(m2, iov, 4 + 8 * |ptrs|);
    forall i | 0 <= i < |ptrs| ensures h.pkt[i] == ptrs[i] {
      PointersOfPut(m1, iov + 4, ptrs, i);
      assert iov + 4 + 8 * i == (iov + 4) + 8 * i;
    }
  }

  /** What the checks promise the loops: at least one packet, and every pointer they use inside the copied header. */
  lemma AcceptedHeader(m: Memory, iov: nat, len: nat, k: CallFaults)
    requires Refusal(m, iov, len, k) == 0
    ensures HeaderLen(1) <= len && Accessible(m, iov, len)
    ensures var h := HeaderAt(m, iov, len); 0 < h.count <= |h.pkt| && HeaderLen(h.count) <= len
  {
  }

  /** A shorter header at the same place has the same count and the first of the same pointers. */
  lemma ShorterHeader(m: Memory, iov: nat, len: nat, shorter: nat)
    requires HeaderLen(1) <= shorter <= len && Accessible(m, iov, len)
    ensures Accessible(m, iov, shorter)
    ensures var h, h' := HeaderAt(m, iov, len), HeaderAt(m, iov, shorter);
            h'.count == h.count && h'.pkt == h.pkt[..|h'.pkt|]
  {
  }

  /** Memories that agree on a header but for its count hold the same pointers. */
  lemma SamePointers(m: Memory, m': Memory, iov: nat, len: nat)
    requires HeaderLen(1) <= len && Accessible(m, iov, len) && Agree(m, m', iov + 4, len - 4)
    ensures Accessible(m', iov, len) && HeaderAt(m', iov, len).pkt == HeaderAt(m, iov, len).pkt
  {
    forall i | 0 <= i < (len - 4) / 8
      ensures Accessible(m', iov, len) && PointerAt(m', iov + HeaderLen(i)) == PointerAt(m, iov + HeaderLen(i))
    {
      AgreeingGets(m, m', iov + HeaderLen(i), 8);
    }
  }

  // ---------------------------------------------------------------- the packets it points to

  /** How many bytes `struct kvnet_packet` at `p` says it has. */
  function Extent(m: Memory, p: nat): nat
    requires Accessible(m, p, 4)
  {
    4 + WordAt(m, p)
  }

  /** A packet that can be read and written as far as it says. */
  predicate Sound(m: Memory, p: nat) {
    Accessible(m, p, 4) && Accessible(m, p, Extent(m, p))
  }

  function PacketAt(m: Memory, p: nat): (data: Payload)
    requires Sound(m, p)
    ensures |data| == WordAt(m, p) && forall i :: 0 <= i < |data| ==> data[i] == m.at[p + 4 + i]
  {
    Get(m, p + 4, WordAt(m, p))
  }

  lemma SamePacket(m: Memory, m': Memory, p: nat)
    requires Sound(m, p) && Agree(m, m', p, Extent(m, p))
    ensures Sound(m', p) && PacketAt(m', p) == PacketAt(m, p)
  {
    hide WordAt, Get;
    AgreeingGets(m, m', p, 4);
    AgreeingGets(m, m', p + 4, WordAt(m, p));
  }
}
