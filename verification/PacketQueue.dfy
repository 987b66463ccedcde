/**
 The packet queue of `queue.c`: what it holds as a value, and the linked
 structure through the packets' own `next` fields that implements it.
 */
module PacketQueue {
  import opened MachineInts

  /** The queue as other parts of the driver see it: packet identities in order, and the enable flag. */
  datatype QueueView = QueueView(ids: seq<nat>, enabled: bool) {
    function Enable(on: bool): QueueView {
      this.(enabled := on)
    }

    function Insert(id: nat): QueueView {
      this.(ids := ids + [id])
    }

    function Rest(): QueueView {
      this.(ids := if ids == [] then [] else ids[1..])
    }

    function Flushed(): QueueView {
      this.(ids := [])
    }

    /** Whether a send finds the queue enabled and below its limit. */
    predicate Accepts(limit: int) {
      enabled && |ids| < limit
    }
  }

  /** What a packet carries: its length is an `unsigned int`. */
  type Payload = s: seq<byte> | |s| < 0x1_0000_0000 witness []

  /** `struct sk_buff`, as far as the driver looks at it. */
  class Packet {
    const id: nat
    const data: Payload
    var next: Packet?

    constructor (id: nat, data: Payload)
      ensures this.id == id && this.data == data && next == null
    {
      this.id, this.data, next := id, data, null;
    }
  }

  function Ids(s: seq<Packet>): (ids: seq<nat>)
    ensures |ids| == |s| && forall i :: 0 <= i < |s| ==> ids[i] == s[i].id
  {
    seq(|s|, i requires 0 <= i < |s| => s[i].id)
  }

  /** `struct queue`. */
  class Queue {
    var head: Packet?
    var tail: Packet?
    var size: i32
    var enabled: bool
    ghost var contents: seq<Packet>

    /**
     The chain from `head` visits the contents in order and ends at `tail`.
     When the queue is empty, `tail` may still point at a packet that left.
     */
    ghost predicate Valid()
      reads this, contents
    {
      && size == |contents|
      && (forall i, j :: 0 <= i < j < |contents| ==> contents[i] != contents[j])
      && (forall i :: 0 <= i < |contents| - 1 ==> contents[i].next == contents[i + 1])
      && (if contents == [] then head == null
          else head == contents[0] && tail == contents[|contents| - 1] && contents[|contents| - 1].next == null)
    }

    ghost function State(): QueueView
      reads this
    {
      QueueView(Ids(contents), enabled)
    }

    /** `queue_init`. */
    constructor ()
      ensures Valid() && State() == QueueView([], false) && contents == []
    {
      head, tail, size, enabled, contents := null, null, 0, false, [];
    }

    /** `queue_enable`. */
    method Enable(enable: bool)
      requires Valid()
      modifies this`enabled
      ensures Valid() && enabled == enable && contents == old(contents)
    {
      enabled := enable;
    }

    /** `queue_is_empty`. */
    method IsEmpty() returns (empty: bool)
      requires Valid()
      ensures empty <==> contents == []
    {
      empty := size == 0;
    }

    /** `queue_len`. */
    method Len() returns (len: i32)
      requires Valid()
      ensures len == |contents|
    {
      len := size;
    }

    /** `queue_insert`: the packet must not be in the queue already. */
    method Insert(buf: Packet)
      requires Valid() && buf !in contents && size < INT_MAX
      modifies this, buf`next, contents
      ensures Valid() && contents == old(contents) + [buf] && enabled == old(enabled)
    {
      buf.next := null;
      if head == null {
        head, tail := buf, buf;
      } else {
        tail.next := buf;
        tail := buf;
      }
      size := size + 1;
      contents := contents + [buf];
    }

    /** `queue_remove`: null from an empty queue, otherwise the oldest packet, unlinked. */
    method Remove() returns (buf: Packet?)
      requires Valid()
      modifies this, contents
      ensures Valid() && enabled == old(enabled)
      ensures old(contents) == [] ==> buf == null && contents == []
      ensures old(contents) != [] ==>
                buf == old(contents)[0] && buf.next == null && contents == old(contents)[1..]
      ensures forall p :: p in contents ==> p.next == old(p.next)
    {
      buf := null;
      if head != null {
        buf := head;
        head := head.next;
        buf.next := null;
        size := size - 1;
        contents := contents[1..];
      }
    }

    /** `queue_close`: reports whether packets are left behind. */
    method Close() returns (leftover: bool)
      requires Valid()
      ensures leftover <==> contents != []
    {
      leftover := head != null;
    }

    /** Following `next` from `head` reads the queue back: acyclic, null-terminated, of length `size`. */
    ghost function Walk(p: Packet?, steps: nat): (s: seq<Packet>)
      reads *
    {
      if p == null || steps == 0 then [] else [p] + Walk(p.next, steps - 1)
    }

    lemma {:induction false} WalkReadsSuffix(k: nat, steps: nat)
      requires Valid() && k <= |contents| && |contents| - k <= steps
      ensures Walk(if k < |contents| then contents[k] else null, steps) == contents[k..]
      decreases |contents| - k
    {
      if k < |contents| {
        WalkReadsSuffix(k + 1, steps - 1);
        assert contents[k].next == if k + 1 < |contents| then contents[k + 1] else null;
        assert contents[k..] == [contents[k]] + contents[k + 1..];
      }
    }

    /** However far the walk is allowed to go, it stops after exactly `size` packets. */
    lemma ChainIsContents(steps: nat)
      requires Valid() && size <= steps
      ensures Walk(head, steps) == contents
    {
      WalkReadsSuffix(0, steps);
    }
  }
}
