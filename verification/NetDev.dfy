/**
 The transmit side of `net_dev.c`: sending into the queue, draining it, and
 bringing the interface up and down.
 */
module NetDev {
  import opened MachineInts
  import opened PacketQueue

  /** `net_dev` of `struct vnet` together with its `struct net_device`. */
  class NetDev {
    const queue: Queue
    const txQueueLen: i32
    var connected: bool
    var txDropped: u32
    var txPackets: u32
    var txBytes: u32
    var rxPackets: u32
    var rxBytes: u32

    /** What `netif_rx_ni` has handed to the network stack, in order. */
    ghost var received: seq<Payload>

    /** The packets given back with `kfree_skb`, in order. */
    ghost var freed: seq<Packet>

    /** No packet is freed twice, none is freed while queued, and the queue respects its limit. */
    ghost predicate Valid()
      reads this, queue, queue.contents
    {
      && queue.Valid()
      && 0 <= txQueueLen
      && |queue.contents| <= txQueueLen
      && (forall i, j :: 0 <= i < j < |freed| ==> freed[i] != freed[j])
      && (forall p :: p in freed ==> p !in queue.contents)
    }

    /** Queue, connection flag and statistics of a fresh `struct vnet`. */
    constructor (txQueueLen: i32)
      requires 0 <= txQueueLen
      ensures Valid() && fresh(queue) && queue.State() == QueueView([], false)
      ensures this.txQueueLen == txQueueLen && !connected && freed == [] && received == []
      ensures txDropped == txPackets == txBytes == rxPackets == rxBytes == 0
    {
      queue := new Queue();
      this.txQueueLen := txQueueLen;
      connected, freed, received := false, [], [];
      txDropped, txPackets, txBytes, rxPackets, rxBytes := 0, 0, 0, 0, 0;
    }

    /** `kfree_skb`. */
    method Free(skb: Packet)
      requires Valid() && skb !in queue.contents && skb !in freed
      modifies this`freed
      ensures Valid() && freed == old(freed) + [skb]
    {
      freed := freed + [skb];
    }

    /** `queue_remove`: the packet that leaves belongs to the caller alone. */
    method Take() returns (skb: Packet?)
      requires Valid()
      modifies queue, queue.contents
      ensures Valid() && queue.enabled == old(queue.enabled)
      ensures old(queue.contents) == [] ==> skb == null && queue.contents == []
      ensures old(queue.contents) != [] ==>
                && skb == old(queue.contents)[0] && queue.contents == old(queue.contents)[1..]
                && skb !in queue.contents && skb !in freed
    {
      skb := queue.Remove();
    }

    /** `net_dev_send`; the result says whether readers are woken. */
    method Send(skb: Packet) returns (woken: bool)
      requires Valid() && skb !in queue.contents && skb !in freed
      modifies this`txDropped, this`freed, queue, skb`next, queue.contents
      ensures Valid()
      ensures queue.enabled == old(queue.enabled)
      ensures woken <==> old(queue.enabled) && |old(queue.contents)| < txQueueLen
      ensures woken ==>
                && queue.contents == old(queue.contents) + [skb]
                && freed == old(freed) && txDropped == old(txDropped)
      ensures !woken ==>
                && queue.contents == old(queue.contents)
                && freed == old(freed) + [skb] && txDropped == Wrap32(old(txDropped) + 1)
    {
      var len := queue.Len();
      if !queue.enabled || len >= txQueueLen {
        txDropped := Wrap32(txDropped + 1);
        Free(skb);
        return false;
      }
      queue.Insert(skb);
      return true;
    }

    /** The part of `net_dev_flush_tx_queue` under the queue lock. */
    method Drain() returns (flushed: nat)
      requires Valid()
      modifies this`freed, queue, queue.contents
      ensures Valid() && queue.contents == [] && queue.enabled == old(queue.enabled)
      ensures freed == old(freed) + old(queue.contents) && flushed == |old(queue.contents)|
    {
      ghost var was, q := freed, queue.contents;
      flushed := 0;
      var skb := Take();
      while skb != null
        invariant Valid() && queue.enabled == old(queue.enabled)
        invariant flushed <= |q| && freed == was + q[..flushed]
        invariant skb == null ==> flushed == |q| && queue.contents == []
        invariant skb != null ==>
                    && flushed < |q| && skb == q[flushed] && queue.contents == q[flushed + 1..]
                    && skb !in freed && skb !in queue.contents
        decreases |queue.contents|, skb != null
      {
        Free(skb);
        flushed := flushed + 1;
        assert q[..flushed] == q[..flushed - 1] + [skb];
        skb := Take();
      }
    }

    method CountDropped(flushed: nat)
      modifies this`txDropped
      ensures txDropped == Wrap32(old(txDropped) + flushed)
    {
      txDropped := Wrap32(txDropped + flushed);
    }

    /** `net_dev_flush_tx_queue`. */
    method FlushTxQueue()
      requires Valid()
      modifies this`txDropped, this`freed, queue, queue.contents
      ensures Valid() && queue.contents == [] && queue.enabled == old(queue.enabled)
      ensures freed == old(freed) + old(queue.contents)
      ensures txDropped == Wrap32(old(txDropped) + |old(queue.contents)|)
    {
      var flushed := Drain();
      CountDropped(flushed);
    }

    /** One more packet in `tx_packets`. */
    method CountPacket()
      modifies this`txPackets
      ensures txPackets == Wrap32(old(txPackets) + 1)
    {
      txPackets := Wrap32(txPackets + 1);
    }

    method CountBytes(len: u32)
      modifies this`txBytes
      ensures txBytes == Wrap32(old(txBytes) + len)
    {
      txBytes := Wrap32(txBytes + len);
    }

    /** `net_dev_open`. */
    method Open()
      requires Valid()
      modifies this`connected, queue`enabled
      ensures Valid() && connected && queue.enabled && queue.contents == old(queue.contents)
    {
      queue.Enable(true);
      connected := true;
    }

    /** `net_dev_close`: afterwards nothing is queued and nothing can be. */
    method Close()
      requires Valid()
      modifies this`connected, this`txDropped, this`freed, queue, queue.contents
      ensures Valid() && !connected && queue.contents == []
      ensures queue.State() == QueueView([], false)
      ensures freed == old(freed) + old(queue.contents)
      ensures txDropped == Wrap32(old(txDropped) + |old(queue.contents)|)
    {
      queue.Enable(false);
      FlushTxQueue();
      connected := false;
    }
  }
}
