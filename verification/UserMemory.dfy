/** User memory as the kernel sees it: bytes at addresses, some of which cannot be reached. */
module UserMemory {
  import opened MachineInts

  datatype Memory = Memory(order: Endian, at: map<nat, byte>)

  class UserSpace {
    var mem: Memory

    constructor (mem: Memory)
      ensures this.mem == mem
    {
      this.mem := mem;
    }
  }

  // ---------------------------------------------------------------- numbers as bytes

  /** The number whose base-256 digits are `s`, the lowest first. */
  function Number(s: seq<byte>): nat {
    if s == [] then 0 else s[0] + 256 * Number(s[1..])
  }

  function Digits(v: nat, n: nat): (s: seq<byte>)
    ensures |s| == n
    decreases n
  {
    if n == 0 then [] else [v % 256] + Digits(v / 256, n - 1)
  }

  /** How many numbers have `n` digits. */
  function Capacity(n: nat): nat {
    if n == 0 then 1 else 256 * Capacity(n - 1)
  }

  lemma {:induction false} NumberBound(s: seq<byte>)
    ensures Number(s) < Capacity(|s|)
  {
    if s != [] {
      NumberBound(s[1..]);
    }
  }

  lemma {:induction false} NumberOfDigits(v: nat, n: nat)
    requires v < Capacity(n)
    ensures Number(Digits(v, n)) == v
    decreases n
  {
    if n > 0 {
      NumberOfDigits(v / 256, n - 1);
      assert Digits(v, n)[1..] == Digits(v / 256, n - 1);
    }
  }

  lemma {:induction false} DigitsOfNumber(s: seq<byte>)
    ensures Digits(Number(s), |s|) == s
  {
    if s != [] {
      DigitsOfNumber(s[1..]);
      assert Number(s) % 256 == s[0] && Number(s) / 256 == Number(s[1..]);
    }
  }

  lemma Capacities()
    ensures Capacity(4) == 0x1_0000_0000 && Capacity(8) == 0x1_0000_0000_0000_0000
  {
    assert Capacity(2) == 0x1_0000 && Capacity(6) == 0x1_0000_0000_0000;
  }

  /** `s` from the highest digit to the lowest on a big-endian host, and back. */
  function Ordered(e: Endian, s: seq<byte>): (r: seq<byte>)
    ensures |r| == |s|
  {
    if e.Big? then seq(|s|, i requires 0 <= i < |s| => s[|s| - 1 - i]) else s
  }

  lemma OrderedTwice(e: Endian, s: seq<byte>)
    ensures Ordered(e, Ordered(e, s)) == s
  {
  }

  // ---------------------------------------------------------------- bytes at addresses

  /** The `n` bytes at `a` can be read and written. */
  predicate Accessible(m: Memory, a: nat, n: nat) {
    forall k :: a <= k < a + n ==> k in m.at
  }

  function Get(m: Memory, a: nat, n: nat): (s: seq<byte>)
    requires Accessible(m, a, n)
    ensures |s| == n && forall i :: 0 <= i < n ==> s[i] == m.at[a + i]
  {
    seq(n, i requires 0 <= i < n && Accessible(m, a, n) => m.at[a + i])
  }

  function Put(m: Memory, a: nat, s: seq<byte>): (r: Memory)
    ensures r.order == m.order && r.at.Keys == m.at.Keys
    ensures forall k :: k in m.at ==> r.at[k] == if a <= k < a + |s| then s[k - a] else m.at[k]
  {
    m.(at := map k | k in m.at :: if a <= k < a + |s| then s[k - a] else m.at[k])
  }

  /** How many of the `n` bytes at `a` come before the first that cannot be reached. */
  function Reach(m: Memory, a: nat, n: nat): (r: nat)
    ensures r <= n && Accessible(m, a, r) && (r < n ==> a + r !in m.at)
    decreases n
  {
    if n == 0 || a !in m.at then 0 else 1 + Reach(m, a + 1, n - 1)
  }

  /** The `unsigned int` at `a`. */
  function WordAt(m: Memory, a: nat): u32
    requires Accessible(m, a, 4)
  {
    var digits := Ordered(m.order, Get(m, a, 4));
    NumberBound(digits);
    Capacities();
    Number(digits)
  }

  function PutWord(m: Memory, a: nat, v: u32): (r: Memory)
    ensures r.order == m.order && r.at.Keys == m.at.Keys
  {
    Put(m, a, Ordered(m.order, Digits(v, 4)))
  }

  /** The pointer at `a`. */
  function PointerAt(m: Memory, a: nat): nat
    requires Accessible(m, a, 8)
  {
    Number(Ordered(m.order, Get(m, a, 8)))
  }

  function PutPointer(m: Memory, a: nat, v: nat): (r: Memory)
    ensures r.order == m.order && r.at.Keys == m.at.Keys
  {
    Put(m, a, Ordered(m.order, Digits(v, 8)))
  }

  /** Eight bytes for each of `ptrs`, from `a` on. */
  function PutPointers(m: Memory, a: nat, ptrs: seq<nat>): (r: Memory)
    ensures r.order == m.order && r.at.Keys == m.at.Keys
  {
    if ptrs == [] then m
    else
      var k := |ptrs| - 1;
      PutPointer(PutPointers(m, a, ptrs[..k]), a + 8 * k, ptrs[k])
  }

  /** Both memories hold the same `n` bytes at `a`. */
  predicate Agree(m: Memory, m': Memory, a: nat, n: nat) {
    m.order == m'.order && m.at.Keys == m'.at.Keys
    && forall k :: a <= k < a + n && k in m.at ==> m'.at[k] == m.at[k]
  }

  predicate Apart(a: nat, n: nat, b: nat, k: nat) {
    a + n <= b || b + k <= a
  }

  lemma AgreeingGets(m: Memory, m': Memory, a: nat, n: nat)
    requires Agree(m, m', a, n) && Accessible(m, a, n)
    ensures Accessible(m', a, n) && Get(m', a, n) == Get(m, a, n)
    ensures n >= 4 ==> WordAt(m', a) == WordAt(m, a)
    ensures n == 8 ==> PointerAt(m', a) == PointerAt(m, a)
  {
    if n >= 4 {
      assert Get(m', a, 4) == Get(m, a, 4);
    }
  }

  lemma PutElsewhere(m: Memory, a: nat, s: seq<byte>, b: nat, n: nat)
    requires Apart(a, |s|, b, n)
    ensures Agree(m, Put(m, a, s), b, n)
  {
  }

  lemma GetOfPut(m: Memory, a: nat, s: seq<byte>)
    requires Accessible(m, a, |s|)
    ensures Accessible(Put(m, a, s), a, |s|) && Get(Put(m, a, s), a, |s|) == s
  {
  }

  lemma WordOfPutWord(m: Memory, a: nat, v: u32)
    requires Accessible(m, a, 4)
    ensures Accessible(PutWord(m, a, v), a, 4) && WordAt(PutWord(m, a, v), a) == v
  {
    hide Ordered, Digits, Number, Put;
    Capacities();
    NumberOfDigits(v, 4);
    GetOfPut(m, a, Ordered(m.order, Digits(v, 4)));
    OrderedTwice(m.order, Digits(v, 4));
  }

  /** Storing the word that is there already changes nothing. */
  lemma PutSameWord(m: Memory, a: nat)
    requires Accessible(m, a, 4)
    ensures PutWord(m, a, WordAt(m, a)) == m
  {
    hide Ordered, Digits, Number, Put;
    var s := Get(m, a, 4);
    DigitsOfNumber(Ordered(m.order, s));
    OrderedTwice(m.order, s);
    assert Put(m, a, s).at == m.at;
  }

  /** A word has its lowest digit at its lowest address on a little-endian host, at its highest on a big-endian one. */
  lemma WordBytes(m: Memory, a: nat)
    requires Accessible(m, a, 4)
    ensures var b0: int, b1: int, b2: int, b3: int := m.at[a], m.at[a + 1], m.at[a + 2], m.at[a + 3];
            && (m.order.Little? ==> WordAt(m, a) == b0 + 0x100 * b1 + 0x1_0000 * b2 + 0x100_0000 * b3)
            && (m.order.Big? ==> WordAt(m, a) == b3 + 0x100 * b2 + 0x1_0000 * b1 + 0x100_0000 * b0)
  {
    var s := Ordered(m.order, Get(m, a, 4));
    FourDigits(s[0], s[1], s[2], s[3]);
    assert s == [s[0], s[1], s[2], s[3]];
  }

  lemma FourDigits(b0: byte, b1: byte, b2: byte, b3: byte)
    ensures var d0: int, d1: int, d2: int, d3: int := b0, b1, b2, b3;
            Number([b0, b1, b2, b3]) == d0 + 0x100 * d1 + 0x1_0000 * d2 + 0x100_0000 * d3
  {
    assert [b3][1..] == [];
    assert Number([b3]) == b3;
    assert [b2, b3][1..] == [b3];
    assert Number([b2, b3]) == b2 + 256 * Number([b3]);
    assert [b1, b2, b3][1..] == [b2, b3];
    assert Number([b1, b2, b3]) == b1 + 256 * Number([b2, b3]);
    assert [b0, b1, b2, b3][1..] == [b1, b2, b3];
  }

  /** A pointer is two words, the low one first on a little-endian host, second on a big-endian one. */
  lemma PointerWords(m: Memory, a: nat)
    requires Accessible(m, a, 8)
    ensures Accessible(m, a, 4) && Accessible(m, a + 4, 4)
    ensures var w0: int, w1: int := WordAt(m, a), WordAt(m, a + 4);
            PointerAt(m, a) == if m.order.Little? then w0 + 0x1_0000_0000 * w1 else w1 + 0x1_0000_0000 * w0
  {
    hide Number;
    var s, s0, s1 := Get(m, a, 8), Get(m, a, 4), Get(m, a + 4, 4);
    assert s == s0 + s1;
    if m.order.Little? {
      LowerHalfFirst(s0, s1);
    } else {
      LowerHalfFirst(Ordered(Big, s1), Ordered(Big, s0));
      assert Ordered(Big, s) == Ordered(Big, s1) + Ordered(Big, s0);
    }
  }

  lemma LowerHalfFirst(s0: seq<byte>, s1: seq<byte>)
    requires |s0| == |s1| == 4
    ensures Number(s0 + s1) == Number(s0) + 0x1_0000_0000 * Number(s1)
  {
    Capacities();
    NumberOfConcat(s0, s1);
  }

  lemma {:induction false} NumberOfConcat(a: seq<byte>, b: seq<byte>)
    ensures Number(a + b) == Number(a) + Capacity(|a|) * Number(b)
  {
    if a == [] {
      assert a + b == b;
    } else {
      NumberOfConcat(a[1..], b);
      assert (a + b)[1..] == a[1..] + b;
      assert 256 * (Capacity(|a| - 1) * Number(b)) == Capacity(|a|) * Number(b);
    }
  }

  /** A stored pointer reads back. */
  lemma PointerOfPutPointer(m: Memory, a: nat, v: nat)
    requires Accessible(m, a, 8) && v < 0x1_0000_0000_0000_0000
    ensures PointerAt(PutPointer(m, a, v), a) == v
  {
    hide Ordered, Digits, Number, Put;
    Capacities();
    NumberOfDigits(v, 8);
    GetOfPut(m, a, Ordered(m.order, Digits(v, 8)));
    OrderedTwice(m.order, Digits(v, 8));
  }

  /** So does a stored array of pointers, each at its own address, and what is before it stays. */
  lemma {:induction false} PointersOfPut(m: Memory, a: nat, ptrs: seq<nat>, i: nat)
    requires Accessible(m, a, 8 * |ptrs|) && i < |ptrs|
    requires forall j :: 0 <= j < |ptrs| ==> ptrs[j] < 0x1_0000_0000_0000_0000
    ensures Accessible(PutPointers(m, a, ptrs), a + 8 * i, 8)
    ensures PointerAt(PutPointers(m, a, ptrs), a + 8 * i) == ptrs[i]
  {
    hide PointerAt, PutPointer;
    var k := |ptrs| - 1;
    var before := PutPointers(m, a, ptrs[..k]);
    if i == k {
      PointerOfPutPointer(before, a + 8 * k, ptrs[k]);
    } else {
      PointersOfPut(m, a, ptrs[..k], i);
      PointerElsewhere(before, a + 8 * k, ptrs[k], a + 8 * i, 8);
      AgreeingGets(before, PutPointers(m, a, ptrs), a + 8 * i, 8);
    }
  }

  lemma PointerElsewhere(m: Memory, a: nat, v: nat, b: nat, n: nat)
    requires Apart(a, 8, b, n)
    ensures Agree(m, PutPointer(m, a, v), b, n)
  {
    PutElsewhere(m, a, Ordered(m.order, Digits(v, 8)), b, n);
  }

  lemma {:induction false} BeforePointers(m: Memory, a: nat, ptrs: seq<nat>, b: nat, n: nat)
    requires b + n <= a
    ensures Agree(m, PutPointers(m, a, ptrs), b, n)
  {
    if ptrs != [] {
      var k := |ptrs| - 1;
      BeforePointers(m, a, ptrs[..k], b, n);
      PointerElsewhere(PutPointers(m, a, ptrs[..k]), a + 8 * k, ptrs[k], b, n);
    }
  }
}
