/** The interpreter's two-region byte memory, as a value.

    The first half is the code's view: an access of 1, 2, 4 or 8 bytes is
    resolved to one region or rejected. The second half is the reader's view: a
    partial map from addresses to bytes. The lemmas connect the two, and
    characterise the bulk operations that the syscalls perform byte by byte. */
module FlatMemory {
  import opened Words

  const STACK_BASE: u64 := 0x1_0000_0000
  const HEAP_BASE: u64 := 0x3_0000_0000

  datatype MemoryValue = MemoryValue(heap: seq<u8>, stack: seq<u8>)

  /** Rust vectors hold at most isize::MAX bytes. */
  type Memory = m: MemoryValue | |m.heap| < 0x8000_0000_0000_0000 && |m.stack| < 0x8000_0000_0000_0000
    witness MemoryValue([], [])

  // ---- The code's view ----

  datatype Place = OnStack(off: nat) | OnHeap(off: nat) | Nowhere | Overflow

  /** Outcome of an access; `Overflows` is the panic of an unrepresentable
      `addr + size` (with overflow checks off the sum wraps, and slicing the
      stack at the out-of-range offset panics instead). */
  datatype Access<+T> = Got(value: T) | Rejected | Overflows

  function Resolve(heapLen: nat, stackLen: nat, addr: u64, size: nat): (p: Place)
    ensures p.OnStack? ==> p.off + size <= stackLen
    ensures p.OnHeap? ==> p.off + size <= heapLen
  {
    if addr < STACK_BASE then Nowhere
    else if addr + size >= 0x1_0000_0000_0000_0000 then Overflow
    else if addr + size <= STACK_BASE + stackLen then OnStack(addr - STACK_BASE)
    else if addr >= HEAP_BASE && addr + size <= HEAP_BASE + heapLen then OnHeap(addr - HEAP_BASE)
    else Nowhere
  }

  /** `resolve` to the letter, for either build: without overflow checks the sum
      wraps, and slicing a region behind its end panics. */
  function ResolveAsWritten(checks: bool, heapLen: nat, stackLen: nat, addr: u64, size: nat): Place {
    var sum := addr as int + size;
    if addr >= STACK_BASE && checks && sum >= 0x1_0000_0000_0000_0000 then Overflow
    else if addr >= STACK_BASE && Wrap64(sum) <= STACK_BASE as int + stackLen then
      if addr - STACK_BASE > stackLen then Overflow else OnStack(addr - STACK_BASE)
    else if addr >= HEAP_BASE && Wrap64(sum) <= HEAP_BASE as int + heapLen then
      if addr - HEAP_BASE > heapLen then Overflow else OnHeap(addr - HEAP_BASE)
    else Nowhere
  }

  /** Overflow checking does not matter to memory accesses: where the sum would
      overflow, one build panics on it and the other on the slice. */
  lemma ResolveIsSameInBothBuilds(checks: bool, m: Memory, addr: u64, size: nat)
    requires size <= 8
    ensures ResolveAsWritten(checks, |m.heap|, |m.stack|, addr, size) == Resolve(|m.heap|, |m.stack|, addr, size)
  {
    var sum := addr as int + size;
    if sum >= 0x1_0000_0000_0000_0000 {
      QuotientIs(sum, 0x1_0000_0000_0000_0000, 1, sum - 0x1_0000_0000_0000_0000);
    } else {
      QuotientIs(sum, 0x1_0000_0000_0000_0000, 0, sum);
    }
  }

  function Read(m: Memory, addr: u64, size: nat): (r: Access<nat>)
    ensures r.Got? && size <= 8 ==> r.value < 0x1_0000_0000_0000_0000
  {
    LeNatFits(m.stack);
    LeNatFits(m.heap);
    match Resolve(|m.heap|, |m.stack|, addr, size)
    case OnStack(off) => Got(LeNat(m.stack[off..off + size]))
    case OnHeap(off) => Got(LeNat(m.heap[off..off + size]))
    case Nowhere => Rejected
    case Overflow => Overflows
  }

  lemma LeNatFits(bytes: seq<u8>)
    ensures forall i, j | 0 <= i <= j <= |bytes| && j - i <= 8 :: LeNat(bytes[i..j]) < 0x1_0000_0000_0000_0000
  {
    forall i, j | 0 <= i <= j <= |bytes| && j - i <= 8
      ensures LeNat(bytes[i..j]) < 0x1_0000_0000_0000_0000
    {
      EightBytesFit(bytes[i..j]);
    }
  }

  lemma EightBytesFit(bs: seq<u8>)
    requires |bs| <= 8
    ensures LeNat(bs) < 0x1_0000_0000_0000_0000
  {
    hide Pow2, LeNat;
    var bits := 8 * |bs|;
    LeNatBound(bs);
    Pow2Adds(bits, 64 - bits);
    MulAtLeast(Pow2(bits), Pow2(64 - bits));
    Pow2Words();
  }

  function Splice(s: seq<u8>, off: nat, bs: seq<u8>): (r: seq<u8>)
    requires off + |bs| <= |s|
    ensures |r| == |s|
    ensures forall i :: 0 <= i < |s| ==> r[i] == if off <= i < off + |bs| then bs[i - off] else s[i]
  {
    s[..off] + bs + s[off + |bs|..]
  }

  function Write(m: Memory, addr: u64, size: nat, v: nat): (r: Access<Memory>)
    ensures r.Got? ==> |r.value.heap| == |m.heap| && |r.value.stack| == |m.stack|
  {
    match Resolve(|m.heap|, |m.stack|, addr, size)
    case OnStack(off) => Got(m.(stack := Splice(m.stack, off, LeBytes(v, size))))
    case OnHeap(off) => Got(m.(heap := Splice(m.heap, off, LeBytes(v, size))))
    case Nowhere => Rejected
    case Overflow => Overflows
  }

  // ---- The byte map ----

  predicate InStack(m: Memory, a: nat) { STACK_BASE <= a < STACK_BASE + |m.stack| }

  predicate InHeap(m: Memory, a: nat) { HEAP_BASE <= a < HEAP_BASE + |m.heap| }

  predicate Mapped(m: Memory, a: nat) { InStack(m, a) || InHeap(m, a) }

  function ByteAt(m: Memory, a: nat): Option<u8> {
    if InStack(m, a) then Some(m.stack[a - STACK_BASE])
    else if InHeap(m, a) then Some(m.heap[a - HEAP_BASE])
    else None
  }

  /** `read_u8(a).unwrap_or(0)` */
  function ByteOr0(m: Memory, a: nat): u8 { ByteAt(m, a).GetOr(0) }

  /** `let _ = write_u8(a, b)`: a store to an unmapped address is dropped. */
  function PutByte(m: Memory, a: nat, b: u8): (r: Memory)
    ensures |r.heap| == |m.heap| && |r.stack| == |m.stack|
    ensures forall x: nat :: ByteAt(r, x) == if x == a && Mapped(m, a) then Some(b) else ByteAt(m, x)
  {
    if InStack(m, a) then m.(stack := m.stack[a - STACK_BASE := b])
    else if InHeap(m, a) then m.(heap := m.heap[a - HEAP_BASE := b])
    else m
  }

  function Fetch(m: Memory, a: nat, n: nat): (bs: seq<u8>)
    ensures |bs| == n
    ensures forall i :: 0 <= i < n ==> bs[i] == ByteOr0(m, a + i)
  {
    seq<u8>(n, i requires 0 <= i < n => ByteOr0(m, a + i))
  }

  /** Byte-by-byte stores at a, a+1, ... */
  function Store(m: Memory, a: nat, bs: seq<u8>): (r: Memory)
    ensures |r.heap| == |m.heap| && |r.stack| == |m.stack|
    decreases |bs|
  {
    if bs == [] then m
    else PutByte(Store(m, a, bs[..|bs| - 1]), a + |bs| - 1, bs[|bs| - 1])
  }

  /** The in-order copy loop: byte i is read after bytes 0..i-1 were written. */
  function CopyInOrder(m: Memory, dst: nat, src: nat, n: nat): (r: Memory)
    ensures |r.heap| == |m.heap| && |r.stack| == |m.stack|
  {
    if n == 0 then m
    else
      var before := CopyInOrder(m, dst, src, n - 1);
      PutByte(before, dst + n - 1, ByteOr0(before, src + n - 1))
  }

  lemma {:induction false} StoredBytes(m: Memory, a: nat, bs: seq<u8>, x: nat)
    ensures ByteAt(Store(m, a, bs), x) ==
            if Mapped(m, x) && a <= x < a + |bs| then Some(bs[x - a]) else ByteAt(m, x)
    decreases |bs|
  {
    if bs != [] { StoredBytes(m, a, bs[..|bs| - 1], x); }
  }

  // ---- The two views agree exactly when the regions do not interleave ----

  /** The stack ends before the heap begins, or shadows the whole heap. */
  predicate Coherent(m: Memory) {
    STACK_BASE + |m.stack| <= HEAP_BASE || HEAP_BASE + |m.heap| <= STACK_BASE + |m.stack|
  }

  /** One region covers the whole range. */
  predicate OneRegion(m: Memory, a: nat, n: nat) {
    (STACK_BASE <= a && a + n <= STACK_BASE + |m.stack|) || (HEAP_BASE <= a && a + n <= HEAP_BASE + |m.heap|)
  }

  lemma LeNatSingle(bs: seq<u8>)
    requires |bs| == 1
    ensures LeNat(bs) == bs[0]
  {
    assert LeNat(bs[1..]) == 0;
  }

  /** A single-byte access is a lookup in the byte map. */
  lemma ByteAccess(m: Memory, a: u64, b: u8)
    ensures a == 0xFFFF_FFFF_FFFF_FFFF ==> Read(m, a, 1).Overflows? && Write(m, a, 1, b).Overflows?
    ensures a != 0xFFFF_FFFF_FFFF_FFFF ==>
              Read(m, a, 1) == (if Mapped(m, a) then Got(ByteAt(m, a).value as nat) else Rejected)
    ensures a != 0xFFFF_FFFF_FFFF_FFFF ==>
              Write(m, a, 1, b) == (if Mapped(m, a) then Got(PutByte(m, a, b)) else Rejected)
  {
    assert LeBytes(b, 1) == [b];
    match Resolve(|m.heap|, |m.stack|, a, 1)
    case OnStack(off) =>
      LeNatSingle(m.stack[off..off + 1]);
      assert Splice(m.stack, off, [b]) == m.stack[off := b];
    case OnHeap(off) =>
      LeNatSingle(m.heap[off..off + 1]);
      assert Splice(m.heap, off, [b]) == m.heap[off := b];
    case _ =>
  }

  /** A read of any width is accepted exactly inside one region and returns the
      little-endian composition of the bytes. */
  lemma ReadComposesBytes(m: Memory, a: u64, size: nat)
    requires Coherent(m) && size > 0 && a + size < 0x1_0000_0000_0000_0000
    ensures Read(m, a, size) == if OneRegion(m, a, size) then Got(LeNat(Fetch(m, a, size))) else Rejected
  {
    hide LeNat;
    match Resolve(|m.heap|, |m.stack|, a, size)
    case OnStack(off) => assert m.stack[off..off + size] == Fetch(m, a, size);
    case OnHeap(off) => assert m.heap[off..off + size] == Fetch(m, a, size);
    case _ =>
  }

  /** An accepted write changes exactly the bytes of its range, to the
      little-endian bytes of the value. */
  lemma WriteStoresBytes(m: Memory, a: u64, size: nat, v: nat, x: nat)
    requires Coherent(m) && size > 0 && a + size < 0x1_0000_0000_0000_0000
    ensures Write(m, a, size, v).Got? <==> OneRegion(m, a, size)
    ensures Write(m, a, size, v).Got? ==>
              ByteAt(Write(m, a, size, v).value, x) ==
              if a <= x < a + size then Some(LeBytes(v, size)[x - a]) else ByteAt(m, x)
  {
    hide LeBytes, Splice;
    var bs := LeBytes(v, size);
    match Resolve(|m.heap|, |m.stack|, a, size)
    case OnStack(off) => assert Write(m, a, size, v) == Got(m.(stack := Splice(m.stack, off, bs)));
    case OnHeap(off) => assert Write(m, a, size, v) == Got(m.(heap := Splice(m.heap, off, bs)));
    case _ =>
  }

  function OverlayByte(m: Memory, a: nat, bs: seq<u8>, x: nat): u8 {
    if a <= x < a + |bs| then bs[x - a] else ByteOr0(m, x)
  }

  /** The bytes at b, b+1, ... with `bs` laid over the memory at address a. */
  function Overlay(m: Memory, a: nat, bs: seq<u8>, b: nat, width: nat): (r: seq<u8>)
    ensures |r| == width
    ensures forall i :: 0 <= i < width ==> r[i] == OverlayByte(m, a, bs, b + i)
  {
    seq<u8>(width, i requires 0 <= i < width => OverlayByte(m, a, bs, b + i))
  }

  /** A write of one width followed by a read of another at any offset returns
      the splice of the written bytes over the old ones. */
  lemma ReadAfterWrite(m: Memory, a: u64, size: nat, v: nat, b: u64, width: nat)
    requires Coherent(m) && size > 0 && width > 0
    requires a + size < 0x1_0000_0000_0000_0000 && b + width < 0x1_0000_0000_0000_0000
    requires Write(m, a, size, v).Got?
    ensures Read(Write(m, a, size, v).value, b, width) ==
            if OneRegion(m, b, width) then Got(LeNat(Overlay(m, a, LeBytes(v, size), b, width))) else Rejected
  {
    hide LeNat, LeBytes, Read, Write;
    var m' := Write(m, a, size, v).value;
    ReadComposesBytes(m', b, width);
    var over := Overlay(m, a, LeBytes(v, size), b, width);
    forall i: nat | i < width ensures Fetch(m', b, width)[i] == over[i] {
      WriteStoresBytes(m, a, size, v, b + i);
    }
    assert Fetch(m', b, width) == over;
  }

  /** Reading back what was just written, at the same width. */
  lemma ReadBack(m: Memory, a: u64, size: nat, v: nat)
    requires Coherent(m) && size > 0 && a + size < 0x1_0000_0000_0000_0000
    requires v < Pow2(8 * size) && Write(m, a, size, v).Got?
    ensures Read(Write(m, a, size, v).value, a, size) == Got(v)
  {
    ReadAfterWrite(m, a, size, v, a, size);
    assert Overlay(m, a, LeBytes(v, size), a, size) == LeBytes(v, size);
    LeNatOfLeBytes(v, size);
  }

  /** Byte coherence of every accepted two-byte write. */
  ghost predicate WritesShowInBytes(m: Memory) {
    forall a: u64, v: u16 | Write(m, a, 2, v).Got? :: Fetch(Write(m, a, 2, v).value, a, 2) == LeBytes(v, 2)
  }

  /** The views agree if and only if the regions do not interleave: when the
      stack reaches into the heap and the heap sticks out behind it, a two-byte
      write across the stack's end lands in the heap under the stack's last byte. */
  lemma CoherentIff(m: Memory)
    ensures WritesShowInBytes(m) <==> Coherent(m)
  {
    if Coherent(m) {
      forall a: u64, v: u16 | Write(m, a, 2, v).Got?
        ensures Fetch(Write(m, a, 2, v).value, a, 2) == LeBytes(v, 2)
      {
        var m' := Write(m, a, 2, v).value;
        WriteStoresBytes(m, a, 2, v, a);
        WriteStoresBytes(m, a, 2, v, a + 1);
        assert Fetch(m', a, 2) == LeBytes(v, 2);
      }
    } else {
      var a: u64 := STACK_BASE + |m.stack| - 1;
      var v: u16 := if m.stack[|m.stack| - 1] == 0 then 1 else 0;
      var m' := Write(m, a, 2, v).value;
      assert m'.stack == m.stack;
      assert Fetch(m', a, 2)[0] == m.stack[|m.stack| - 1];
      assert LeBytes(v, 2)[0] == v;
    }
  }

  // ---- Bulk copies ----

  /** What the in-order loop reads at step i when it runs `d` bytes ahead of
      its source: its own output where it has already written. */
  function Echo(m: Memory, src: nat, d: nat, i: nat): u8
    requires d > 0
  {
    if i < d || !Mapped(m, src + i) then ByteOr0(m, src + i) else Echo(m, src, d, i - d)
  }

  lemma SameMapping(m: Memory, m': Memory, a: nat)
    requires |m.heap| == |m'.heap| && |m.stack| == |m'.stack|
    ensures Mapped(m, a) <==> Mapped(m', a)
  {}

  lemma UnmappedIsNone(m: Memory, a: nat)
    ensures Mapped(m, a) <==> ByteAt(m, a).Some?
  {}

  lemma {:induction false} CopiedBytes(m: Memory, dst: nat, src: nat, n: nat, x: nat)
    requires src < dst
    ensures ByteAt(CopyInOrder(m, dst, src, n), x) ==
            if Mapped(m, x) && dst <= x < dst + n then Some(Echo(m, src, dst - src, x - dst)) else ByteAt(m, x)
    decreases n
  {
    hide PutByte, ByteAt, Mapped;
    if n > 0 {
      var before := CopyInOrder(m, dst, src, n - 1);
      CopiedBytes(m, dst, src, n - 1, x);
      CopiedBytes(m, dst, src, n - 1, src + n - 1);
      SameMapping(m, before, dst + n - 1);
      UnmappedIsNone(m, src + n - 1);
    }
  }

  predicate AllMapped(m: Memory, a: nat, n: nat) { forall x | a <= x < a + n :: Mapped(m, x) }

  /** Guest memcpy in closed form: an overlapping forward copy repeats the first
      `dst - src` source bytes. */
  lemma OverlappingCopy(m: Memory, dst: nat, src: nat, n: nat, i: nat)
    requires src < dst && i < n
    requires AllMapped(m, src, n) && AllMapped(m, dst, n)
    ensures ByteAt(CopyInOrder(m, dst, src, n), dst + i) == ByteAt(m, src + i % (dst - src))
  {
    CopiedBytes(m, dst, src, n, dst + i);
    EchoRepeats(m, src, dst - src, n, i);
    QuotientBound(i, dst - src);
    ModBound(i, dst - src);
    assert Mapped(m, src + i % (dst - src));
  }

  lemma ModBound(x: nat, d: nat)
    requires d > 0
    ensures x % d <= x
  {
    if x < d { QuotientIs(x, d, 0, x); }
  }

  lemma {:induction false} EchoRepeats(m: Memory, src: nat, d: nat, n: nat, i: nat)
    requires d > 0 && i < n
    requires AllMapped(m, src, n)
    ensures Echo(m, src, d, i) == ByteOr0(m, src + i % d)
    decreases i
  {
    if i < d {
      QuotientIs(i, d, 0, i);
    } else {
      EchoRepeats(m, src, d, n, i - d);
      assert i == d * ((i - d) / d + 1) + (i - d) % d;
      QuotientIs(i, d, (i - d) / d + 1, (i - d) % d);
    }
  }

  /** Step i of a copy to a higher address reads a byte that equals the one
      `dst - src` before it, or touches an unmapped address. */
  predicate Repeats(m: Memory, dst: nat, src: nat, i: nat)
    requires src < dst && dst - src <= i
  {
    Mapped(m, src + i) && Mapped(m, dst + i) ==> ByteOr0(m, src + i) == ByteOr0(m, src + i - (dst - src))
  }

  /** A check that can be made before a call: the copied bytes either do not feed
      back into the source, or repeat with period `dst - src` already. */
  predicate CopyDoesNotFeedBack(m: Memory, dst: nat, src: nat, n: nat) {
    dst <= src || forall i | dst - src <= i < n :: Repeats(m, dst, src, i)
  }

  /** The in-order copy and the buffered copy leave the same memory if and only
      if the copy does not feed back. No assumption on ranges or regions. */
  lemma CopyEqualsSnapshotIff(m: Memory, dst: nat, src: nat, n: nat)
    ensures CopyInOrder(m, dst, src, n) == Store(m, dst, Fetch(m, src, n)) <==> CopyDoesNotFeedBack(m, dst, src, n)
  {
    if CopyDoesNotFeedBack(m, dst, src, n) {
      CopyEqualsSnapshot(m, dst, src, n);
    } else if CopyInOrder(m, dst, src, n) == Store(m, dst, Fetch(m, src, n)) {
      forall i | dst - src <= i < n ensures Repeats(m, dst, src, i) {
        SnapshotForcesRepeat(m, dst, src, n, i);
      }
      assert false;
    }
  }

  lemma SnapshotForcesRepeat(m: Memory, dst: nat, src: nat, n: nat, i: nat)
    requires src < dst && dst - src <= i < n
    requires CopyInOrder(m, dst, src, n) == Store(m, dst, Fetch(m, src, n))
    ensures Repeats(m, dst, src, i)
  {
    if Mapped(m, src + i) && Mapped(m, dst + i) {
      EchoIsSource(m, dst, src, n, i);
      EchoIsSource(m, dst, src, n, i - (dst - src));
    }
  }

  lemma EchoIsSource(m: Memory, dst: nat, src: nat, n: nat, j: nat)
    requires src < dst && j < n && Mapped(m, dst + j)
    requires CopyInOrder(m, dst, src, n) == Store(m, dst, Fetch(m, src, n))
    ensures Echo(m, src, dst - src, j) == ByteOr0(m, src + j)
  {
    var bs := Fetch(m, src, n);
    CopiedBytes(m, dst, src, n, dst + j);
    StoredBytes(m, dst, bs, dst + j);
    assert bs[dst + j - dst] == ByteOr0(m, src + j);
  }

  /** In particular for disjoint ranges and for copies towards lower addresses. */
  lemma DisjointDoesNotFeedBack(m: Memory, dst: nat, src: nat, n: nat)
    requires dst <= src || src + n <= dst
    ensures CopyDoesNotFeedBack(m, dst, src, n)
  {}

  lemma {:induction false} CopyEqualsSnapshot(m: Memory, dst: nat, src: nat, n: nat)
    requires CopyDoesNotFeedBack(m, dst, src, n)
    ensures CopyInOrder(m, dst, src, n) == Store(m, dst, Fetch(m, src, n))
    decreases n
  {
    if n > 0 {
      CopyEqualsSnapshot(m, dst, src, n - 1);
      var bs := Fetch(m, src, n);
      assert bs[..n - 1] == Fetch(m, src, n - 1);
      if Mapped(m, dst + n - 1) { LastByteUnchanged(m, dst, src, n); }
    }
  }

  /** The last byte the loop reads is still the byte that was there at the start,
      or an equal one it wrote itself. */
  lemma LastByteUnchanged(m: Memory, dst: nat, src: nat, n: nat)
    requires n > 0 && CopyDoesNotFeedBack(m, dst, src, n) && Mapped(m, dst + n - 1)
    ensures ByteOr0(Store(m, dst, Fetch(m, src, n - 1)), src + n - 1) == ByteOr0(m, src + n - 1)
  {
    var bs := Fetch(m, src, n - 1);
    var last := src + n - 1;
    StoredBytes(m, dst, bs, last);
    if Mapped(m, last) && dst <= last < dst + n - 1 {
      assert bs[last - dst] == ByteOr0(m, src + (last - dst));
      assert Repeats(m, dst, src, n - 1);
    }
  }
}
