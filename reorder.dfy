/** The reorder buffer of src/reorder.c as a class over an array of slots. Each
    method is proved to have the effect on `View()` that the matching function
    of ReorderSpec describes; what those functions guarantee is proved there. */
module Reorder {
  import opened Machine
  import opened Wrappers
  import opened ReorderSpec

  /** `sizeof(struct mlvpn_reorder_buffer)` and `sizeof(mlvpn_pkt_t *)` on an LP64 platform. */
  const HEADER_SIZE: nat := 56
  const SLOT_SIZE: nat := 8

  /** `min_bufsize` of `mlvpn_reorder_init`: header plus `size` slot pointers, stored
      into an `unsigned int`. */
  function MinBufsize(size: uint32): (r: uint32)
    ensures r == HEADER_SIZE + size * SLOT_SIZE <==> HEADER_SIZE + size * SLOT_SIZE < TWO_32
  {
    Trunc32(HEADER_SIZE + size * SLOT_SIZE)
  }

  /** `bufsize` of `mlvpn_reorder_create`: header plus `2 * size` slot pointers, where
      `2 * size` is an `unsigned int` product and the total is stored into an
      `unsigned int`. */
  function CreateBufsize(size: uint32): (r: uint32)
    ensures r == (HEADER_SIZE + 2 * size * SLOT_SIZE) % TWO_32
    ensures r == HEADER_SIZE + 2 * size * SLOT_SIZE <==> HEADER_SIZE + 2 * size * SLOT_SIZE < TWO_32
  {
    Trunc32(HEADER_SIZE + Trunc32(2 * size) * SLOT_SIZE)
  }

  /** The slot array read from index `h` onward, wrapping around its end. */
  function Rotate(s: seq<Option<Packet>>, h: nat): (r: seq<Option<Packet>>)
    requires h <= |s|
    ensures |r| == |s|
  {
    s[h..] + s[..h]
  }

  /** `(h + k) & mask` for a power-of-two size: an index `k` slots after `h`. */
  function SlotAfter(h: nat, k: nat, n: nat): nat
  {
    if h + k < n then h + k else h + k - n
  }

  /** Writing the slot `k` places after the head is writing entry `k` of the rotated view. */
  lemma RotateUpdate(s: seq<Option<Packet>>, h: nat, k: nat, x: Option<Packet>)
    requires h < |s| && k < |s|
    ensures Rotate(s[SlotAfter(h, k, |s|) := x], h) == Rotate(s, h)[k := x]
  {
    var t := s[SlotAfter(h, k, |s|) := x];
    forall j | 0 <= j < |s|
      ensures Rotate(t, h)[j] == Rotate(s, h)[k := x][j]
    {
      if h + j < |s| {
        assert Rotate(t, h)[j] == t[h + j] && Rotate(s, h)[j] == s[h + j];
      } else {
        assert Rotate(t, h)[j] == t[h + j - |s|] && Rotate(s, h)[j] == s[h + j - |s|];
      }
    }
  }

  /** The rotated view starts with the head slot. */
  lemma RotateHead(s: seq<Option<Packet>>, h: nat)
    requires h < |s|
    ensures Rotate(s, h)[0] == s[h]
  {
  }

  /** Emptying the head slot and moving the head on by one is dropping the first
      entry of the rotated view and appending an empty slot. */
  lemma RotateAdvance(s: seq<Option<Packet>>, h: nat)
    requires h < |s|
    ensures Rotate(s, h)[0] == s[h]
    ensures Rotate(s[h := None], SlotAfter(h, 1, |s|)) == Rotate(s, h)[1..] + [None]
  {
    var t := s[h := None];
    var h' := SlotAfter(h, 1, |s|);
    forall j | 0 <= j < |s|
      ensures Rotate(t, h')[j] == (Rotate(s, h)[1..] + [None])[j]
    {
      if j == |s| - 1 {
        assert Rotate(t, h')[j] == t[h];
      } else if h + 1 + j < |s| {
        assert Rotate(t, h')[j] == t[h + 1 + j];
      } else {
        assert Rotate(t, h')[j] == t[h + 1 + j - |s|];
      }
    }
  }

  /** Moving an index on by `k` slots and then by one more is moving it on by `k + 1`. */
  lemma SlotAfterStep(h0: nat, k: nat, n: nat)
    requires h0 < n && k < n
    ensures SlotAfter(h0, k, n) < n
    ensures SlotAfter(SlotAfter(h0, k, n), 1, n) == SlotAfter(h0, k + 1, n)
  {
  }

  /** Loop invariant of `Drain`: the packets `done` already handed out, followed by
      what draining the current window would still hand out, are what draining the
      starting window hands out. */
  ghost predicate DrainTrack(w0: Window, max: nat, cur: Window, done: seq<Packet>)
  {
    && |done| <= max
    && var d := ReorderSpec.Drain(cur, max - |done|);
       ReorderSpec.Drain(w0, max) == Drained(d.after, done + d.out, |done| + d.steps)
  }

  /** One dequeue keeps `Drain` on track. */
  lemma DrainTrackStep(w0: Window, max: nat, cur: Window, done: seq<Packet>)
    requires DrainTrack(w0, max, cur, done) && |done| < max
    requires |cur.slots| > 0 && cur.slots[0].Some?
    ensures DrainTrack(w0, max, Pop(cur), done + [cur.slots[0].value])
    ensures |done| < |w0.slots|
  {
    DrainOutput(w0, max);
    var p := cur.slots[0].value;
    assert (done + [p]) + ReorderSpec.Drain(Pop(cur), max - |done| - 1).out
        == done + ([p] + ReorderSpec.Drain(Pop(cur), max - |done| - 1).out);
  }

  /** Once the loop stops, the starting window drains to the current one, which
      keeps the invariant. */
  lemma DrainTrackDone(w0: Window, max: nat, cur: Window, done: seq<Packet>)
    requires Inv(w0) && DrainTrack(w0, max, cur, done)
    requires |done| == max || |cur.slots| == 0 || cur.slots[0].None?
    ensures ReorderSpec.Drain(w0, max) == Drained(cur, done, |done|) && Inv(cur)
  {
    assert done + [] == done;
    DrainPreservesInv(w0, max);
  }

  /** Loop invariant of `ForceDrain` after `i` of the `|w0.slots|` slots. */
  ghost predicate ForceDrainTrack(w0: Window, max: nat, cur: Window, done: seq<Packet>, i: nat)
  {
    && |done| <= max && i <= |w0.slots|
    && var d := ReorderSpec.ForceDrain(cur, max - |done|, |w0.slots| - i);
       ForceDrainAll(w0, max) == Drained(d.after, done + d.out, i + d.steps)
  }

  /** Dequeuing an occupied head slot keeps `ForceDrain` on track. */
  lemma ForceDrainTrackPop(w0: Window, max: nat, cur: Window, done: seq<Packet>, i: nat)
    requires ForceDrainTrack(w0, max, cur, done, i) && |done| < max && i < |w0.slots|
    requires |cur.slots| > 0 && cur.slots[0].Some?
    ensures ForceDrainTrack(w0, max, Pop(cur), done + [cur.slots[0].value], i + 1)
  {
    var p := cur.slots[0].value;
    var r := ReorderSpec.ForceDrain(Pop(cur), max - |done| - 1, |w0.slots| - i - 1);
    assert (done + [p]) + r.out == done + ([p] + r.out);
  }

  /** Moving past an empty head slot keeps `ForceDrain` on track. */
  lemma ForceDrainTrackSkip(w0: Window, max: nat, cur: Window, done: seq<Packet>, i: nat)
    requires ForceDrainTrack(w0, max, cur, done, i) && |done| < max && i < |w0.slots|
    requires |cur.slots| > 0 && cur.slots[0].None?
    ensures ForceDrainTrack(w0, max, Skip(cur), done, i + 1)
  {
  }

  /** Once the loop stops, the starting window force-drains to the current one,
      which keeps the invariant. */
  lemma ForceDrainTrackDone(w0: Window, max: nat, cur: Window, done: seq<Packet>, i: nat)
    requires Inv(w0) && ForceDrainTrack(w0, max, cur, done, i)
    requires |done| == max || i == |w0.slots|
    ensures ForceDrainAll(w0, max) == Drained(cur, done, i) && Inv(cur)
    ensures |done| < max ==> i == |w0.slots| && AllEmpty(cur.slots)
  {
    assert done + [] == done;
    ForceDrainPreservesInv(w0, max);
    if |done| < max {
      ForceDrainEmptiesWindow(w0, max);
    }
  }

  /** One turn of the force-drain loop on the window: dequeue an occupied head
      slot or move past an empty one. */
  function Visit(w: Window): Window
    requires |w.slots| > 0
  {
    if w.slots[0].Some? then Pop(w) else Skip(w)
  }

  /** One turn of the loop, whichever branch it takes, keeps `ForceDrain` on track. */
  lemma ForceDrainTrackStep(w0: Window, max: nat, cur: Window, done: seq<Packet>, i: nat)
    requires ForceDrainTrack(w0, max, cur, done, i) && |done| < max && i < |w0.slots|
    requires |cur.slots| > 0
    ensures ForceDrainTrack(w0, max, Visit(cur), done + (if cur.slots[0].Some? then [cur.slots[0].value] else []), i + 1)
  {
    if cur.slots[0].Some? {
      ForceDrainTrackPop(w0, max, cur, done, i);
    } else {
      assert done + [] == done;
    }
  }

  class ReorderBuffer {
    var minSeqn: uint64
    var memsize: uint32
    var size: uint32
    var mask: uint32
    var head: uint32
    var count: uint32
    var isInitialized: bool
    var pkts: array<Option<Packet>>

    /** The layout every successful init on a power-of-two size establishes; the
        recorded memory size is large enough for `reset` to succeed again. */
    ghost predicate Shape()
      reads this
    {
      && pkts.Length == size
      && IsPow2(size)
      && mask == size - 1
      && head < size
      && memsize >= MinBufsize(size)
    }

    /** The buffer's state as a value: the slots listed from the head. */
    function View(): Window
      reads this, pkts
      requires Shape()
    {
      Window(isInitialized, minSeqn, Rotate(pkts[..], head), count)
    }

    ghost predicate Valid()
      reads this, pkts
    {
      Shape() && Inv(View())
    }

    /** The all-zero object `calloc` returns, before init. */
    constructor Zeroed()
      ensures minSeqn == 0 && memsize == 0 && size == 0 && mask == 0
      ensures head == 0 && count == 0 && !isInitialized && pkts.Length == 0
      ensures fresh(pkts)
    {
      minSeqn, memsize, size, mask := 0, 0, 0, 0;
      head, count, isInitialized := 0, 0, false;
      pkts := new Option<Packet>[0];
    }

    /** `mlvpn_reorder_reset`: init again with the recorded memory size and slot count. */
    method Reset()
      requires Shape()
      modifies this
      ensures Valid() && View() == Fresh(size) && head == 0
      ensures size == old(size) && memsize == old(memsize) && mask == old(mask)
      ensures fresh(pkts)
    {
      var b := Init(this, memsize, size);
    }

    /** `dequeue_from_order_buf`: take the packet at the head slot, clear the slot,
        expect its successor next, move the head on, and decrement a positive count. */
    method Dequeue() returns (p: Packet)
      requires Shape() && pkts[head].Some?
      modifies this, pkts
      ensures Shape() && pkts == old(pkts)
      ensures size == old(size) && mask == old(mask) && memsize == old(memsize)
      ensures head == SlotAfter(old(head), 1, size)
      ensures old(View()).slots[0] == Some(p)
      ensures View() == Pop(old(View()))
    {
      ghost var s0, h0 := pkts[..], head;
      RotateAdvance(s0, h0);
      p := pkts[head].value;
      pkts[head] := None;
      assert pkts[..] == s0[h0 := None];
      minSeqn := Wrap64(p.seqn + 1);
      MaskWraps(head + 1, size);
      head := BitAnd(head + 1, mask);
      count := if count > 0 then count - 1 else 0;
      assert View().slots == Rotate(s0, h0)[1..] + [None];
    }

    /** `pkts[i] = dequeue_from_order_buf(b)`: the drain loops' dequeue into slot `i`
        of the output array. */
    method TakeHead(out: array<Packet>, i: nat) returns (p: Packet)
      requires Shape() && pkts[head].Some? && i < out.Length
      modifies this, pkts, out
      ensures Shape() && pkts == old(pkts)
      ensures size == old(size) && mask == old(mask) && memsize == old(memsize)
      ensures head == SlotAfter(old(head), 1, size)
      ensures old(View()).slots[0] == Some(p) && View() == Pop(old(View()))
      ensures out[..i + 1] == old(out[..i]) + [p]
      ensures forall k :: i < k < out.Length ==> out[k] == old(out[k])
    {
      p := Dequeue();
      out[i] := p;
    }

    /** The body of force-drain's `for` loop: dequeue an occupied head slot into
        `out[i]`, or step the head past a hole; `taken` says which. */
    method ForceDrainSlot(out: array<Packet>, i: nat) returns (next: nat)
      requires Shape() && i < out.Length
      modifies this, pkts, out
      ensures Shape() && pkts == old(pkts)
      ensures size == old(size) && mask == old(mask) && memsize == old(memsize)
      ensures head == SlotAfter(old(head), 1, size)
      ensures next == i + (if old(View()).slots[0].Some? then 1 else 0) && View() == Visit(old(View()))
      ensures out[..next] == old(out[..i]) + (if old(View()).slots[0].Some? then [old(View()).slots[0].value] else [])
      ensures forall k :: next <= k < out.Length ==> out[k] == old(out[k])
    {
      RotateHead(pkts[..], head);
      if pkts[head].Some? {
        var p := TakeHead(out, i);
        next := i + 1;
      } else {
        SkipHole();
        next := i;
        assert out[..i] == old(out[..i]) + [];
      }
    }

    /** `order_buf->head = (order_buf->head + 1) & order_buf->mask` on an empty head
        slot: force-drain's step past a hole. */
    method SkipHole()
      requires Shape() && pkts[head].None?
      modifies this
      ensures Shape() && pkts == old(pkts) && pkts[..] == old(pkts[..])
      ensures size == old(size) && mask == old(mask) && memsize == old(memsize)
      ensures head == SlotAfter(old(head), 1, size)
      ensures View() == Skip(old(View()))
    {
      RotateAdvance(pkts[..], head);
      assert pkts[..][head := None] == pkts[..];
      MaskWraps(head + 1, size);
      head := BitAnd(head + 1, mask);
    }

    /** The accepting branch of `mlvpn_reorder_insert`: store the packet `offset`
        slots after the head and count it. */
    method Place(offset: nat, pkt: Packet)
      requires Shape() && offset < size
      modifies this, pkts
      ensures Shape() && pkts == old(pkts)
      ensures size == old(size) && mask == old(mask) && memsize == old(memsize) && head == old(head)
      ensures isInitialized == old(isInitialized) && minSeqn == old(minSeqn)
      ensures View().slots == old(View()).slots[offset := Some(pkt)]
      ensures count as int == Trunc32(old(count) + 1)
    {
      ghost var s0 := pkts[..];
      MaskWraps(head + offset, size);
      var position := BitAnd(head + offset, mask);
      assert position == SlotAfter(head, offset, size);
      RotateUpdate(s0, head, offset, Some(pkt));
      pkts[position] := Some(pkt);
      assert pkts[..] == s0[position := Some(pkt)];
      count := Trunc32(count + 1);
    }

    /** `mlvpn_reorder_insert`: set the floor from the first packet, compute the
        signed wrapping offset, and either store the packet `offset` slots after the
        head (overwriting whatever was there) or reject it. */
    method Insert(pkt: Packet) returns (r: int)
      requires Valid()
      modifies this, pkts
      ensures Valid() && pkts == old(pkts)
      ensures size == old(size) && mask == old(mask) && memsize == old(memsize) && head == old(head)
      ensures Inserted(View(), r) == ReorderSpec.Insert(old(View()), pkt)
    {
      ghost var w0 := View();
      ghost var spec := ReorderSpec.Insert(w0, pkt);
      InsertPreservesInv(w0, pkt);
      if !isInitialized {
        minSeqn := pkt.seqn;
        isInitialized := true;
      }
      var offset := SignedDiff(pkt.seqn, minSeqn);
      if 0 <= offset < size {
        Place(offset, pkt);
        assert View() == spec.after && spec.code == ACCEPTED;
      } else if offset < 0 {
        assert View() == spec.after && spec.code == STALE;
        return STALE;
      } else {
        assert View() == spec.after && spec.code == FUTURE;
        return FUTURE;
      }
      return ACCEPTED;
    }

    /** `mlvpn_reorder_drain`: dequeue into `out` while fewer than `maxPkts` packets
        are out and the head slot is occupied. */
    method Drain(out: array<Packet>, maxPkts: uint32) returns (n: uint32)
      requires Valid() && out.Length >= maxPkts
      modifies this, pkts, out
      ensures Valid() && pkts == old(pkts)
      ensures size == old(size) && mask == old(mask) && memsize == old(memsize)
      ensures n <= maxPkts
      ensures var d := ReorderSpec.Drain(old(View()), maxPkts);
        && View() == d.after && n as int == |d.out| && out[..n] == d.out
      ensures forall k :: n <= k < out.Length ==> out[k] == old(out[k])
      ensures head == SlotAfter(old(head), n, size)
      ensures n < maxPkts ==> pkts[head] == None
    {
      ghost var w0 := View();
      ghost var h0 := head;
      ghost var cur := w0;
      n := 0;
      while n < maxPkts && pkts[head].Some?
        invariant Shape() && pkts == old(pkts)
        invariant size == old(size) && mask == old(mask) && memsize == old(memsize)
        invariant n <= maxPkts
        invariant head == SlotAfter(h0, n, size)
        invariant forall k :: n <= k < out.Length ==> out[k] == old(out[k])
        invariant cur == View() && DrainTrack(w0, maxPkts, cur, out[..n])
        decreases maxPkts - n
      {
        RotateHead(pkts[..], head);
        DrainTrackStep(w0, maxPkts, cur, out[..n]);
        SlotAfterStep(h0, n, size);
        var p := TakeHead(out, n);
        cur := Pop(cur);
        n := n + 1;
      }
      DrainTrackDone(w0, maxPkts, cur, out[..n]);
      if n < maxPkts {
        DrainStopsAtHole(w0, maxPkts);
        RotateHead(pkts[..], head);
      }
    }

    /** One iteration of the force-drain loop, carrying the loop's bookkeeping: on
        track towards `ForceDrainAll(w0, maxPkts)` before it, on track after it. */
    method ForceDrainStep(out: array<Packet>, maxPkts: uint32, ghost w0: Window, ghost h0: nat,
                          i: uint64, drainCnt: uint64) returns (next: uint64)
      requires Shape() && out.Length >= maxPkts && h0 < size && |w0.slots| == size as int
      requires i < size && drainCnt < maxPkts && head == SlotAfter(h0, i, size)
      requires ForceDrainTrack(w0, maxPkts, View(), out[..drainCnt], i)
      modifies this, pkts, out
      ensures Shape() && pkts == old(pkts)
      ensures size == old(size) && mask == old(mask) && memsize == old(memsize)
      ensures drainCnt <= next <= maxPkts && head == SlotAfter(h0, i + 1, size)
      ensures forall k :: next <= k < out.Length ==> out[k] == old(out[k])
      ensures ForceDrainTrack(w0, maxPkts, View(), out[..next], i + 1)
    {
      SlotAfterStep(h0, i, size);
      RotateHead(pkts[..], head);
      ForceDrainTrackStep(w0, maxPkts, View(), out[..drainCnt], i);
      var k := ForceDrainSlot(out, drainCnt);
      next := k;
    }

    /** `mlvpn_reorder_force_drain`: go over at most `size` slots from the head,
        dequeuing an occupied head slot into `out` and moving past an empty one,
        until `maxPkts` packets are out. */
    method ForceDrain(out: array<Packet>, maxPkts: uint32) returns (n: uint32)
      requires Valid() && out.Length >= maxPkts
      modifies this, pkts, out
      ensures Valid() && pkts == old(pkts)
      ensures size == old(size) && mask == old(mask) && memsize == old(memsize)
      ensures n <= maxPkts
      ensures var d := ForceDrainAll(old(View()), maxPkts);
        && View() == d.after && n as int == |d.out| && out[..n] == d.out
        && head == SlotAfter(old(head), d.steps, size)
      ensures forall k :: n <= k < out.Length ==> out[k] == old(out[k])
      ensures n < maxPkts ==> head == old(head) && AllEmpty(View().slots)
    {
      ghost var w0 := View();
      ghost var h0 := head;
      var i: uint64 := 0;
      var drainCnt: uint64 := 0;
      while i < size && drainCnt < maxPkts
        invariant Shape() && pkts == old(pkts)
        invariant size == old(size) && mask == old(mask) && memsize == old(memsize)
        invariant i <= size && drainCnt <= maxPkts
        invariant head == SlotAfter(h0, i, size)
        invariant forall k :: drainCnt <= k < out.Length ==> out[k] == old(out[k])
        invariant ForceDrainTrack(w0, maxPkts, View(), out[..drainCnt], i)
        decreases size - i
      {
        drainCnt := ForceDrainStep(out, maxPkts, w0, h0, i, drainCnt);
        i := i + 1;
      }
      n := drainCnt;
      ForceDrainTrackDone(w0, maxPkts, View(), out[..n], i);
    }
  }

  /** `mlvpn_reorder_init`: refuse a NULL buffer and a memory area smaller than
      `MinBufsize(size)`; otherwise zero the whole state, record the memory size,
      the slot count and `mask = size - 1` (wrapping for a zero size), with every
      slot empty. On a power-of-two size the result is a valid, fresh buffer. */
  method Init(b: ReorderBuffer?, bufsize: uint32, size: uint32) returns (r: ReorderBuffer?)
    modifies b
    ensures b == null ==> r == null
    ensures b != null && bufsize < MinBufsize(size) ==> r == null && unchanged(b)
    ensures b != null && bufsize >= MinBufsize(size) ==>
      && r == b && fresh(b.pkts)
      && b.memsize == bufsize && b.size == size && b.mask == Trunc32(size - 1)
      && b.head == 0 && b.count == 0 && b.minSeqn == 0 && !b.isInitialized
      && b.pkts[..] == Empties(size)
      && (IsPow2(size) ==> b.Valid() && b.View() == Fresh(size))
  {
    if b == null {
      return null;
    }
    if bufsize < MinBufsize(size) {
      return null;
    }
    b.minSeqn, b.head, b.count, b.isInitialized := 0, 0, 0, false;
    b.memsize := bufsize;
    b.size := size;
    b.mask := Trunc32(size - 1);
    b.pkts := new Option<Packet>[size](_ => None);
    assert b.pkts[..] == Empties(size);
    r := b;
  }

  /** `mlvpn_reorder_create`: allocate (the allocator's answer is `allocOk`) an
      all-zero buffer and init it. As in the source, the buffer is returned even
      when init refused it, and then it has no slots. */
  method Create(size: uint32, allocOk: bool) returns (b: ReorderBuffer?)
    ensures allocOk <==> b != null
    ensures b != null ==> fresh(b) && fresh(b.pkts)
    ensures b != null && CreateBufsize(size) >= MinBufsize(size) ==>
      b.size == size && b.memsize == CreateBufsize(size) && b.head == 0 &&
      (IsPow2(size) ==> b.Valid() && b.View() == Fresh(size))
    ensures b != null && CreateBufsize(size) < MinBufsize(size) ==> b.size == 0 && b.pkts.Length == 0
  {
    if !allocOk {
      return null;
    }
    b := new ReorderBuffer.Zeroed();
    var _ := Init(b, CreateBufsize(size), size);
  }

  /** For a window of 2^28 slots the area `create` asks for, truncated to 32 bits, is
      smaller than the one `init` demands: `init` refuses it, yet `create` returns the
      zeroed buffer, which has no slots (and, in C, a NULL slot pointer). */
  lemma CreateKeepsRefusedBuffer()
    ensures IsPow2(0x1000_0000)
    ensures CreateBufsize(0x1000_0000) == 56 && MinBufsize(0x1000_0000) == 0x8000_0038
  {
    LargePowersOfTwo();
  }

  /** For a window of 2^31 slots both sizes wrap to the header alone: `init` accepts
      an area of 56 bytes for 2^31 slot pointers. */
  lemma MinBufsizeWraps()
    ensures IsPow2(0x8000_0000)
    ensures CreateBufsize(0x8000_0000) == 56 && MinBufsize(0x8000_0000) == 56
    ensures HEADER_SIZE + 0x8000_0000 * SLOT_SIZE > 56
  {
    LargePowersOfTwo();
  }

  /** `mlvpn_reorder_create` as evidently intended: the area size is computed without
      wrapping, a size that does not fit an `unsigned int` fails like an allocation
      failure, and a buffer that `init` would refuse is never returned. */
  method CreateChecked(size: uint32, allocOk: bool) returns (b: ReorderBuffer?)
    ensures b == null <==> !allocOk || HEADER_SIZE + 2 * size * SLOT_SIZE >= TWO_32
    ensures b != null ==> fresh(b) && fresh(b.pkts) && b.size == size && b.head == 0
    ensures b != null ==> b.memsize as int >= HEADER_SIZE + b.size * SLOT_SIZE
    ensures b != null && IsPow2(size) ==> b.Valid() && b.View() == Fresh(size)
  {
    var need := HEADER_SIZE + 2 * size * SLOT_SIZE;
    if !allocOk || need >= TWO_32 {
      return null;
    }
    b := new ReorderBuffer.Zeroed();
    var r := Init(b, need, size);
  }
}
