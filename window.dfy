/** The reorder buffer's state as a value. The circular slot array is listed
    starting at `head`, so `slots[k]` is the slot that is expected to hold
    sequence number `minSeqn + k` (modulo 2^64). Every operation of
    src/reorder.c is a function here, written step by step as the C loops run;
    the class in reorder.dfy is proved to follow these functions. */
module ReorderSpec {
  import opened Machine
  import opened Wrappers

  /** A packet as the buffer sees it: its 64-bit sequence number and the
      identity of the caller's packet object, which the buffer hands back unchanged. */
  datatype Packet = Packet(seqn: uint64, id: nat)

  /** The state of a reorder buffer, seen from its head slot. */
  datatype Window = Window(initialized: bool, minSeqn: uint64, slots: seq<Option<Packet>>, count: uint32)

  /** Result of an insert: the new state and the status code the C function returns. */
  datatype Inserted = Inserted(after: Window, code: int)

  /** Result of a drain: the new state, the packets handed out in order, and the
      number of slots the loop went over. */
  datatype Drained = Drained(after: Window, out: seq<Packet>, steps: nat)

  /** Status codes of `mlvpn_reorder_insert`. */
  const ACCEPTED: int := 0
  const FUTURE: int := -1
  const STALE: int := -2

  function Empties(n: nat): (r: seq<Option<Packet>>)
    ensures |r| == n && forall k :: 0 <= k < n ==> r[k] == None
  {
    seq(n, _ => None)
  }

  /** The sequence number `k` steps after `base` (before it, for negative `k`), modulo 2^64. */
  function Ahead(base: uint64, k: int): uint64
  {
    Wrap64(base + k)
  }

  /** The sequence number `k` steps before `base`, modulo 2^64. */
  function Behind(base: uint64, k: int): uint64
  {
    Wrap64(base - k)
  }

  predicate AllEmpty(slots: seq<Option<Packet>>)
  {
    forall k :: 0 <= k < |slots| ==> slots[k] == None
  }

  /** Every occupied slot `k` holds sequence number `base + k` modulo 2^64. */
  predicate Consistent(slots: seq<Option<Packet>>, base: uint64)
  {
    forall k :: 0 <= k < |slots| ==> SlotHolds(slots, base, k)
  }

  /** Slot `k` is empty or holds sequence number `base + k` modulo 2^64. */
  predicate SlotHolds(slots: seq<Option<Packet>>, base: uint64, k: nat)
    requires k < |slots|
  {
    slots[k].Some? ==> slots[k].value.seqn == Wrap64(base + k)
  }

  /** The buffer's invariant: the slot/sequence correspondence holds from `minSeqn`,
      and a buffer that has not seen its first packet is empty. */
  predicate Inv(w: Window)
  {
    Consistent(w.slots, w.minSeqn) && (!w.initialized ==> AllEmpty(w.slots))
  }

  /** The state established by `mlvpn_reorder_init`: every field zero, every slot empty. */
  function Fresh(size: nat): Window
  {
    Window(false, 0, Empties(size), 0)
  }

  /** `count - n`, stopping at zero: `n` decrements that each only happen below a positive count. */
  function SatSub(c: uint32, n: nat): uint32
  {
    if c >= n then c - n else 0
  }

  /** The packets in a run of slots, in slot order, leaving out the empty ones. */
  function Somes(s: seq<Option<Packet>>): seq<Packet>
  {
    if s == [] then []
    else (if s[0].Some? then [s[0].value] else []) + Somes(s[1..])
  }

  /** `mlvpn_reorder_insert`: lazy initialisation of `minSeqn`, the signed wrapping
      offset, then one slot write or a rejection. */
  function Insert(w: Window, p: Packet): (r: Inserted)
    ensures r.code == ACCEPTED || r.code == STALE || r.code == FUTURE
    ensures r.after.initialized && |r.after.slots| == |w.slots|
    ensures r.after.minSeqn == if w.initialized then w.minSeqn else p.seqn
    ensures r.code != ACCEPTED ==> r.after.slots == w.slots && r.after.count == w.count
  {
    var w1 := w.(initialized := true, minSeqn := if w.initialized then w.minSeqn else p.seqn);
    var offset := SignedDiff(p.seqn, w1.minSeqn);
    if 0 <= offset < |w.slots| then
      Inserted(w1.(slots := w.slots[offset := Some(p)], count := Trunc32(w.count + 1)), ACCEPTED)
    else if offset < 0 then
      Inserted(w1, STALE)
    else
      Inserted(w1, FUTURE)
  }

  /** `dequeue_from_order_buf`: take the head packet, expect its successor next. */
  function Pop(w: Window): (r: Window)
    requires |w.slots| > 0 && w.slots[0].Some?
  {
    Window(w.initialized, Wrap64(w.slots[0].value.seqn + 1), w.slots[1..] + [None],
           if w.count > 0 then w.count - 1 else 0)
  }

  /** The hole-skipping branch of `mlvpn_reorder_force_drain`: move past the empty
      head slot without touching `minSeqn`. */
  function Skip(w: Window): (r: Window)
    requires |w.slots| > 0 && w.slots[0].None?
    ensures r.minSeqn == w.minSeqn && r.count == w.count
  {
    w.(slots := w.slots[1..] + [None])
  }

  /** `mlvpn_reorder_drain`: dequeue while fewer than `max` packets are out and the
      head slot is occupied. */
  function Drain(w: Window, max: nat): (r: Drained)
    ensures r.steps == |r.out| <= max
    decreases max
  {
    if max == 0 || |w.slots| == 0 || w.slots[0].None? then Drained(w, [], 0)
    else
      var r := Drain(Pop(w), max - 1);
      Drained(r.after, [w.slots[0].value] + r.out, r.steps + 1)
  }

  /** The loop of `mlvpn_reorder_force_drain` with `budget` iterations left: dequeue
      an occupied head slot, skip an empty one. */
  function ForceDrain(w: Window, max: nat, budget: nat): (r: Drained)
    decreases budget
  {
    if budget == 0 || max == 0 || |w.slots| == 0 then Drained(w, [], 0)
    else if w.slots[0].Some? then
      var r := ForceDrain(Pop(w), max - 1, budget - 1);
      Drained(r.after, [w.slots[0].value] + r.out, r.steps + 1)
    else
      var r := ForceDrain(Skip(w), max, budget - 1);
      Drained(r.after, r.out, r.steps + 1)
  }

  /** `mlvpn_reorder_force_drain` as called: at most one pass over the window. */
  function ForceDrainAll(w: Window, max: nat): (r: Drained)
    ensures |r.out| <= max && r.steps <= |w.slots|
    ensures |r.out| < max ==> r.steps == |w.slots|
  {
    ForceDrainExtent(w, max, |w.slots|);
    ForceDrain(w, max, |w.slots|)
  }

  // ---------------------------------------------------------------------------
  // Insert

  /** Packets are addressed relative to the window floor: when the buffer is
      initialised and has no more than 2^63 slots, an insert is accepted exactly
      when the packet's sequence number is `minSeqn + k` (mod 2^64) for a slot
      `k` of the window, and the packet then lands in slot `k`, even one that
      wrapped past 2^64. */
  lemma InsertAcceptedWindow(w: Window, p: Packet)
    requires w.initialized && |w.slots| <= TWO_63
    ensures Insert(w, p).code == ACCEPTED <==>
              exists k :: 0 <= k < |w.slots| && p.seqn == Ahead(w.minSeqn, k)
    ensures forall k :: 0 <= k < |w.slots| && p.seqn == Ahead(w.minSeqn, k) ==>
              Insert(w, p).after.slots == w.slots[k := Some(p)]
  {
    var m := w.minSeqn;
    var off := SignedDiff(p.seqn, m);
    forall k | 0 <= k < |w.slots| && p.seqn == Ahead(m, k)
      ensures off == k
    {
      SignedDiffAhead(m, k);
    }
    if 0 <= off < |w.slots| {
      SignedDiffCharacterized(p.seqn, m, off);
      WrapOfCongruent(m + off, p.seqn);
      assert p.seqn == Ahead(m, off);
    }
  }

  /** An initialised buffer rejects a packet as stale exactly when its sequence
      number lies 1 to 2^63 steps behind `minSeqn` (mod 2^64). */
  lemma InsertStaleWindow(w: Window, p: Packet)
    requires w.initialized
    ensures Insert(w, p).code == STALE <==>
              exists k :: 0 < k <= TWO_63 && p.seqn == Behind(w.minSeqn, k)
  {
    var m := w.minSeqn;
    var off := SignedDiff(p.seqn, m);
    forall k | 0 < k <= TWO_63 && p.seqn == Behind(m, k)
      ensures off == -k
    {
      SignedDiffBehind(m, k);
    }
    if off < 0 {
      var k: int := -(off as int);
      SignedDiffCharacterized(p.seqn, m, off);
      WrapOfCongruent(m - k, p.seqn);
      assert p.seqn == Behind(m, k);
    }
  }

  /** An insert is refused as too far ahead exactly when the packet is at least
      `size` and at most 2^63 - 1 steps ahead of the floor. */
  lemma InsertFutureWindow(w: Window, p: Packet)
    requires w.initialized
    ensures Insert(w, p).code == FUTURE <==>
              exists k :: |w.slots| <= k < TWO_63 && p.seqn == Ahead(w.minSeqn, k)
  {
    var m := w.minSeqn;
    var off := SignedDiff(p.seqn, m);
    forall k | |w.slots| <= k < TWO_63 && p.seqn == Ahead(m, k)
      ensures off == k
    {
      SignedDiffAhead(m, k);
    }
    if off >= |w.slots| {
      SignedDiffCharacterized(p.seqn, m, off);
      WrapOfCongruent(m + off, p.seqn);
      assert p.seqn == Ahead(m, off);
    }
  }

  /** `x` names the same `uint64_t` as `u` when they agree modulo 2^64. */
  lemma WrapOfCongruent(x: int, u: uint64)
    requires (u - x) % TWO_64 == 0
    ensures Wrap64(x) == u
  {
  }

  /** The first packet of an uninitialised buffer of at least one slot is always
      accepted at the head slot and becomes the window floor. */
  lemma FirstInsertAccepted(w: Window, p: Packet)
    requires !w.initialized && |w.slots| >= 1
    ensures Insert(w, p).code == ACCEPTED
    ensures Insert(w, p).after.initialized && Insert(w, p).after.minSeqn == p.seqn
    ensures Insert(w, p).after.slots == w.slots[0 := Some(p)]
  {
  }

  /** A rejected insert changes no slot and not the count; apart from the lazy
      initialisation of the floor it leaves the state as it was. */
  lemma InsertRejectedUnchanged(w: Window, p: Packet)
    requires Insert(w, p).code != ACCEPTED
    ensures Insert(w, p).after.slots == w.slots && Insert(w, p).after.count == w.count
    ensures w.initialized ==> Insert(w, p).after == w
  {
  }

  /** Insert keeps the invariant. */
  lemma InsertPreservesInv(w: Window, p: Packet)
    requires Inv(w)
    ensures Inv(Insert(w, p).after)
  {
    var r := Insert(w, p);
    if r.code == ACCEPTED {
      var m := r.after.minSeqn;
      var off := SignedDiff(p.seqn, m);
      SignedDiffCharacterized(p.seqn, m, off);
      WrapOfCongruent(m + off, p.seqn);
      forall k | 0 <= k < |r.after.slots|
        ensures SlotHolds(r.after.slots, m, k)
      {
        if k != off {
          assert SlotHolds(w.slots, w.minSeqn, k);
        }
      }
    }
  }

  // ---------------------------------------------------------------------------
  // Dequeue, drain and force-drain

  /** Dropping the first `j` slots of a consistent window and refilling with empty
      slots gives a window consistent from `base + j`. */
  lemma ConsistentShift(slots: seq<Option<Packet>>, base: uint64, j: nat)
    requires Consistent(slots, base) && j <= |slots|
    ensures Consistent(slots[j..] + Empties(j), Wrap64(base + j))
  {
    var t := slots[j..] + Empties(j);
    var b := Wrap64(base + j);
    forall k | 0 <= k < |t|
      ensures SlotHolds(t, b, k)
    {
      if k < |slots| - j {
        assert t[k] == slots[j + k] && SlotHolds(slots, base, j + k);
        Wrap64Add(base + j, k);
      }
    }
  }

  /** Dequeuing the head of a window consistent from `base` leaves one consistent
      from `base + 1`, which is the new `minSeqn`. */
  lemma PopPreservesConsistent(w: Window, base: uint64)
    requires |w.slots| > 0 && w.slots[0].Some? && Consistent(w.slots, base)
    ensures Pop(w).minSeqn == Wrap64(base + 1)
    ensures Consistent(Pop(w).slots, Pop(w).minSeqn)
  {
    assert SlotHolds(w.slots, base, 0);
    ConsistentShift(w.slots, base, 1);
    assert Empties(1) == [None];
    Wrap64Add(base, 1);
  }

  /** The common end state of drain and force-drain: the window moved on by
      `steps` slots, and either nothing moved, or every slot was gone over, or the
      last slot gone over held the last packet handed out (`last`), whose
      successor is the new floor. Such a state keeps the invariant. */
  lemma AdvancePreservesInv(w: Window, after: Window, last: Option<Packet>, steps: nat)
    requires Inv(w) && steps <= |w.slots|
    requires after.slots == w.slots[steps..] + Empties(steps)
    requires after.initialized == w.initialized
    requires after.minSeqn == (if last.None? then w.minSeqn else Wrap64(last.value.seqn + 1))
    requires steps == |w.slots| || (last.None? && steps == 0) || (steps > 0 && last.Some? && w.slots[steps - 1] == last)
    ensures Inv(after)
  {
    ConsistentShift(w.slots, w.minSeqn, steps);
    if steps == |w.slots| {
      assert after.slots == Empties(steps);
    } else if steps > 0 && last.Some? && w.slots[steps - 1] == last {
      assert SlotHolds(w.slots, w.minSeqn, steps - 1);
      Wrap64Add(w.minSeqn + (steps - 1), 1);
    }
  }

  /** Moving the head forward by one slot, whatever it held, and refilling at the
      back: the slots after `n` steps from `s` are those after `n - 1` steps from
      the rotated window. */
  lemma ShiftOnce(s: seq<Option<Packet>>, n: nat)
    requires 0 < n <= |s|
    ensures (s[1..] + [None])[n - 1..] + Empties(n - 1) == s[n..] + Empties(n)
  {
    assert (s[1..] + [None])[n - 1..] == s[n..] + [None];
  }

  /** What drain hands out: `n <= max` packets, those of the leading run of occupied
      slots in slot order, stopping at `max` or at the first hole. */
  lemma {:induction false} DrainOutput(w: Window, max: nat)
    ensures var r := Drain(w, max);
      && |r.out| == r.steps && |r.out| <= max && |r.out| <= |w.slots|
      && (forall k :: 0 <= k < |r.out| ==> w.slots[k] == Some(r.out[k]))
      && (|r.out| < max && |r.out| < |w.slots| ==> w.slots[|r.out|] == None)
    decreases max
  {
    if !(max == 0 || |w.slots| == 0 || w.slots[0].None?) {
      var w' := Pop(w);
      DrainOutput(w', max - 1);
      var r, r' := Drain(w, max), Drain(w', max - 1);
      assert |w'.slots| == |w.slots|;
      assert r.out == [w.slots[0].value] + r'.out;
      assert w'.slots[|w'.slots| - 1] == None;
      forall k | 0 < k < |r.out|
        ensures w.slots[k] == Some(r.out[k])
      {
        assert w'.slots[k - 1] == w.slots[k];
      }
      if |r.out| < max && |r.out| < |w.slots| {
        assert w'.slots[|r.out| - 1] == w.slots[|r.out|];
      }
    }
  }

  /** The state drain leaves: the slots it emptied go to the back of the window,
      the floor follows the last packet handed out, the count goes down by the
      number of packets, stopping at zero. */
  lemma {:induction false} DrainState(w: Window, max: nat)
    ensures var r := Drain(w, max);
      && |r.out| <= |w.slots|
      && r.after.slots == w.slots[|r.out|..] + Empties(|r.out|)
      && r.after.initialized == w.initialized
      && r.after.minSeqn == (if |r.out| == 0 then w.minSeqn else Wrap64(r.out[|r.out| - 1].seqn + 1))
      && r.after.count == SatSub(w.count, |r.out|)
  {
    DrainOutput(w, max);
    DrainSlots(w, max);
    DrainFloor(w, max);
    DrainCount(w, max);
  }

  /** The slots after a drain: the window moved on past the packets handed out. */
  lemma {:induction false} DrainSlots(w: Window, max: nat)
    requires |Drain(w, max).out| <= |w.slots|
    ensures Drain(w, max).after.slots == w.slots[|Drain(w, max).out|..] + Empties(|Drain(w, max).out|)
    decreases max
  {
    if max == 0 || |w.slots| == 0 || w.slots[0].None? {
      assert w.slots[0..] + Empties(0) == w.slots;
    } else {
      var r, r' := Drain(w, max), Drain(Pop(w), max - 1);
      assert |r.out| == |r'.out| + 1;
      DrainSlots(Pop(w), max - 1);
      ShiftOnce(w.slots, |r.out|);
    }
  }

  /** The floor after a drain: unchanged if nothing was handed out, else the
      successor of the last packet. */
  lemma {:induction false} DrainFloor(w: Window, max: nat)
    ensures var r := Drain(w, max);
      && r.after.initialized == w.initialized
      && r.after.minSeqn == (if |r.out| == 0 then w.minSeqn else Wrap64(r.out[|r.out| - 1].seqn + 1))
    decreases max
  {
    if max == 0 || |w.slots| == 0 || w.slots[0].None? {
    } else {
      var r, r' := Drain(w, max), Drain(Pop(w), max - 1);
      DrainFloor(Pop(w), max - 1);
      if |r'.out| > 0 {
        assert r.out[|r.out| - 1] == r'.out[|r'.out| - 1];
      }
    }
  }

  /** The count after a drain: one saturating decrement per packet handed out. */
  lemma {:induction false} DrainCount(w: Window, max: nat)
    ensures Drain(w, max).after.count == SatSub(w.count, |Drain(w, max).out|)
    decreases max
  {
    if max == 0 || |w.slots| == 0 || w.slots[0].None? {
    } else {
      DrainCount(Pop(w), max - 1);
    }
  }

  /** Drain keeps the invariant. */
  lemma DrainPreservesInv(w: Window, max: nat)
    requires Inv(w)
    ensures Inv(Drain(w, max).after)
  {
    var r := Drain(w, max);
    DrainOutput(w, max);
    DrainState(w, max);
    var n := |r.out|;
    var last := if n == 0 then None else Some(r.out[n - 1]);
    AdvancePreservesInv(w, r.after, last, n);
  }

  /** The packets drain hands out carry the consecutive sequence numbers
      `minSeqn, minSeqn + 1, ...`. */
  lemma DrainConsecutive(w: Window, max: nat)
    requires Inv(w)
    ensures forall k :: 0 <= k < |Drain(w, max).out| ==> Drain(w, max).out[k].seqn == Ahead(w.minSeqn, k)
  {
    var r := Drain(w, max);
    DrainOutput(w, max);
    forall k | 0 <= k < |r.out|
      ensures r.out[k].seqn == Ahead(w.minSeqn, k)
    {
      assert w.slots[k] == Some(r.out[k]) && SlotHolds(w.slots, w.minSeqn, k);
    }
  }

  /** When drain hands out fewer than `max` packets, the new head slot is a hole:
      drain never goes past a missing sequence number. */
  lemma DrainStopsAtHole(w: Window, max: nat)
    requires |Drain(w, max).out| < max && |w.slots| > 0
    ensures |Drain(w, max).after.slots| == |w.slots|
    ensures Drain(w, max).after.slots[0] == None
  {
    var r := Drain(w, max);
    DrainOutput(w, max);
    DrainState(w, max);
    if |r.out| < |w.slots| {
      assert r.after.slots[0] == w.slots[|r.out|];
    }
  }

  /** How far force-drain goes: over `steps <= budget` slots, handing out at most
      `max` packets; it uses the whole budget unless it reached `max`, and then
      the last slot it went over held the last packet. */
  lemma ForceDrainExtent(w: Window, max: nat, budget: nat)
    requires budget <= |w.slots|
    ensures var r := ForceDrain(w, max, budget);
      && |r.out| <= max && r.steps <= budget
      && (|r.out| < max ==> r.steps == budget)
      && (|r.out| == max > 0 ==> r.steps > 0 && w.slots[r.steps - 1] == Some(r.out[|r.out| - 1]))
  {
    ForceDrainBounds(w, max, budget);
    ForceDrainLast(w, max, budget);
  }

  /** Force-drain hands out at most `max` packets over at most `budget` slots, and
      uses the whole budget unless it reached `max`. */
  lemma {:induction false} ForceDrainBounds(w: Window, max: nat, budget: nat)
    requires budget <= |w.slots|
    ensures var r := ForceDrain(w, max, budget);
      |r.out| <= max && r.steps <= budget && (|r.out| < max ==> r.steps == budget)
    decreases budget
  {
    if budget == 0 || max == 0 || |w.slots| == 0 {
    } else if w.slots[0].Some? {
      ForceDrainBounds(Pop(w), max - 1, budget - 1);
    } else {
      ForceDrainBounds(Skip(w), max, budget - 1);
    }
  }

  /** A force-drain that reached `max` stopped right after the slot holding the
      last packet it handed out. */
  lemma {:induction false} ForceDrainLast(w: Window, max: nat, budget: nat)
    requires budget <= |w.slots|
    ensures var r := ForceDrain(w, max, budget);
      |r.out| == max > 0 ==> r.steps > 0 && r.steps <= budget && w.slots[r.steps - 1] == Some(r.out[|r.out| - 1])
    decreases budget
  {
    if budget == 0 || max == 0 || |w.slots| == 0 {
    } else if w.slots[0].Some? {
      ForceDrainLastPop(w, max, budget);
    } else {
      var r' := ForceDrain(Skip(w), max, budget - 1);
      assert ForceDrain(w, max, budget) == Drained(r'.after, r'.out, r'.steps + 1);
      ForceDrainLast(Skip(w), max, budget - 1);
      if |r'.out| == max {
        assert Skip(w).slots[r'.steps - 1] == w.slots[r'.steps];
      }
    }
  }

  /** The occupied-head case of `ForceDrainLast`. */
  lemma {:induction false} ForceDrainLastPop(w: Window, max: nat, budget: nat)
    requires 0 < budget <= |w.slots| && max > 0 && w.slots[0].Some?
    ensures var r := ForceDrain(w, max, budget);
      |r.out| == max ==> r.steps > 0 && r.steps <= budget && w.slots[r.steps - 1] == Some(r.out[|r.out| - 1])
    decreases budget, 0
  {
    var r' := ForceDrain(Pop(w), max - 1, budget - 1);
    var r := Drained(r'.after, [w.slots[0].value] + r'.out, r'.steps + 1);
    assert ForceDrain(w, max, budget) == r;
    if max == 1 {
      assert r'.out == [] && r'.steps == 0;
      assert r.steps == 1 && r.out == [w.slots[0].value];
    } else {
      ForceDrainLast(Pop(w), max - 1, budget - 1);
      ForceDrainBounds(Pop(w), max - 1, budget - 1);
      if |r'.out| == max - 1 {
        var last := r'.out[|r'.out| - 1];
        assert Pop(w).slots[r'.steps - 1] == Some(last);
        assert Pop(w).slots[r'.steps - 1] == w.slots[r'.steps];
        assert r.out[|r.out| - 1] == last;
        assert w.slots[r.steps - 1] == Some(last);
      }
    }
  }

  /** What force-drain hands out: the packets of the slots it went over, in slot order. */
  lemma {:induction false} ForceDrainInSlotOrder(w: Window, max: nat, budget: nat)
    requires budget <= |w.slots|
    ensures ForceDrain(w, max, budget).steps <= budget
    ensures ForceDrain(w, max, budget).out == Somes(w.slots[..ForceDrain(w, max, budget).steps])
    decreases budget
  {
    if !(budget == 0 || max == 0 || |w.slots| == 0) {
      var w' := if w.slots[0].Some? then Pop(w) else Skip(w);
      var max' := if w.slots[0].Some? then max - 1 else max;
      ForceDrainInSlotOrder(w', max', budget - 1);
      var s' := ForceDrain(w', max', budget - 1).steps;
      assert w'.slots[..s'] == w.slots[1..s' + 1];
      assert w.slots[..s' + 1][1..] == w.slots[1..s' + 1];
    }
  }

  /** The state force-drain leaves: every slot it went over is empty and moved to the
      back of the window, the floor follows the last packet handed out (and stays
      put when none was), the count goes down by the number of packets, stopping
      at zero. */
  lemma ForceDrainState(w: Window, max: nat, budget: nat)
    requires budget <= |w.slots|
    ensures var r := ForceDrain(w, max, budget);
      && r.steps <= budget
      && r.after.slots == w.slots[r.steps..] + Empties(r.steps)
      && r.after.initialized == w.initialized
      && r.after.minSeqn == (if |r.out| == 0 then w.minSeqn else Wrap64(r.out[|r.out| - 1].seqn + 1))
      && r.after.count == SatSub(w.count, |r.out|)
  {
    ForceDrainSlots(w, max, budget);
    ForceDrainFloor(w, max, budget);
    ForceDrainCount(w, max, budget);
  }

  /** The slots after a force-drain: the window moved on by the slots gone over. */
  lemma {:induction false} ForceDrainSlots(w: Window, max: nat, budget: nat)
    requires budget <= |w.slots|
    ensures var r := ForceDrain(w, max, budget);
      r.steps <= budget && r.after.slots == w.slots[r.steps..] + Empties(r.steps)
    decreases budget
  {
    if budget == 0 || max == 0 || |w.slots| == 0 {
      assert w.slots[0..] + Empties(0) == w.slots;
    } else {
      var w' := if w.slots[0].Some? then Pop(w) else Skip(w);
      var max' := if w.slots[0].Some? then max - 1 else max;
      ForceDrainSlots(w', max', budget - 1);
      ShiftOnce(w.slots, ForceDrain(w, max, budget).steps);
    }
  }

  /** The floor after a force-drain: unchanged if nothing was handed out, else the
      successor of the last packet; holes skipped do not move it. */
  lemma {:induction false} ForceDrainFloor(w: Window, max: nat, budget: nat)
    ensures var r := ForceDrain(w, max, budget);
      && r.after.initialized == w.initialized
      && r.after.minSeqn == (if |r.out| == 0 then w.minSeqn else Wrap64(r.out[|r.out| - 1].seqn + 1))
    decreases budget
  {
    if budget == 0 || max == 0 || |w.slots| == 0 {
    } else if w.slots[0].Some? {
      var r, r' := ForceDrain(w, max, budget), ForceDrain(Pop(w), max - 1, budget - 1);
      ForceDrainFloor(Pop(w), max - 1, budget - 1);
      if |r'.out| > 0 {
        assert r.out[|r.out| - 1] == r'.out[|r'.out| - 1];
      }
    } else {
      ForceDrainFloor(Skip(w), max, budget - 1);
    }
  }

  /** The count after a force-drain: one saturating decrement per packet handed out. */
  lemma {:induction false} ForceDrainCount(w: Window, max: nat, budget: nat)
    ensures ForceDrain(w, max, budget).after.count == SatSub(w.count, |ForceDrain(w, max, budget).out|)
    decreases budget
  {
    if budget == 0 || max == 0 || |w.slots| == 0 {
    } else if w.slots[0].Some? {
      ForceDrainCount(Pop(w), max - 1, budget - 1);
    } else {
      ForceDrainCount(Skip(w), max, budget - 1);
    }
  }

  /** Force-drain keeps the invariant on exit: a skipped hole breaks it only until
      the next dequeue, and the loop ends either right after a dequeue or with
      every slot gone over. */
  lemma ForceDrainPreservesInv(w: Window, max: nat)
    requires Inv(w)
    ensures Inv(ForceDrainAll(w, max).after)
  {
    var r := ForceDrainAll(w, max);
    ForceDrainExtent(w, max, |w.slots|);
    ForceDrainState(w, max, |w.slots|);
    var n := |r.out|;
    var last := if n == 0 then None else Some(r.out[n - 1]);
    AdvancePreservesInv(w, r.after, last, r.steps);
  }

  /** A force-drain that hands out fewer than `max` packets has gone once around the
      whole window and left every slot empty. */
  lemma ForceDrainEmptiesWindow(w: Window, max: nat)
    requires |ForceDrainAll(w, max).out| < max
    ensures ForceDrainAll(w, max).steps == |w.slots|
    ensures AllEmpty(ForceDrainAll(w, max).after.slots)
  {
    ForceDrainExtent(w, max, |w.slots|);
    ForceDrainState(w, max, |w.slots|);
  }
}
