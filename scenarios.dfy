/** Worked runs of the reorder window: packets inserted out of order come out in
    order, a gap holds back `drain`, and `force_drain` skips over it. */
module ReorderScenarios {
  import opened Wrappers
  import opened Machine
  import opened ReorderSpec
  import Reorder

  const P5 := Packet(5, 0)
  const P7 := Packet(7, 1)

  /** After packets 5 and 7: 5 at the head, a hole where 6 belongs, 7 after it. */
  const Gapped := Window(true, 5, [Some(P5), None, Some(P7), None], 2)

  /** After `drain`: 5 is out and the hole is at the head. */
  const Stalled := Window(true, 6, [None, Some(P7), None, None], 1)

  /** The first packet fixes the floor; 7 lands two slots after it. */
  lemma ScenarioInserts()
    ensures Insert(Fresh(4), P5) == Inserted(Window(true, 5, [Some(P5), None, None, None], 1), ACCEPTED)
    ensures Insert(Window(true, 5, [Some(P5), None, None, None], 1), P7) == Inserted(Gapped, ACCEPTED)
  {
    assert SignedDiff(5, 5) == 0;
    assert SignedDiff(7, 5) == 2;
  }

  /** Packet 3 is too old and packet 9 too far ahead: both are refused and the
      window stays as it was. */
  lemma ScenarioRejects()
    ensures Insert(Gapped, Packet(3, 2)) == Inserted(Gapped, STALE)
    ensures Insert(Gapped, Packet(9, 3)) == Inserted(Gapped, FUTURE)
  {
    assert SignedDiff(3, 5) == -2;
    assert SignedDiff(9, 5) == 4;
  }

  /** `drain` hands out 5 and stops at the hole, whatever room the caller gives. */
  lemma ScenarioDrainStalls()
    ensures Drain(Gapped, 10) == Drained(Stalled, [P5], 1)
  {
    assert Pop(Gapped) == Stalled;
    assert Drain(Stalled, 9) == Drained(Stalled, [], 0);
  }

  /** The window `force_drain` reaches once 7 is out: empty, expecting 8. */
  const Drained8 := Window(true, 8, [None, None, None, None], 0)

  /** Four empty slots. */
  lemma FourEmpties()
    ensures Empties(4) == Drained8.slots
  {
  }

  /** On the empty window the remaining iterations only skip. */
  lemma ScenarioForceDrainTail()
    ensures ForceDrain(Drained8, 9, 2) == Drained(Drained8, [], 2)
  {
    assert Skip(Drained8) == Drained8;
    assert ForceDrain(Drained8, 9, 0) == Drained(Drained8, [], 0);
    assert ForceDrain(Drained8, 9, 1) == Drained(Drained8, [], 1);
  }

  /** The window after skipping the hole: 7 now at the head. */
  const Skipped := Window(true, 6, [Some(P7), None, None, None], 1)

  /** From there 7 is dequeued and the rest of the window is skipped. */
  lemma ScenarioForceDrainRest()
    ensures ForceDrain(Skipped, 10, 3) == Drained(Drained8, [P7], 3)
  {
    assert Pop(Skipped) == Drained8;
    ScenarioForceDrainTail();
  }

  /** `force_drain` skips the hole, hands out 7 and goes once around the window,
      leaving it empty and expecting 8. */
  lemma ScenarioForceDrainSkips()
    ensures ForceDrainAll(Stalled, 10) == Drained(Window(true, 8, Empties(4), 0), [P7], 4)
  {
    assert Skip(Stalled) == Skipped;
    ScenarioForceDrainRest();
    FourEmpties();
    assert ForceDrain(Stalled, 10, 4) == Drained(Drained8, [P7], 4);
  }

  const Q5 := Packet(5, 0)
  const Q6 := Packet(6, 1)
  const Q8 := Packet(8, 2)
  const Q7 := Packet(7, 3)

  /** An empty slot. */
  const E: Option<Packet> := None

  /** Eight slots after 5, 6 and 8: a hole where 7 belongs. */
  const Three := Window(true, 5, [Some(Q5), Some(Q6), E, Some(Q8), E, E, E, E], 3)

  /** Eight slots after 5, 6, 8 and 7: four packets in a row from the head. */
  const Four := Window(true, 5, [Some(Q5), Some(Q6), Some(Q7), Some(Q8), E, E, E, E], 4)

  /** 5, 6, 8 and 7 arrive in that order; each lands at its distance from 5. */
  lemma ScenarioOutOfOrderInserts()
    ensures var a := Insert(Fresh(8), Q5);
      var b := Insert(a.after, Q6);
      var c := Insert(b.after, Q8);
      && a.code == ACCEPTED && b.code == ACCEPTED && c.code == ACCEPTED
      && c.after == Three
      && Insert(Three, Q7) == Inserted(Four, ACCEPTED)
  {
    assert SignedDiff(5, 5) == 0;
    assert SignedDiff(6, 5) == 1;
    assert SignedDiff(8, 5) == 3;
    assert SignedDiff(7, 5) == 2;
  }

  /** Draining with room for ten hands out 5, 6, 7, 8 in order and stops at the
      first empty slot, expecting 9. */
  lemma ScenarioDrainInOrder()
    ensures Drain(Four, 10) == Drained(Window(true, 9, Empties(8), 0), [Q5, Q6, Q7, Q8], 4)
  {
    var w1 := Pop(Four);
    var w2 := Pop(w1);
    var w3 := Pop(w2);
    var w4 := Pop(w3);
    assert w4 == Window(true, 9, Empties(8), 0);
    assert Drain(w4, 6) == Drained(w4, [], 0);
    assert Drain(w3, 7) == Drained(w4, [Q8], 1);
    assert Drain(w2, 8) == Drained(w4, [Q7, Q8], 2);
    assert Drain(w1, 9) == Drained(w4, [Q6, Q7, Q8], 3);
  }

  /** Eight slots after 5, and after 5 and 6. */
  const One := Window(true, 5, [Some(Q5), E, E, E, E, E, E, E], 1)
  const Two := Window(true, 5, [Some(Q5), Some(Q6), E, E, E, E, E, E], 2)

  /** The inserts of that run one at a time, each accepted. */
  lemma ScenarioInsertSteps()
    ensures Insert(Fresh(8), Q5) == Inserted(One, ACCEPTED)
    ensures Insert(One, Q6) == Inserted(Two, ACCEPTED)
    ensures Insert(Two, Q8) == Inserted(Three, ACCEPTED)
    ensures Insert(Three, Q7) == Inserted(Four, ACCEPTED)
  {
    ScenarioOutOfOrderInserts();
  }

  /** The inserts of that run on a buffer as `mlvpn_reorder_create` returns it:
      create eight slots and insert 5, 6, 8 and 7. */
  method CreateAndInsert() returns (b: Reorder.ReorderBuffer, codes: seq<int>)
    ensures fresh(b) && fresh(b.pkts) && b.Valid() && b.View() == Four
    ensures codes == [ACCEPTED, ACCEPTED, ACCEPTED, ACCEPTED]
  {
    assert IsPow2(8) by {
      assert IsPow2(1);
      Pow2Double(1);
      Pow2Double(2);
      Pow2Double(4);
    }
    ScenarioInsertSteps();
    assert Reorder.CreateBufsize(8) == 184 && Reorder.MinBufsize(8) == 120;
    var c := Reorder.Create(8, true);
    b := c;
    var r1 := b.Insert(Q5);
    var r2 := b.Insert(Q6);
    var r3 := b.Insert(Q8);
    var r4 := b.Insert(Q7);
    codes := [r1, r2, r3, r4];
  }

  /** The whole run on such a buffer: the inserts are accepted and a drain with room
      for ten hands out 5, 6, 7, 8. */
  method CreateInsertDrain() returns (codes: seq<int>, out: seq<Packet>)
    ensures codes == [ACCEPTED, ACCEPTED, ACCEPTED, ACCEPTED]
    ensures out == [Q5, Q6, Q7, Q8]
  {
    var b;
    b, codes := CreateAndInsert();
    ScenarioDrainInOrder();
    var buf := new Packet[10](_ => Q5);
    var n := b.Drain(buf, 10);
    out := buf[..n];
  }
}
