/** The block tenant's lane on the shared page, its producer, and the consumer thread with
    its two drain engines, as they run undisturbed. */
module SlotClient {
  import opened Words
  import opened SlotRing
  import opened Drain

  class SlotLane {
    var rdIdx: u32
    var wrIdx: u32
    const slots: array<Slot>

    constructor (k: nat, width: nat)
      ensures fresh(slots) && slots[..] == ZeroPage(k, width).slots && rdIdx == wrIdx == 0
    {
      rdIdx, wrIdx := 0, 0;
      slots := new Slot[k](_ => Slot(Zeros(width), 0));
    }

    /** Reserve, write, publish, by a producer that nobody overtakes. */
    method CommitMetric(metric: Metric) returns (ticket: u32)
      modifies this`wrIdx, slots
      ensures slots.Length == 0 ==> ticket == wrIdx == old(wrIdx)
      ensures slots.Length > 0 ==> ticket == old(wrIdx) && wrIdx == Succ(ticket)
      ensures slots.Length > 0 ==> slots[..] == old(slots[..])[SlotOf(ticket, slots.Length) := Slot(metric, ticket)]
    {
      ticket := wrIdx;
      if slots.Length == 0 {
        return;
      }
      wrIdx := Succ(wrIdx);
      var i := Residue(ticket, slots.Length);
      ghost var pool := slots[..];
      slots[i] := slots[i].(fields := metric);
      slots[i] := slots[i].(ticket := ticket);
      assert slots[..] == pool[i := Slot(metric, ticket)];
    }
  }

  class Consumer {
    const lane: SlotLane
    var expected: u32
    /** What process_block_metric printed: the slots it was given. */
    var printed: seq<Slot>

    ghost predicate Valid()
      reads this, lane
    {
      0 < lane.slots.Length < TWO32
    }

    constructor (lane: SlotLane)
      requires 0 < lane.slots.Length < TWO32
      ensures Valid() && this.lane == lane && expected == lane.rdIdx && printed == []
    {
      this.lane := lane;
      expected := lane.rdIdx;
      printed := [];
    }

    /** One pass of the scatter-gather engine. It ends because each delivery takes a slot
        of the snapshot that no earlier delivery used, and it delivers the maximal run of
        consecutive tickets that starts at the expected one. */
    method ScatterGatherPass(ghost e: int) returns (ghost n: nat)
      requires Valid() && Wrap(e) == expected
      modifies this`expected, this`printed, lane`rdIdx
      ensures MaximalRun(lane.slots[..], e, n) && n <= lane.slots.Length
      ensures printed == old(printed) + Records(lane.slots[..], Range(e, e + n))
      ensures lane.rdIdx == expected == Wrap(e + n)
    {
      hide Wrap, Succ, Residue, Range, UsedBy;
      var snapshot := lane.slots[..];
      ghost var before := printed;
      ghost var free: set<nat> := Indices(|snapshot|);
      n := 0;
      while true
        invariant expected == Wrap(e + n)
        invariant |free| + n == |snapshot|
        invariant forall t :: e <= t < e + n ==> Holds(snapshot, t)
        invariant forall i: nat :: i < |snapshot| && i !in free ==> UsedBy(snapshot, e, n, i)
        invariant printed == before + Records(snapshot, Range(e, e + n))
        decreases |free|
      {
        var i := Residue(expected, |snapshot|);
        if snapshot[i].ticket != expected {
          break;
        }
        SuccIsNext(e + n);
        FreshSlot(snapshot, e, n);
        RunDelivers(snapshot, e, n, before);
        free := free - {i};
        printed := printed + [snapshot[i]];
        expected := Succ(expected);
        n := n + 1;
      }
      assert !Holds(snapshot, e + n);
      lane.rdIdx := expected;
    }

    /** One pass of the skip-ahead engine on slots that nobody changes meanwhile: it
        delivers exactly the live tickets from the expected one up to the hint, ascending
        and once each, counter wrap included. */
    method SkipAheadPass(ghost e: int)
      requires Valid() && Wrap(e) == expected
      modifies this`expected, this`printed, lane`rdIdx
      ensures printed == old(printed) + Records(lane.slots[..], SkipTickets(lane.slots[..], e, lane.wrIdx))
      ensures lane.rdIdx == expected == Wrap(SkipNext(lane.slots[..], e, lane.wrIdx))
      ensures StopsAfter(SkipTickets(lane.slots[..], e, lane.wrIdx), e, SkipNext(lane.slots[..], e, lane.wrIdx))
    {
      hide Wrap, Succ, Residue, Dist;
      var hint := lane.wrIdx;
      ghost var pool, before, z, c := lane.slots[..], printed, Horizon(e, hint), e;
      NothingToDrain(pool, e, e);
      NothingToDrain(pool, e, z);
      while Dist(hint, expected) >= 0
        invariant lane.slots[..] == pool
        invariant expected == Wrap(c) && e <= c <= Max(e, z) && Dist(hint, expected) == z - 1 - c
        invariant printed == before + Records(pool, Live(pool, e, c))
        invariant c == After(pool, e, c) || (c < z && Holds(pool, c))
        decreases z - c
      {
        var i := Residue(expected, lane.slots.Length);
        assert lane.slots[i] == At(pool, c);
        DistStep(hint, expected);
        SuccIsNext(c);
        if lane.slots[i].ticket == expected {
          LiveDelivers(pool, e, c, before);
          printed := printed + [lane.slots[i]];
          expected := Succ(expected);
          c := c + 1;
          continue;
        }
        var scan := Succ(expected);
        var healed := false;
        ghost var s := c + 1;
        while Dist(hint, scan) >= 0
          invariant lane.slots[..] == pool
          invariant scan == Wrap(s) && c < s <= z && Dist(hint, scan) == z - 1 - s
          invariant forall t :: c <= t < s ==> !Holds(pool, t)
          invariant !healed && expected == Wrap(c) && printed == before + Records(pool, Live(pool, e, c))
          decreases z - s
        {
          var j := Residue(scan, lane.slots.Length);
          assert lane.slots[j] == At(pool, s);
          if lane.slots[j].ticket == scan {
            expected := scan;
            healed := true;
            break;
          }
          DistStep(hint, scan);
          SuccIsNext(s);
          scan := Succ(scan);
          s := s + 1;
        }
        SkipDead(pool, e, c, s);
        if !healed {
          assert Live(pool, e, z) == Live(pool, e, c);
          break;
        }
        c := s;
      }
      assert Live(pool, e, z) == Live(pool, e, c);
      lane.rdIdx := expected;
    }
  }

  function Indices(n: nat): (s: set<nat>)
    ensures |s| == n && forall i: nat :: i in s <==> i < n
  {
    if n == 0 then {} else
      var s := Indices(n - 1);
      assert forall i :: i in s + {n - 1} <==> i in s || i == n - 1;
      s + {n - 1}
  }

  /** Slot i showed one of the n tickets from e. */
  ghost predicate UsedBy(slots: seq<Slot>, e: int, n: nat, i: nat)
    requires 0 < |slots|
  {
    exists t :: e <= t < e + n && SlotOf(t, |slots|) == i
  }

  /** The slot of the next live ticket of a run shows no earlier ticket of the run. */
  lemma FreshSlot(slots: seq<Slot>, e: int, n: nat)
    requires 0 < |slots| && n <= |slots| < TWO32
    requires forall t :: e <= t <= e + n ==> Holds(slots, t)
    ensures !UsedBy(slots, e, n, SlotOf(e + n, |slots|))
    ensures forall i: nat :: UsedBy(slots, e, n, i) || i == SlotOf(e + n, |slots|) ==> UsedBy(slots, e, n + 1, i)
  {
    forall t | e <= t < e + n ensures SlotOf(t, |slots|) != SlotOf(e + n, |slots|) {
      LiveTicketsUseOwnSlots(slots, t, e + n);
    }
    assert SlotOf(e + n, |slots|) == SlotOf(e + n, |slots|) && e <= e + n < e + n + 1;
  }

  lemma RunDelivers(slots: seq<Slot>, e: int, n: nat, before: seq<Slot>)
    requires 0 < |slots|
    ensures before + Records(slots, Range(e, e + n)) + [At(slots, e + n)]
            == before + Records(slots, Range(e, e + n + 1))
  {
    assert Range(e, e + n + 1) == Range(e, e + n) + [e + n];
    assert Records(slots, Range(e, e + n + 1)) == Records(slots, Range(e, e + n)) + [At(slots, e + n)];
  }

  lemma LiveDelivers(slots: seq<Slot>, e: int, c: int, before: seq<Slot>)
    requires 0 < |slots| && e <= c && Holds(slots, c)
    ensures before + Records(slots, Live(slots, e, c)) + [At(slots, c)]
            == before + Records(slots, Live(slots, e, c + 1))
    ensures After(slots, e, c + 1) == c + 1
  {
    LiveAppend(slots, e, c);
    assert Records(slots, Live(slots, e, c) + [c]) == Records(slots, Live(slots, e, c)) + [At(slots, c)];
  }

  lemma NothingToDrain(slots: seq<Slot>, e: int, z: int)
    requires 0 < |slots|
    ensures z <= e ==> Live(slots, e, z) == [] && After(slots, e, z) == e
  {
  }

  /** Leaping over dead tickets delivers nothing. */
  lemma SkipDead(slots: seq<Slot>, e: int, c: int, s: int)
    requires 0 < |slots| && e <= c <= s
    requires forall t :: c <= t < s ==> !Holds(slots, t)
    ensures Live(slots, e, s) == Live(slots, e, c)
  {
    NoneLive(slots, c, s);
    LiveSplit(slots, e, c, s);
  }
}
