/** What an overrun does to scatter-gather: it waits for a ticket whose slot has moved on, and
    no later pass of it delivers anything. Skip-ahead recovers (Undisturbed.RecoveryInRuns). */
module Overrun {
  import opened Words
  import opened SlotRing
  import opened BlockSystem
  import BlockRuns
  import Drain
  import Snapshot

  /** The slot of ticket t shows it exactly from the moment t is published to the moment the
      next ticket of the slot is; ticket 0, which the zeroed page shows, is apart. */
  lemma ShowsExactly(r: Ring, t: nat)
    requires LapFreeInv(r) && |r.slots| < TWO31 && (WholeLaps(|r.slots|) || |r.log| < TWO32)
    requires 1 <= t <= |r.log| && |r.log| - t <= TWO32
    ensures Drain.Holds(r.slots, t) <==> Published(r, t) && !Published(r, t + |r.slots|)
  {
    var k := |r.slots|;
    SlotOfPlain(t, k);
    hide Residue, WholeLaps;
    var u := ResidueInWindow(|r.log|, k, Residue(t, k));
    assert Settled(r, u);
    var v := if u in r.busy then u - k else u;
    StampDecides(v, t);
    ResidueShift(t, k);
    if t >= |r.log| - k && t < |r.log| {
      ResidueInjective(t, u, k);
    } else if t < |r.log| && t + k >= |r.log| - k {
      ResidueInjective(t + k, u, k);
    } else if t == |r.log| {
      ResidueShift(u, k);
      ResidueInjective(t, u + k, k);
    }
  }

  lemma StampDecides(v: int, t: nat)
    requires -TWO32 < v - t < TWO32 && 1 <= t && (v < 0 ==> t < TWO32)
    ensures BaseStamp(v) == Wrap(t) <==> v == t
  {
  }

  /** Once t + k is published the slot never shows t again, until the counter comes round. */
  lemma PassedNeverShows(r: Ring, t: nat)
    requires LapFreeInv(r) && Published(r, t + |r.slots|) && |r.log| - t <= TWO32
    ensures !Drain.Holds(r.slots, t)
  {
    var k := |r.slots|;
    SlotOfPlain(t, k);
    hide Residue, WholeLaps;
    var u := ResidueInWindow(|r.log|, k, Residue(t, k));
    assert Settled(r, u);
    ResidueShift(t, k);
    if u < t + k {
      ResidueShift(u, k);
      ResidueInjective(t + k, u + k, k);
      assert false;
    }
    if u in r.busy && u - k < t + k {
      ResidueInjective(t + k, u, k);
    }
    Later(if u in r.busy then u - k else u, t);
  }

  lemma Later(v: int, t: nat)
    requires t < v < t + TWO32
    ensures BaseStamp(v) != Wrap(t)
  {
  }

  /** The consumer is at ticket t, it runs scatter-gather, and no snapshot it has under way
      shows t. */
  ghost predicate Waits(s: Sys, t: nat) {
    && s.expected == Wrap(t)
    && match s.phase
       case Idle => true
       case Publishing => true
       case Copying(_, _, cells) => Misses(s, cells)
       case Draining(_, cells) => Misses(s, cells)
       case _ => false
  }

  ghost predicate Misses(s: Sys, cells: map<(nat, nat), u32>) {
    0 < |s.ring.slots| && ((Expects(s), s.ring.width) in cells ==> cells[(Expects(s), s.ring.width)] != s.expected)
  }

  lemma WaitsStep(s: Sys, a: Act, t: nat)
    requires Waits(s, t) && BlockSystem.Enabled(s, a) && !a.BeginSkip?
    requires LapFreeInv(s.ring) && !Drain.Holds(s.ring.slots, t)
    ensures Waits(BlockSystem.Apply(s, a), t) && BlockSystem.Apply(s, a).out == s.out
  {
    if a.Produce? {
      ProduceExtends(s.ring, a.s);
    }
    assert Drain.At(s.ring.slots, t) == s.ring.slots[Expects(s)];
    hide Residue, SlotRing.Enabled, SlotRing.Apply, LapFreeInv, Wrap;
  }

  lemma PublishedStays(tr: seq<Sys>, acts: seq<Act>, k: nat, width: nat, n: nat, t: nat)
    requires BlockRuns.Run(tr, acts, k, width) && n < |acts| && Published(tr[n].ring, t)
    ensures Published(tr[n + 1].ring, t)
  {
    BlockRuns.StepExtends(tr[n], acts[n]);
  }

  /** Scatter-gather never recovers: let the consumer rest at ticket t when ticket t + k, the
      next one of its slot, is already published. However long the run goes on, until 2^32
      tickets after t, no pass of scatter-gather delivers anything or moves on. */
  lemma {:induction false} OverrunForGood(tr: seq<Sys>, acts: seq<Act>, k: nat, width: nat, a: nat, b: nat, t: nat)
    requires BlockRuns.LapFreeRun(tr, acts, k, width) && a <= b < |tr|
    requires tr[a].phase.Idle? && tr[a].expected == Wrap(t) && Published(tr[a].ring, t + k)
    requires |tr[b].ring.log| - t <= TWO32 && forall n :: a <= n < b ==> !acts[n].BeginSkip?
    ensures tr[b].out == tr[a].out && tr[b].expected == tr[a].expected
    ensures Waits(tr[b], t) && Published(tr[b].ring, t + k)
    decreases b
  {
    hide BlockSystem.Enabled, BlockSystem.Apply, Waits, Published, LapFreeInv;
    if a == b {
      RestsAt(tr[a], t);
    } else {
      Snapshot.RingAt(tr, acts, k, width, b - 1, b);
      assert |tr[b - 1].ring.log| <= |tr[b].ring.log|;
      OverrunForGood(tr, acts, k, width, a, b - 1, t);
      PassedNeverShows(tr[b - 1].ring, t);
      WaitsStep(tr[b - 1], acts[b - 1], t);
      PublishedStays(tr, acts, k, width, b - 1, t + k);
      WaitsAt(tr[b], t);
    }
  }

  lemma RestsAt(s: Sys, t: nat)
    requires s.phase.Idle? && s.expected == Wrap(t)
    ensures Waits(s, t)
  {
  }

  lemma WaitsAt(s: Sys, t: nat)
    requires Waits(s, t)
    ensures s.expected == Wrap(t)
  {
  }
}
