/** Ticket 0 on a page that starts zeroed: the one ticket that a consumer can be given before
    its producer published it, and exactly when. */
module Phantom {
  import opened Words
  import opened SlotRing
  import opened BlockSystem
  import BlockRuns
  import Drain
  import Recovery
  import Snapshot

  /** Skip-ahead, in any lap-free run and at any age of the counter: the look at ticket t's
      slot starts a delivery of t although t is not published, if and only if t is 0 and
      ticket 0 was not stamped before the look. */
  lemma SkipPhantomInRuns(tr: seq<Sys>, acts: seq<Act>, k: nat, width: nat, n: nat, t: nat)
    requires BlockRuns.LapFreeRun(tr, acts, k, width) && n < |acts| && acts[n] == LookTop
    requires k < TWO31 && (WholeLaps(k) || |tr[n].ring.log| < TWO32)
    requires tr[n].phase.Top? && Dist(tr[n].phase.h, tr[n].expected) >= 0
    requires tr[n].expected == Wrap(t) && (t <= |tr[n].ring.log| || (t == 1 && |tr[n].ring.log| == 0))
    ensures tr[n + 1].phase.Reading? && !Published(tr[n].ring, t) <==> t == 0 && !Published(tr[n].ring, 0)
  {
    var s := tr[n];
    BlockRuns.RunIntact(tr, acts, k, width, n);
    BlockRuns.Geometry(tr, acts, k, width, n);
    LookFinds(s, t);
    hide BlockSystem.Apply, Dist, LapFreeInv;
    assert tr[n + 1] == BlockSystem.Apply(s, LookTop);
    if !Published(s.ring, t) {
      Recovery.UnpublishedShows(s.ring, t);
    }
  }

  lemma LookFinds(s: Sys, t: nat)
    requires BlockSystem.Enabled(s, LookTop) && Dist(s.phase.h, s.expected) >= 0 && s.expected == Wrap(t)
    ensures BlockSystem.Apply(s, LookTop).phase.Reading? <==> Drain.Holds(s.ring.slots, t)
  {
    hide Dist, Residue;
  }

  /** A stamp that is shown without being published is that of ticket 0. */
  lemma PhantomStamp(r: Ring, e: u32)
    requires LapFreeInv(r) && |r.log| < TWO32 - 1
    ensures var s := r.slots[SlotOf(e, |r.slots|)];
            && |s.fields| == r.width
            && (s.ticket == e && !Published(r, e) <==> e == 0 && !Published(r, 0))
  {
    SlotShowsIssuedTicket(r, SlotOf(e, |r.slots|));
    if e == 0 && !Published(r, 0) {
      Recovery.ZeroShows(r);
    }
  }

  /** Scatter-gather, in any lap-free run before the counter wraps: the expected ticket is
      delivered although it was not published when its stamp was copied, if and only if it is
      ticket 0 and ticket 0 was not stamped by then. */
  lemma ScatterPhantomInRuns(tr: seq<Sys>, acts: seq<Act>, k: nat, width: nat, n: nat) returns (m: nat)
    requires BlockRuns.LapFreeRun(tr, acts, k, width) && n < |acts| && acts[n] == DrainNext
    requires |tr[n].ring.log| < TWO32 - 1
    ensures m < n && acts[m] == CopyCell(SlotOf(tr[n].expected, k), width)
    ensures |tr[n + 1].out| > |tr[n].out| && !Published(tr[m].ring, tr[n].expected) <==>
            tr[n].expected == 0 && !Published(tr[m].ring, 0)
  {
    var e := tr[n].expected;
    Snapshot.RingAt(tr, acts, k, width, n, n);
    DrainFinds(tr[n]);
    assert BlockRuns.Run(tr, acts, k, width) && tr[n + 1] == BlockSystem.Apply(tr[n], acts[n]);
    hide BlockRuns.LapFreeRun, BlockRuns.Run, Published, BlockSystem.Apply, BlockSystem.Enabled, LapFreeInv;
    hide Snapshot.Has, Residue;
    var v := Stamp(tr[n]);
    m := Snapshot.Taken(tr, acts, k, width, n, SlotOf(e, k), width, v);
    TakenByCopy(tr, acts, k, width, m, n, SlotOf(e, k), width, v);
    Snapshot.RingAt(tr, acts, k, width, m, n);
    PhantomStamp(tr[m].ring, e);
  }

  /** The stamp that the snapshot has for the expected ticket. */
  function Stamp(s: Sys): u32 {
    if s.phase.Draining? && 0 < |s.ring.slots| && (Expects(s), s.ring.width) in s.phase.cells
    then s.phase.cells[(Expects(s), s.ring.width)] else 0
  }

  lemma DrainFinds(s: Sys)
    requires BlockSystem.Enabled(s, DrainNext)
    ensures s.phase.Draining? && Snapshot.Has(s, Expects(s), s.ring.width, Stamp(s))
    ensures |BlockSystem.Apply(s, DrainNext).out| > |s.out| <==> Stamp(s) == s.expected
  {
  }

  /** What a snapshot has was copied, not read in place. */
  lemma {:induction false} TakenByCopy(tr: seq<Sys>, acts: seq<Act>, k: nat, width: nat,
                                       m: nat, n: nat, i: nat, j: nat, v: u32)
    requires BlockRuns.Run(tr, acts, k, width) && n < |tr| && tr[n].phase.Draining?
    requires Snapshot.LastTaken(tr, acts, m, n, i, j, v)
    ensures acts[m] == CopyCell(i, j)
  {
    SamePass(tr, acts, k, width, m + 1, n);
    if acts[m].ReadCell? {
      assert false;
    }
  }

  /** Within a copy that does not begin anew. */
  lemma {:induction false} SamePass(tr: seq<Sys>, acts: seq<Act>, k: nat, width: nat, m: nat, n: nat)
    requires BlockRuns.Run(tr, acts, k, width) && m <= n < |tr| && (tr[n].phase.Draining? || tr[n].phase.Copying?)
    requires forall l :: m <= l < n ==> !acts[l].BeginCopy?
    ensures tr[m].phase.Draining? || tr[m].phase.Copying?
    decreases n
  {
    if m < n {
      assert tr[n] == BlockSystem.Apply(tr[n - 1], acts[n - 1]);
      SamePass(tr, acts, k, width, m, n - 1);
    }
  }
}
