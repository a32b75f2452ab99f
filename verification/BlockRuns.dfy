/** Theorems over every run of the block system from the zeroed page. */
module BlockRuns {
  import opened Words
  import opened SlotRing
  import opened BlockSystem
  import BlockMetric
  import Windows

  ghost predicate Run(tr: seq<Sys>, acts: seq<Act>, k: nat, width: nat) {
    && 0 < k < TWO32 && |tr| == |acts| + 1 && tr[0] == Start(k, width)
    && forall n :: 0 <= n < |acts| ==>
         BlockSystem.Enabled(tr[n], acts[n]) && tr[n + 1] == BlockSystem.Apply(tr[n], acts[n])
  }

  /** Every producer step is lap-free, and slot numbering never breaks at a wrap. */
  ghost predicate LapFreeRun(tr: seq<Sys>, acts: seq<Act>, k: nat, width: nat) {
    && Run(tr, acts, k, width)
    && (forall n :: 0 <= n < |acts| && acts[n].Produce? ==> LapFree(tr[n].ring, acts[n].s))
    && (WholeLaps(k) || forall n :: 0 <= n < |tr| ==> |tr[n].ring.log| <= TWO32)
  }

  lemma StepKeepsGeometry(s: Sys, a: Act)
    requires BlockSystem.Enabled(s, a)
    ensures var s' := BlockSystem.Apply(s, a);
            && |s'.ring.slots| == |s.ring.slots| && s'.ring.width == s.ring.width && s.ring.log <= s'.ring.log
  {
  }

  lemma StepExtends(s: Sys, a: Act)
    requires BlockSystem.Enabled(s, a)
    ensures Extends(s.ring, BlockSystem.Apply(s, a).ring)
  {
    if a.Produce? {
      ProduceExtends(s.ring, a.s);
    }
    hide SlotRing.Apply, SlotRing.Enabled;
  }

  /** The slot of ticket t shows it. */
  ghost predicate Live(r: Ring, t: u32) {
    0 < |r.slots| && r.slots[Residue(t, |r.slots|)].ticket == t
  }

  lemma PositionStep(s: Sys, a: Act)
    requires BlockSystem.Enabled(s, a)
    ensures var s' := BlockSystem.Apply(s, a);
            || (s'.expected == s.expected && s'.out == s.out)
            || (|s'.out| == |s.out| + 1 && s.out <= s'.out
                && s'.out[|s.out|].expected == s.expected && s'.expected == Succ(s.expected))
            || (a == LookScan && s'.out == s.out && Live(s.ring, s'.expected))
  {
    hide Residue, Dist, SlotRing.Enabled;
  }

  /** Where the consumer can come to, in any run and through any mix of passes: at a later
      moment it stands where it stood, or one past its last delivery since, or at a ticket
      whose slot a scan since then found live. No ticket is passed over by a pass that found
      nothing beyond it. */
  lemma {:induction false} PositionMoves(tr: seq<Sys>, acts: seq<Act>, k: nat, width: nat, a: nat, b: nat)
    requires Run(tr, acts, k, width) && a <= b < |tr|
    ensures tr[a].out <= tr[b].out
    ensures || tr[b].expected == tr[a].expected
            || (|tr[b].out| > |tr[a].out| && tr[b].expected == Succ(tr[b].out[|tr[b].out| - 1].expected))
            || (exists m :: a <= m < b && acts[m] == LookScan && Live(tr[m].ring, tr[b].expected))
    decreases b
  {
    hide BlockSystem.Enabled, BlockSystem.Apply, Succ, Live;
    if a < b {
      PositionMoves(tr, acts, k, width, a, b - 1);
      PositionStep(tr[b - 1], acts[b - 1]);
    }
  }

  /** When a pass comes to publish, and that it does so from where it stands: skip-ahead when
      the ticket it looks at lies beyond its hint, and scatter-gather when its snapshot does
      not show the expected ticket. */
  lemma PassEndsExactly(s: Sys, a: Act)
    requires BlockSystem.Enabled(s, a) && s.phase != Publishing
    ensures var s' := BlockSystem.Apply(s, a);
            && (s'.phase == Publishing ==> s'.expected == s.expected && s'.out == s.out)
            && (s'.phase == Publishing <==>
                || (a == LookTop && Dist(s.phase.h, s.expected) < 0)
                || (a == LookScan && Dist(s.phase.h, s.phase.scan) < 0)
                || (a == DrainNext && s.phase.cells[(Expects(s), s.ring.width)] != s.expected))
  {
    hide Residue, Dist, SlotRing.Enabled;
  }

  lemma ProduceIsStep(s: Sys, a: Act)
    requires BlockSystem.Enabled(s, a) && a.Produce?
    ensures SlotRing.Enabled(s.ring, a.s) && BlockSystem.Apply(s, a).ring == SlotRing.Apply(s.ring, a.s)
  {
  }

  lemma {:induction false} Geometry(tr: seq<Sys>, acts: seq<Act>, k: nat, width: nat, n: nat)
    requires Run(tr, acts, k, width) && n < |tr|
    ensures |tr[n].ring.slots| == k && tr[n].ring.width == width
  {
    if n > 0 {
      Geometry(tr, acts, k, width, n - 1);
      StepKeepsGeometry(tr[n - 1], acts[n - 1]);
    }
  }

  lemma {:induction false} RunOrdered(tr: seq<Sys>, acts: seq<Act>, k: nat, width: nat, n: nat)
    requires Run(tr, acts, k, width) && n < |tr| && |tr[n].ring.log| < TWO32 - 1
    ensures OrderInv(tr[n])
  {
    hide OrderInv, BlockSystem.Apply, BlockSystem.Enabled;
    if n == 0 {
      StartOrdered(k, width);
    } else {
      StepKeepsGeometry(tr[n - 1], acts[n - 1]);
      RunOrdered(tr, acts, k, width, n - 1);
      OrderStep(tr[n - 1], acts[n - 1]);
    }
  }

  lemma {:induction false} RunIntact(tr: seq<Sys>, acts: seq<Act>, k: nat, width: nat, n: nat)
    requires LapFreeRun(tr, acts, k, width) && n < |tr|
    ensures IntactInv(tr[n])
  {
    hide IntactInv, BlockSystem.Apply, BlockSystem.Enabled;
    if n == 0 {
      StartIntact(k, width);
    } else {
      RunIntact(tr, acts, k, width, n - 1);
      Geometry(tr, acts, k, width, n);
      assert tr[n - 1 + 1] == BlockSystem.Apply(tr[n - 1], acts[n - 1]);
      if acts[n - 1].Produce? {
        ProduceIsStep(tr[n - 1], acts[n - 1]);
      }
      IntactStep(tr[n - 1], acts[n - 1]);
    }
  }

  /** Whole-run delivery order, for any producers (lapping included) and any mix of passes
      while the counter has not wrapped: deliveries strictly ascend, each ticket >= 1 was
      published, and rd_idx never overtakes wr_idx but for the step 0 -> 1 on a zeroed page. */
  lemma DeliveryOrder(tr: seq<Sys>, acts: seq<Act>, k: nat, width: nat, n: nat)
    requires Run(tr, acts, k, width) && n < |tr| && |tr[n].ring.log| < TWO32 - 1
    ensures forall i, j :: 0 <= i < j < |tr[n].out| ==> tr[n].out[i].expected < tr[n].out[j].expected
    ensures forall i :: 0 <= i < |tr[n].out| && 1 <= tr[n].out[i].expected ==>
              Published(tr[n].ring, tr[n].out[i].expected)
    ensures tr[n].rd <= tr[n].ring.wr || (tr[n].rd == 1 && tr[n].ring.wr == 0)
  {
    RunOrdered(tr, acts, k, width, n);
  }

  /** Payload integrity, for ever and across counter wraps: in a lap-free run whatever the
      consumer delivers for a ticket that was issued and published when the read began, and
      whose slot was not handed out again before it ended, is exactly what the ticket's
      producer wrote. A stamp found by skip-ahead always is such a published one. */
  lemma PayloadIntegrity(tr: seq<Sys>, acts: seq<Act>, k: nat, width: nat, n: nat, i: nat, t: nat)
    requires LapFreeRun(tr, acts, k, width) && n < |tr| && i < |tr[n].out|
    requires var d := tr[n].out[i]; d.seen.n1 - k <= t < d.seen.n0 && Wrap(t) == d.expected
    requires var d := tr[n].out[i]; t !in d.seen.busy0 || (d.skip && 1 <= t)
    ensures t < |tr[n].ring.log|
    ensures tr[n].out[i].ticket == Wrap(t) && tr[n].out[i].fields == tr[n].ring.log[t]
  {
    RunIntact(tr, acts, k, width, n);
    Geometry(tr, acts, k, width, n);
    assert Intact(tr[n].ring, tr[n].out[i]);
  }

  /** The block tenant, before the counter wraps: every ticket t >= 1 that skip-ahead
      delivers carries the metric of the producer that drew t, and its halves reassemble to
      that bio's sector, unless t + 8 was drawn before the read ended. */
  lemma BlockPayloadIntegrity(tr: seq<Sys>, acts: seq<Act>, n: nat, i: nat, b: BlockMetric.Bio)
    requires LapFreeRun(tr, acts, Windows.BLOCK_SLOTS, BlockMetric.FIELDS) && n < |tr| && i < |tr[n].out|
    requires |tr[n].ring.log| < TWO32 - 1
    requires var d := tr[n].out[i]; d.skip && 1 <= d.expected && d.seen.n1 <= d.expected + Windows.BLOCK_SLOTS
    ensures tr[n].out[i].expected < |tr[n].ring.log|
    ensures tr[n].ring.log[tr[n].out[i].expected] == BlockMetric.Encode(b) ==>
              && tr[n].out[i].ticket == tr[n].out[i].expected
              && tr[n].out[i].fields == BlockMetric.Encode(b)
              && BlockMetric.SectorOf(tr[n].out[i].fields) == b.sector
              && BlockMetric.ShowsBio(BlockMetric.Printed(tr[n].out[i].fields), b)
  {
    RunOrdered(tr, acts, Windows.BLOCK_SLOTS, BlockMetric.FIELDS, n);
    PayloadIntegrity(tr, acts, Windows.BLOCK_SLOTS, BlockMetric.FIELDS, n, i, tr[n].out[i].expected);
    BlockMetric.EncodeRoundTrip(b, b);
    BlockMetric.PrintShowsBio(b);
  }

  /** The same at any age of the counter, wraps included, for the ticket t >= 1 that the
      delivery's 32-bit number stands for: drawn when the read began, and t + 8 not drawn
      before it ended. */
  lemma BlockPayloadAcrossWraps(tr: seq<Sys>, acts: seq<Act>, n: nat, i: nat, t: nat, b: BlockMetric.Bio)
    requires LapFreeRun(tr, acts, Windows.BLOCK_SLOTS, BlockMetric.FIELDS) && n < |tr| && i < |tr[n].out|
    requires var d := tr[n].out[i];
             d.skip && 1 <= t && Wrap(t) == d.expected && d.seen.n1 - Windows.BLOCK_SLOTS <= t < d.seen.n0
    ensures t < |tr[n].ring.log|
    ensures tr[n].ring.log[t] == BlockMetric.Encode(b) ==>
              && tr[n].out[i].ticket == tr[n].out[i].expected
              && tr[n].out[i].fields == BlockMetric.Encode(b)
              && BlockMetric.SectorOf(tr[n].out[i].fields) == b.sector
              && BlockMetric.ShowsBio(BlockMetric.Printed(tr[n].out[i].fields), b)
  {
    PayloadIntegrity(tr, acts, Windows.BLOCK_SLOTS, BlockMetric.FIELDS, n, i, t);
    BlockMetric.EncodeRoundTrip(b, b);
    BlockMetric.PrintShowsBio(b);
  }

  /** Snapshot integrity: the copy is taken word by word while producers go on. Ticket t,
      published before the copy began and not lapped before it ended, is in the snapshot
      whole, with its own stamp and its own producer's metric. */
  lemma SnapshotIntegrity(tr: seq<Sys>, acts: seq<Act>, k: nat, width: nat, n: nat, t: nat, j: nat)
    requires LapFreeRun(tr, acts, k, width) && n < |tr| && tr[n].phase.Draining?
    requires SafelyRead(k, tr[n].phase.seen, t) && j <= width
    ensures t < |tr[n].ring.log| && |tr[n].ring.log[t]| == width
    ensures (SlotOf(t, k), j) in tr[n].phase.cells
    ensures tr[n].phase.cells[(SlotOf(t, k), j)] == if j < width then tr[n].ring.log[t][j] else Wrap(t)
  {
    RunIntact(tr, acts, k, width, n);
    Geometry(tr, acts, k, width, n);
  }
}
