/** Where the consumer stands, counted without wrap: delivery order and phantoms in lap-free
    runs of any length, as long as the consumer is never 2^31 tickets behind. */
module Positions {
  import opened Words
  import opened SlotRing
  import opened BlockSystem
  import BlockRuns
  import Drain
  import Phantom
  import Recovery
  import Snapshot

  /** The numbers that the consumer's 32-bit words stand for: expected_ticket, the hint, the
      scan ticket and rd_idx; and the tickets delivered so far. */
  datatype Track = Track(pos: nat, hint: nat, scan: nat, rd: nat, tickets: seq<nat>)

  ghost function Next(s: Sys, a: Act, g: Track): Track
    requires BlockSystem.Enabled(s, a)
  {
    var s' := BlockSystem.Apply(s, a);
    match a
    case BeginSkip => g.(hint := |s.ring.log|)
    case LookTop => if s'.phase.Scanning? then g.(scan := g.pos + 1) else g
    case LookScan =>
      if s'.phase.Scanning? then g.(scan := g.scan + 1) else if s'.phase.Top? then g.(pos := g.scan) else g
    case DeliverRead => g.(pos := g.pos + 1, tickets := g.tickets + [g.pos])
    case DrainNext => if |s'.out| > |s.out| then g.(pos := g.pos + 1, tickets := g.tickets + [g.pos]) else g
    case StoreRdIdx => g.(rd := g.pos)
    case _ => g
  }

  ghost function TrackAt(tr: seq<Sys>, acts: seq<Act>, k: nat, width: nat, n: nat): Track
    requires BlockRuns.Run(tr, acts, k, width) && n < |tr|
  {
    if n == 0 then Track(0, 0, 0, 0, []) else Next(tr[n - 1], acts[n - 1], TrackAt(tr, acts, k, width, n - 1))
  }

  ghost predicate ZeroOrOut(r: Ring, t: nat) {
    t == 0 || Published(r, t)
  }

  ghost predicate PhaseTracked(s: Sys, g: Track) {
    var n := |s.ring.log|;
    match s.phase
    case Top(h) => h == Wrap(g.hint) && g.hint <= n && g.pos <= g.hint + 1
    case Reading(h, _, _, _) => h == Wrap(g.hint) && g.pos <= g.hint <= n && ZeroOrOut(s.ring, g.pos)
    case Scanning(h, scan) =>
      h == Wrap(g.hint) && scan == Wrap(g.scan) && g.pos < g.scan <= g.hint + 1 && g.hint <= n
    case Copying(n0, _, _) => n0 <= n && Reached(n0, g.pos)
    case Draining(seen, _) => seen.n0 <= seen.n1 <= n && seen.n1 <= seen.n0 + TWO31 && Reached(seen.n1, g.pos)
    case _ => true
  }

  ghost predicate OutTracked(s: Sys, g: Track) {
    && |g.tickets| == |s.out|
    && (forall i :: 0 <= i < |s.out| ==>
          s.out[i].expected == Wrap(g.tickets[i]) && g.tickets[i] < g.pos && ZeroOrOut(s.ring, g.tickets[i]))
    && forall i, j :: 0 <= i < j < |s.out| ==> g.tickets[i] < g.tickets[j]
  }

  ghost predicate Tracked(s: Sys, g: Track) {
    && s.expected == Wrap(g.pos) && s.rd == Wrap(g.rd) && g.rd <= g.pos && Reached(|s.ring.log|, g.pos)
    && PhaseTracked(s, g) && OutTracked(s, g)
  }

  /** Capacities that divide 2^32 and are small beside it, and a consumer not too far behind. */
  predicate Small(k: nat) {
    0 < k < 0x4000_0000 && WholeLaps(k)
  }

  predicate InSight(s: Sys, g: Track) {
    |s.ring.log| - g.pos < TWO31
  }

  lemma StartTracked(k: nat, width: nat)
    ensures Tracked(BlockSystem.Start(k, width), Track(0, 0, 0, 0, []))
  {
  }

  lemma TrackedProduce(s: Sys, p: Step, g: Track)
    requires Tracked(s, g) && BlockSystem.Enabled(s, Produce(p))
    ensures Tracked(BlockSystem.Apply(s, Produce(p)), g)
  {
    ProduceExtends(s.ring, p);
    hide SlotRing.Apply, SlotRing.Enabled, Wrap;
  }

  lemma TrackedLookTop(s: Sys, g: Track)
    requires Tracked(s, g) && BlockSystem.Enabled(s, LookTop) && InSight(s, g)
    requires LapFreeInv(s.ring) && Small(|s.ring.slots|)
    ensures Tracked(BlockSystem.Apply(s, LookTop), Next(s, LookTop, g))
  {
    DistIsTrueDistance(g.hint, g.pos);
    SuccIsNext(g.pos);
    if !Published(s.ring, g.pos) && g.pos <= g.hint {
      Recovery.UnpublishedShows(s.ring, g.pos);
    }
    assert Drain.At(s.ring.slots, g.pos) == s.ring.slots[Expects(s)];
    hide Dist, Wrap, Residue, LapFreeInv, OutTracked, WholeLaps;
    OutTrackedSame(s, BlockSystem.Apply(s, LookTop), g, Next(s, LookTop, g));
  }

  lemma OutTrackedSame(s: Sys, s': Sys, g: Track, g': Track)
    requires OutTracked(s, g) && s'.out == s.out && s'.ring == s.ring && g'.tickets == g.tickets && g.pos <= g'.pos
    ensures OutTracked(s', g')
  {
    hide Wrap;
  }

  lemma TrackedLookScan(s: Sys, g: Track)
    requires Tracked(s, g) && BlockSystem.Enabled(s, LookScan) && InSight(s, g)
    ensures Tracked(BlockSystem.Apply(s, LookScan), Next(s, LookScan, g))
  {
    DistIsTrueDistance(g.hint, g.scan);
    SuccIsNext(g.scan);
    hide Dist, Wrap, Residue, OutTracked;
    OutTrackedSame(s, BlockSystem.Apply(s, LookScan), g, Next(s, LookScan, g));
  }

  /** One delivery more, of the ticket the consumer stands at. */
  lemma OutTrackedMore(s: Sys, s': Sys, g: Track, g': Track)
    requires OutTracked(s, g) && s'.ring == s.ring && ZeroOrOut(s.ring, g.pos) && s.expected == Wrap(g.pos)
    requires |s'.out| == |s.out| + 1 && s'.out[..|s.out|] == s.out && s'.out[|s.out|].expected == s.expected
    requires g'.tickets == g.tickets + [g.pos] && g'.pos == g.pos + 1
    ensures OutTracked(s', g')
  {
    hide Wrap, ZeroOrOut;
    forall i | 0 <= i < |s.out| ensures s'.out[i] == s.out[i] && g'.tickets[i] == g.tickets[i] {
      assert s'.out[..|s.out|][i] == s'.out[i];
    }
  }

  lemma TrackedDeliverRead(s: Sys, g: Track)
    requires Tracked(s, g) && BlockSystem.Enabled(s, DeliverRead)
    ensures Tracked(BlockSystem.Apply(s, DeliverRead), Next(s, DeliverRead, g))
  {
    SuccIsNext(g.pos);
    hide Dist, Wrap, Residue, OutTracked;
    OutTrackedMore(s, BlockSystem.Apply(s, DeliverRead), g, Next(s, DeliverRead, g));
  }

  lemma TrackedDrain(s: Sys, g: Track)
    requires Tracked(s, g) && BlockSystem.Enabled(s, DrainNext)
    requires Phantom.Stamp(s) == s.expected ==> g.pos == 0 || (Published(s.ring, g.pos) && g.pos < s.phase.seen.n1)
    ensures Tracked(BlockSystem.Apply(s, DrainNext), Next(s, DrainNext, g))
  {
    Phantom.DrainFinds(s);
    SuccIsNext(g.pos);
    hide Dist, Wrap, Residue, OutTracked, Phantom.Stamp;
    if Phantom.Stamp(s) == s.expected {
      OutTrackedMore(s, BlockSystem.Apply(s, DrainNext), g, Next(s, DrainNext, g));
    } else {
      OutTrackedSame(s, BlockSystem.Apply(s, DrainNext), g, Next(s, DrainNext, g));
    }
  }

  lemma TrackedTurn(s: Sys, a: Act, g: Track)
    requires Tracked(s, g) && BlockSystem.Enabled(s, a) && InSight(s, g) && SlotRing.Inv(s.ring)
    requires a.BeginSkip? || a.BeginCopy? || a.ReadCell? || a.CopyCell? || a.EndCopy? || a.StoreRdIdx?
    ensures Tracked(BlockSystem.Apply(s, a), Next(s, a, g))
  {
    WriteIndexCounts(s.ring);
    hide Dist, Wrap, Residue, OutTracked, SlotRing.Inv;
    OutTrackedSame(s, BlockSystem.Apply(s, a), g, Next(s, a, g));
  }

  lemma TrackedStep(s: Sys, a: Act, g: Track)
    requires Tracked(s, g) && BlockSystem.Enabled(s, a) && InSight(s, g)
    requires LapFreeInv(s.ring) && Small(|s.ring.slots|)
    requires a == DrainNext && Phantom.Stamp(s) == s.expected ==>
               g.pos == 0 || (Published(s.ring, g.pos) && s.phase.Draining? && g.pos < s.phase.seen.n1)
    ensures Tracked(BlockSystem.Apply(s, a), Next(s, a, g))
  {
    match a
    case Produce(p) => TrackedProduce(s, p, g);
    case LookTop => TrackedLookTop(s, g);
    case LookScan => TrackedLookScan(s, g);
    case DeliverRead => TrackedDeliverRead(s, g);
    case DrainNext => TrackedDrain(s, g);
    case _ => TrackedTurn(s, a, g);
  }

  // ---------- the stamp that a snapshot has ----------

  /** A stamp that slot i of a lap-free ring shows is that of one published ticket. */
  lemma StampSource(r: Ring, i: nat) returns (v: int)
    requires LapFreeInv(r) && i < |r.slots|
    ensures |r.log| - 2 * |r.slots| <= v < |r.log| && r.slots[i].ticket == BaseStamp(v)
    ensures v >= 0 ==> Published(r, v)
  {
    v := ShowsSome(r, i);
    ShowsStamp(r, i, v);
  }

  /** Two numbers less than 2^32 apart that share a word are the same. */
  lemma SameWord(v: int, t: nat)
    requires BaseStamp(v) == Wrap(t) && -TWO32 < v - t < TWO32 && (v < 0 ==> t < TWO32)
    ensures v == t || (v < 0 && t == 0)
  {
  }

  lemma StampOfSnapshot(tr: seq<Sys>, acts: seq<Act>, k: nat, width: nat, n: nat, g: Track) returns (m: nat)
    requires BlockRuns.LapFreeRun(tr, acts, k, width) && n < |acts| && acts[n] == DrainNext
    requires Small(k) && Tracked(tr[n], g) && InSight(tr[n], g)
    ensures m < n && acts[m] == CopyCell(SlotOf(g.pos, k), width) && tr[n].phase.Draining?
    ensures Phantom.Stamp(tr[n]) == tr[n].expected && g.pos > 0 ==>
              Published(tr[m].ring, g.pos) && Published(tr[n].ring, g.pos) && g.pos < tr[n].phase.seen.n1
    ensures g.pos == 0 && !Published(tr[m].ring, 0) ==> Phantom.Stamp(tr[n]) == tr[n].expected
  {
    var i, s := SlotOf(g.pos, k), tr[n];
    Snapshot.RingAt(tr, acts, k, width, n, n);
    Phantom.DrainFinds(s);
    var z := Phantom.Stamp(s);
    m := Snapshot.Taken(tr, acts, k, width, n, i, width, z);
    Phantom.TakenByCopy(tr, acts, k, width, m, n, i, width, z);
    StampMoment(tr, acts, k, width, m, n, i, z);
    var v := StampSource(tr[m].ring, i);
    if z == s.expected && g.pos > 0 {
      SameWord(v, g.pos);
      PublishedLater(tr, acts, k, width, m, n, g.pos);
    }
    if g.pos == 0 && !Published(tr[m].ring, 0) {
      Recovery.ZeroShows(tr[m].ring);
    }
  }

  lemma StampMoment(tr: seq<Sys>, acts: seq<Act>, k: nat, width: nat, m: nat, n: nat, i: nat, z: u32)
    requires BlockRuns.LapFreeRun(tr, acts, k, width) && n < |tr| && tr[n].phase.Draining?
    requires Snapshot.LastTaken(tr, acts, m, n, i, width, z) && acts[m] == CopyCell(i, width)
    ensures LapFreeInv(tr[m].ring) && |tr[m].ring.slots| == k && i < k && z == tr[m].ring.slots[i].ticket
    ensures tr[n].phase.seen.n0 <= |tr[m].ring.log| <= tr[n].phase.seen.n1
  {
    Snapshot.RingAt(tr, acts, k, width, m, n);
    BlockRuns.RunIntact(tr, acts, k, width, m);
  }

  lemma {:induction false} PublishedLater(tr: seq<Sys>, acts: seq<Act>, k: nat, width: nat, m: nat, n: nat, t: nat)
    requires BlockRuns.Run(tr, acts, k, width) && m <= n < |tr| && Published(tr[m].ring, t)
    ensures Published(tr[n].ring, t)
    decreases n
  {
    if m < n {
      PublishedLater(tr, acts, k, width, m, n - 1, t);
      BlockRuns.StepExtends(tr[n - 1], acts[n - 1]);
    }
  }

  // ---------- whole runs ----------

  /** The consumer was never 2^31 tickets behind up to moment n. */
  ghost predicate KeepsUp(tr: seq<Sys>, acts: seq<Act>, k: nat, width: nat, n: nat)
    requires BlockRuns.Run(tr, acts, k, width) && n < |tr|
  {
    forall m :: 0 <= m <= n ==> InSight(tr[m], TrackAt(tr, acts, k, width, m))
  }

  lemma {:induction false} RunTracked(tr: seq<Sys>, acts: seq<Act>, k: nat, width: nat, n: nat)
    requires BlockRuns.LapFreeRun(tr, acts, k, width) && n < |tr| && Small(k) && KeepsUp(tr, acts, k, width, n)
    ensures Tracked(tr[n], TrackAt(tr, acts, k, width, n))
  {
    hide Tracked, BlockSystem.Enabled, BlockSystem.Apply, Next, InSight, Small;
    if n == 0 {
      StartTracked(k, width);
    } else {
      var g := TrackAt(tr, acts, k, width, n - 1);
      RunTracked(tr, acts, k, width, n - 1);
      assert InSight(tr[n - 1], g);
      Snapshot.RingAt(tr, acts, k, width, n - 1, n);
      if acts[n - 1] == DrainNext {
        var m := StampOfSnapshot(tr, acts, k, width, n - 1, g);
      }
      TrackedStep(tr[n - 1], acts[n - 1], g);
      assert tr[n - 1 + 1] == BlockSystem.Apply(tr[n - 1], acts[n - 1]);
    }
  }

  /** Delivery order at any age: over any lap-free run, wraps included, in which the consumer
      is never 2^31 tickets behind, the deliveries stand for strictly ascending tickets, each
      ticket >= 1 was published, and rd_idx stands for a number that never overtakes the
      number of tickets drawn but for the step 0 -> 1 on a zeroed page. */
  lemma DeliveryOrderAcrossWraps(tr: seq<Sys>, acts: seq<Act>, k: nat, width: nat, n: nat) returns (g: Track)
    requires BlockRuns.LapFreeRun(tr, acts, k, width) && n < |tr| && Small(k) && KeepsUp(tr, acts, k, width, n)
    ensures g == TrackAt(tr, acts, k, width, n) && |g.tickets| == |tr[n].out|
    ensures forall i :: 0 <= i < |g.tickets| ==> tr[n].out[i].expected == Wrap(g.tickets[i])
    ensures forall i, j :: 0 <= i < j < |g.tickets| ==> g.tickets[i] < g.tickets[j]
    ensures forall i :: 0 <= i < |g.tickets| && 1 <= g.tickets[i] ==> Published(tr[n].ring, g.tickets[i])
    ensures tr[n].rd == Wrap(g.rd) && (g.rd <= |tr[n].ring.log| || (g.rd == 1 && |tr[n].ring.log| == 0))
  {
    RunTracked(tr, acts, k, width, n);
    g := TrackAt(tr, acts, k, width, n);
    hide TrackAt, Wrap, PhaseTracked;
  }

  /** Phantoms of scatter-gather at any age: the ticket it stands at is delivered although it
      was not published when its stamp was copied, if and only if it is ticket 0 and ticket 0
      was not stamped by then. */
  lemma ScatterPhantomAcrossWraps(tr: seq<Sys>, acts: seq<Act>, k: nat, width: nat, n: nat) returns (m: nat, t: nat)
    requires BlockRuns.LapFreeRun(tr, acts, k, width) && n < |acts| && acts[n] == DrainNext
    requires Small(k) && KeepsUp(tr, acts, k, width, n)
    ensures t == TrackAt(tr, acts, k, width, n).pos && tr[n].expected == Wrap(t)
    ensures m < n && acts[m] == CopyCell(SlotOf(t, k), width)
    ensures |tr[n + 1].out| > |tr[n].out| && !Published(tr[m].ring, t) <==> t == 0 && !Published(tr[m].ring, 0)
  {
    var g := TrackAt(tr, acts, k, width, n);
    RunTracked(tr, acts, k, width, n);
    t := g.pos;
    m := StampOfSnapshot(tr, acts, k, width, n, g);
    Phantom.DrainFinds(tr[n]);
    assert tr[n + 1] == BlockSystem.Apply(tr[n], acts[n]);
    hide BlockSystem.Apply, BlockSystem.Enabled, TrackAt, Published, Phantom.Stamp;
  }
}
