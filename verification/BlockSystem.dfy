/** Producers and one consumer thread on the block lane, interleaved at the granularity of
    single shared-memory accesses. The consumer may mix passes of both engines. */
module BlockSystem {
  import opened Words
  import opened SlotRing

  /** History of one read: how many tickets were issued and which of them were in flight
      when it began, and how many were issued when it ended. */
  datatype Window = Window(n0: nat, busy0: set<nat>, n1: nat)

  /** One call of process_block_metric: the ticket it was called for, the ticket and the
      fields it read. */
  datatype Delivery = Delivery(expected: u32, ticket: u32, fields: Metric, skip: bool, seen: Window)

  datatype Phase =
    | Idle
    | Top(h: u32)
    | Reading(h: u32, n0: nat, busy0: set<nat>, got: map<nat, u32>)
    | Scanning(h: u32, scan: u32)
    | Copying(n0: nat, busy0: set<nat>, cells: map<(nat, nat), u32>)
    | Draining(seen: Window, cells: map<(nat, nat), u32>)
    | Publishing

  datatype Sys = Sys(ring: Ring, rd: u32, expected: u32, phase: Phase, out: seq<Delivery>)

  datatype Act =
    | Produce(s: Step)
    | BeginSkip
    | LookTop
    | ReadCell(j: nat)
    | DeliverRead
    | LookScan
    | BeginCopy
    | CopyCell(i: nat, j: nat)
    | EndCopy
    | DrainNext
    | StoreRdIdx

  /** Word j of a slot: its fields, then its ticket. */
  function Cell(s: Slot, j: nat): u32
    requires j <= |s.fields|
  {
    if j < |s.fields| then s.fields[j] else s.ticket
  }

  function Expects(s: Sys): (i: nat)
    requires 0 < |s.ring.slots|
    ensures i < |s.ring.slots|
  {
    Residue(s.expected, |s.ring.slots|)
  }

  ghost predicate Enabled(s: Sys, a: Act) {
    var r := s.ring;
    Shaped(r) &&
    match a
    case Produce(p) => SlotRing.Enabled(r, p)
    case BeginSkip => s.phase.Idle?
    case BeginCopy => s.phase.Idle?
    case LookTop => s.phase.Top?
    case ReadCell(j) => s.phase.Reading? && j <= r.width
    case DeliverRead => s.phase.Reading? && forall j: nat :: j <= r.width ==> j in s.phase.got
    case LookScan => s.phase.Scanning?
    case CopyCell(i, j) => s.phase.Copying? && i < |r.slots| && j <= r.width
    case EndCopy =>
      s.phase.Copying? && forall i: nat, j: nat :: i < |r.slots| && j <= r.width ==> (i, j) in s.phase.cells
    case DrainNext =>
      s.phase.Draining? && forall i: nat, j: nat :: i < |r.slots| && j <= r.width ==> (i, j) in s.phase.cells
    case StoreRdIdx => s.phase.Publishing?
  }

  ghost function Apply(s: Sys, a: Act): Sys
    requires Enabled(s, a)
  {
    var r := s.ring;
    match a
    case Produce(p) => s.(ring := SlotRing.Apply(r, p))
    case BeginSkip => s.(phase := Top(r.wr))
    case LookTop =>
      var h := s.phase.h;
      if Dist(h, s.expected) < 0 then s.(phase := Publishing)
      else if r.slots[Expects(s)].ticket == s.expected then
        s.(phase := Reading(h, |r.log|, r.busy.Keys, map[]))
      else s.(phase := Scanning(h, Succ(s.expected)))
    case ReadCell(j) =>
      s.(phase := s.phase.(got := s.phase.got[j := Cell(r.slots[Expects(s)], j)]))
    case DeliverRead =>
      var p := s.phase;
      var fields := seq(r.width, j requires 0 <= j < r.width => p.got[j]);
      var d := Delivery(s.expected, p.got[r.width], fields, true, Window(p.n0, p.busy0, |r.log|));
      s.(out := s.out + [d], expected := Succ(s.expected), phase := Top(p.h))
    case LookScan =>
      var h, scan := s.phase.h, s.phase.scan;
      if Dist(h, scan) < 0 then s.(phase := Publishing)
      else if r.slots[Residue(scan, |r.slots|)].ticket == scan then s.(expected := scan, phase := Top(h))
      else s.(phase := Scanning(h, Succ(scan)))
    case BeginCopy => s.(phase := Copying(|r.log|, r.busy.Keys, map[]))
    case CopyCell(i, j) =>
      s.(phase := Copying(s.phase.n0, s.phase.busy0, s.phase.cells[(i, j) := Cell(r.slots[i], j)]))
    case EndCopy =>
      s.(phase := Draining(Window(s.phase.n0, s.phase.busy0, |r.log|), s.phase.cells))
    case DrainNext =>
      var i, cells := Expects(s), s.phase.cells;
      if cells[(i, r.width)] != s.expected then s.(phase := Publishing)
      else
        var fields := seq(r.width, j requires 0 <= j < r.width => cells[(i, j)]);
        var d := Delivery(s.expected, cells[(i, r.width)], fields, false, s.phase.seen);
        s.(out := s.out + [d], expected := Succ(s.expected))
    case StoreRdIdx => s.(rd := s.expected, phase := Idle)
  }

  function Start(k: nat, width: nat): Sys {
    Sys(ZeroPage(k, width), 0, 0, Idle, [])
  }

  /** Producers only add to the log, and a published ticket stays published. */
  ghost predicate Extends(r: Ring, r': Ring) {
    && r.log <= r'.log && r'.width == r.width && |r'.slots| == |r.slots|
    && forall t :: t in r'.busy && t < |r.log| ==> t in r.busy
  }

  lemma ProduceExtends(r: Ring, p: Step)
    requires SlotRing.Enabled(r, p)
    ensures Extends(r, SlotRing.Apply(r, p))
  {
  }

  // ---------- order ----------

  /** A position the consumer can have: at most the write index, except that the zeroed
      page lets it step from 0 to 1 before anything was issued. */
  predicate Reached(n: nat, x: nat) {
    x <= n || (x == 1 && n == 0)
  }

  ghost predicate ZeroOrPublished(r: Ring, v: u32) {
    v == 0 || Published(r, v)
  }

  ghost predicate PhaseOrdered(s: Sys) {
    var n, e := |s.ring.log|, s.expected;
    match s.phase
    case Top(h) => h <= n && e <= h + 1
    case Reading(h, n0, _, _) => e <= h <= n && n0 <= n && ZeroOrPublished(s.ring, e) && (e == 0 || e < n0)
    case Scanning(h, scan) => e < scan <= h + 1 && h <= n
    case Copying(n0, _, cells) =>
      n0 <= n && forall c :: c in cells && c.1 == s.ring.width ==> ZeroOrPublished(s.ring, cells[c])
    case Draining(seen, cells) =>
      seen.n0 <= seen.n1 <= n && forall c :: c in cells && c.1 == s.ring.width ==> ZeroOrPublished(s.ring, cells[c])
    case _ => true
  }

  ghost predicate OutOrdered(s: Sys) {
    && (forall i, j :: 0 <= i < j < |s.out| ==> s.out[i].expected < s.out[j].expected)
    && forall i :: 0 <= i < |s.out| ==>
         && s.out[i].expected < s.expected
         && ZeroOrPublished(s.ring, s.out[i].expected)
         && (s.out[i].skip ==> s.out[i].expected == 0 || s.out[i].expected < s.out[i].seen.n0)
  }

  ghost predicate OrderInv(s: Sys) {
    && SlotRing.Inv(s.ring)
    && Reached(|s.ring.log|, s.expected) && s.rd <= s.expected
    && PhaseOrdered(s) && OutOrdered(s)
  }

  /** The signed distance never misjudges a position at most one past the hint. */
  lemma DistNearHint(h: u32, x: nat)
    requires x <= h + 1 && x < TWO32
    ensures Dist(h, x) >= 0 ==> x <= h
  {
  }

  lemma OrderProduce(s: Sys, p: Step)
    requires OrderInv(s) && Enabled(s, Produce(p))
    ensures OrderInv(Apply(s, Produce(p)))
  {
    StepInv(s.ring, p);
    ProduceExtends(s.ring, p);
    hide SlotRing.Apply, SlotRing.Enabled, SlotRing.Inv;
  }

  lemma OrderLookTop(s: Sys)
    requires OrderInv(s) && Enabled(s, LookTop) && |s.ring.log| < TWO32 - 1
    ensures OrderInv(Apply(s, LookTop))
  {
    DistNearHint(s.phase.h, s.expected);
    SlotShowsIssuedTicket(s.ring, Expects(s));
    hide Dist, Residue, SlotRing.Inv, OutOrdered;
    OutSame(s, Apply(s, LookTop));
  }

  lemma OrderLookScan(s: Sys)
    requires OrderInv(s) && Enabled(s, LookScan) && |s.ring.log| < TWO32 - 1
    ensures OrderInv(Apply(s, LookScan))
  {
    DistNearHint(s.phase.h, s.phase.scan);
    SlotShowsIssuedTicket(s.ring, Residue(s.phase.scan, |s.ring.slots|));
    hide Dist, Residue, SlotRing.Inv;
  }

  lemma OrderCopyCell(s: Sys, i: nat, j: nat)
    requires OrderInv(s) && Enabled(s, CopyCell(i, j)) && |s.ring.log| < TWO32 - 1
    ensures OrderInv(Apply(s, CopyCell(i, j)))
  {
    SlotShowsIssuedTicket(s.ring, i);
    hide Dist, Residue, SlotRing.Inv, OutOrdered;
    OutSame(s, Apply(s, CopyCell(i, j)));
  }

  lemma OrderDeliver(s: Sys, a: Act)
    requires OrderInv(s) && Enabled(s, a) && |s.ring.log| < TWO32 - 1 && (a.DeliverRead? || a.DrainNext?)
    ensures OrderInv(Apply(s, a))
  {
    hide Dist, Residue, SlotRing.Inv;
    assert OutOrdered(Apply(s, a));
  }

  lemma OrderTurn(s: Sys, a: Act)
    requires OrderInv(s) && Enabled(s, a) && |s.ring.log| < TWO32 - 1
    requires a.BeginSkip? || a.BeginCopy? || a.ReadCell? || a.EndCopy? || a.StoreRdIdx?
    ensures OrderInv(Apply(s, a))
  {
    WriteIndexCounts(s.ring);
    hide Dist, Residue, SlotRing.Inv, OutOrdered;
    OutSame(s, Apply(s, a));
  }

  lemma OutSame(s: Sys, s': Sys)
    requires OutOrdered(s) && s'.out == s.out && s'.ring == s.ring && s.expected <= s'.expected
    ensures OutOrdered(s')
  {
  }

  lemma OrderStep(s: Sys, a: Act)
    requires OrderInv(s) && Enabled(s, a) && |s.ring.log| < TWO32 - 1
    ensures OrderInv(Apply(s, a))
  {
    match a
    case Produce(p) => OrderProduce(s, p);
    case LookTop => OrderLookTop(s);
    case LookScan => OrderLookScan(s);
    case CopyCell(i, j) => OrderCopyCell(s, i, j);
    case DeliverRead => OrderDeliver(s, a);
    case DrainNext => OrderDeliver(s, a);
    case _ => OrderTurn(s, a);
  }

  lemma StartOrdered(k: nat, width: nat)
    requires 0 < k < TWO32
    ensures OrderInv(Start(k, width))
  {
    ZeroPageInv(k, width);
  }

  // ---------- integrity ----------

  /** Ticket t was issued and published when the read began, and the ticket one capacity
      later was not reserved before the read ended. */
  ghost predicate SafelyRead(k: nat, w: Window, t: nat) {
    w.n1 - k <= t < w.n0 && t !in w.busy0
  }

  /** Word j of what ticket t's producer published. */
  function Word(r: Ring, t: nat, j: nat): u32
    requires t < |r.log| && j <= |r.log[t]|
  {
    Cell(Slot(r.log[t], Wrap(t)), j)
  }

  /** The words copied so far of every ticket that is still safe are its producer's. */
  ghost predicate CellsIntact(r: Ring, w: Window, cells: map<(nat, nat), u32>)
    requires Shaped(r)
  {
    w.n0 <= w.n1 <= |r.log| &&
    forall t: nat, j: nat :: SafelyRead(|r.slots|, w, t) && j <= r.width && (SlotOf(t, |r.slots|), j) in cells ==>
      t !in r.busy && cells[(SlotOf(t, |r.slots|), j)] == Word(r, t, j)
  }

  ghost predicate GotIntact(r: Ring, w: Window, e: u32, got: map<nat, u32>)
    requires Shaped(r)
  {
    w.n0 <= w.n1 <= |r.log| &&
    forall t: nat, j: nat :: SafelyRead(|r.slots|, w, t) && Wrap(t) == e && j <= r.width && j in got ==>
      t !in r.busy && got[j] == Word(r, t, j)
  }

  /** The stamp that started a read in place was a published one. */
  ghost predicate StampWasPublished(k: nat, w: Window, e: u32) {
    forall t: nat :: w.n0 - k <= t < w.n0 && Wrap(t) == e && 1 <= t ==> t !in w.busy0
  }

  ghost predicate PhaseIntact(s: Sys)
    requires Shaped(s.ring)
  {
    var r := s.ring;
    match s.phase
    case Reading(_, n0, busy0, got) =>
      && GotIntact(r, Window(n0, busy0, |r.log|), s.expected, got)
      && StampWasPublished(|r.slots|, Window(n0, busy0, |r.log|), s.expected)
      && forall t :: t in r.busy ==> t in busy0 || n0 <= t
    case Copying(n0, busy0, cells) =>
      && CellsIntact(r, Window(n0, busy0, |r.log|), cells)
      && forall t :: t in r.busy ==> t in busy0 || n0 <= t
    case Draining(seen, cells) =>
      && CellsIntact(r, seen, cells)
      && forall i: nat, j: nat :: i < |r.slots| && j <= r.width ==> (i, j) in cells
    case _ => true
  }

  ghost predicate Intact(r: Ring, d: Delivery) {
    && d.seen.n0 <= d.seen.n1 <= |r.log|
    && (forall t: nat :: SafelyRead(|r.slots|, d.seen, t) && Wrap(t) == d.expected ==>
          d.ticket == Wrap(t) && d.fields == r.log[t])
    && (d.skip ==> StampWasPublished(|r.slots|, d.seen, d.expected))
  }

  ghost predicate IntactInv(s: Sys) {
    && LapFreeInv(s.ring)
    && PhaseIntact(s)
    && forall i :: 0 <= i < |s.out| ==> Intact(s.ring, s.out[i])
  }

  lemma CellsExtend(r: Ring, r': Ring, w: Window, w': Window, cells: map<(nat, nat), u32>)
    requires Shaped(r) && Shaped(r') && Extends(r, r') && CellsIntact(r, w, cells)
    requires w' == w.(n1 := w'.n1) && w.n1 <= w'.n1 <= |r'.log|
    ensures CellsIntact(r', w', cells)
  {
    hide Wrap, Residue;
    forall t: nat, j: nat | SafelyRead(|r.slots|, w', t) && j <= r.width && (SlotOf(t, |r.slots|), j) in cells
      ensures t !in r'.busy && cells[(SlotOf(t, |r.slots|), j)] == Word(r', t, j)
    {
      assert SafelyRead(|r.slots|, w, t);
    }
  }

  lemma GotExtends(r: Ring, r': Ring, w: Window, w': Window, e: u32, got: map<nat, u32>)
    requires Shaped(r) && Shaped(r') && Extends(r, r') && GotIntact(r, w, e, got)
    requires w' == w.(n1 := w'.n1) && w.n1 <= w'.n1 <= |r'.log|
    ensures GotIntact(r', w', e, got)
  {
    hide Wrap, Residue;
    forall t: nat, j: nat | SafelyRead(|r.slots|, w', t) && Wrap(t) == e && j <= r.width && j in got
      ensures t !in r'.busy && got[j] == Word(r', t, j)
    {
      assert SafelyRead(|r.slots|, w, t);
    }
  }

  lemma IntactExtends(r: Ring, r': Ring, d: Delivery)
    requires Extends(r, r') && Intact(r, d)
    ensures Intact(r', d)
  {
    hide Wrap;
  }

  lemma IntactProduce(s: Sys, p: Step)
    requires IntactInv(s) && Enabled(s, Produce(p)) && LapFree(s.ring, p) && Aligned(SlotRing.Apply(s.ring, p))
    ensures IntactInv(Apply(s, Produce(p)))
  {
    var r, r' := s.ring, SlotRing.Apply(s.ring, p);
    StepLapFree(r, p);
    ProduceExtends(r, p);
    hide SlotRing.Apply, SlotRing.Enabled, LapFree, Settled, CellsIntact, GotIntact, Intact, StampWasPublished;
    forall i | 0 <= i < |s.out| ensures Intact(r', s.out[i]) {
      IntactExtends(r, r', s.out[i]);
    }
    match s.phase
    case Reading(_, n0, busy0, got) =>
      GotExtends(r, r', Window(n0, busy0, |r.log|), Window(n0, busy0, |r'.log|), s.expected, got);
      StampStays(|r.slots|, Window(n0, busy0, |r.log|), |r'.log|, s.expected);
      GotWindow(r, Window(n0, busy0, |r.log|), s.expected, got);
    case Copying(n0, busy0, cells) =>
      CellsExtend(r, r', Window(n0, busy0, |r.log|), Window(n0, busy0, |r'.log|), cells);
      CellsWindow(r, Window(n0, busy0, |r.log|), cells);
    case Draining(seen, cells) =>
      CellsWindow(r, seen, cells);
      CellsExtend(r, r', seen, seen, cells);
    case _ =>
  }

  lemma CellsWindow(r: Ring, w: Window, cells: map<(nat, nat), u32>)
    requires Shaped(r) && CellsIntact(r, w, cells)
    ensures w.n0 <= w.n1 <= |r.log|
  {
  }

  lemma GotWindow(r: Ring, w: Window, e: u32, got: map<nat, u32>)
    requires Shaped(r) && GotIntact(r, w, e, got)
    ensures w.n0 <= w.n1 <= |r.log|
  {
  }

  lemma StampStays(k: nat, w: Window, n1: nat, e: u32)
    requires StampWasPublished(k, w, e)
    ensures StampWasPublished(k, w.(n1 := n1), e)
  {
  }

  /** Reading one word of a ticket that is published and not lapped gives its word. */
  lemma ReadsWord(r: Ring, t: nat, j: nat)
    requires LapFreeInv(r) && |r.log| - |r.slots| <= t < |r.log| && t !in r.busy && j <= r.width
    ensures Cell(r.slots[SlotOf(t, |r.slots|)], j) == Word(r, t, j)
  {
    PublishedSlot(r, t);
  }

  lemma IntactLookTop(s: Sys)
    requires IntactInv(s) && Enabled(s, LookTop)
    ensures IntactInv(Apply(s, LookTop))
  {
    var r := s.ring;
    forall t: nat | |r.log| - |r.slots| <= t < |r.log| && Wrap(t) == s.expected && 1 <= t
                    && r.slots[Expects(s)].ticket == s.expected
      ensures t !in r.busy
    {
      StampMeansPublished(r, t);
    }
  }

  lemma IntactReadCell(s: Sys, j: nat)
    requires IntactInv(s) && Enabled(s, ReadCell(j))
    ensures IntactInv(Apply(s, ReadCell(j)))
  {
    var r, p := s.ring, s.phase;
    forall t: nat | SafelyRead(|r.slots|, Window(p.n0, p.busy0, |r.log|), t) && Wrap(t) == s.expected
      ensures Cell(r.slots[Expects(s)], j) == Word(r, t, j)
    {
      ReadsWord(r, t, j);
    }
  }

  lemma IntactCopyCell(s: Sys, i: nat, j: nat)
    requires IntactInv(s) && Enabled(s, CopyCell(i, j))
    ensures IntactInv(Apply(s, CopyCell(i, j)))
  {
    var r, p := s.ring, s.phase;
    forall t: nat | SafelyRead(|r.slots|, Window(p.n0, p.busy0, |r.log|), t) && SlotOf(t, |r.slots|) == i
      ensures Cell(r.slots[i], j) == Word(r, t, j)
    {
      ReadsWord(r, t, j);
    }
  }

  lemma IntactDeliver(s: Sys, a: Act)
    requires IntactInv(s) && Enabled(s, a) && (a.DeliverRead? || a.DrainNext?)
    ensures IntactInv(Apply(s, a))
  {
    var r, s' := s.ring, Apply(s, a);
    if |s'.out| > |s.out| {
      var d := s'.out[|s.out|];
      forall t: nat | SafelyRead(|r.slots|, d.seen, t) && Wrap(t) == d.expected
        ensures d.ticket == Wrap(t) && d.fields == r.log[t]
      {
        assert Word(r, t, r.width) == Wrap(t);
        assert forall j: nat :: j < r.width ==> d.fields[j] == Word(r, t, j);
      }
      assert Intact(r, d);
    }
  }

  lemma IntactStep(s: Sys, a: Act)
    requires IntactInv(s) && Enabled(s, a)
    requires a.Produce? ==> LapFree(s.ring, a.s) && Aligned(SlotRing.Apply(s.ring, a.s))
    ensures IntactInv(Apply(s, a))
  {
    match a
    case Produce(p) => IntactProduce(s, p);
    case LookTop => IntactLookTop(s);
    case ReadCell(j) => IntactReadCell(s, j);
    case CopyCell(i, j) => IntactCopyCell(s, i, j);
    case DeliverRead => IntactDeliver(s, a);
    case DrainNext => IntactDeliver(s, a);
    case _ =>
  }

  lemma StartIntact(k: nat, width: nat)
    requires 0 < k < TWO32
    ensures IntactInv(Start(k, width))
  {
    ZeroPageLapFreeInv(k, width);
  }
}
