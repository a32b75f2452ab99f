/** What the consumer takes word by word, exactly: scatter-gather by its copy, skip-ahead by
    reading in place. Each word is what its slot held when it was taken, what it held is known
    from the log, and so it is known when a delivery is whole. */
module Snapshot {
  import opened Words
  import opened SlotRing
  import opened BlockSystem
  import BlockRuns

  /** Field j of ticket t has reached its slot. */
  ghost predicate Arrived(r: Ring, t: int, j: nat) {
    0 <= t < |r.log| && (t !in r.busy || j in r.busy[t].stored)
  }

  /** Ticket s is the newest of those that use slot i whose field j has arrived; s is negative
      if there is none yet. */
  ghost predicate NewestArrived(r: Ring, i: nat, j: nat, s: int) {
    && 0 < |r.slots| && |r.log| - 2 * |r.slots| <= s < |r.log| && Residue(s, |r.slots|) == i
    && (s >= 0 ==> Arrived(r, s, j))
    && forall v :: s < v && Residue(v, |r.slots|) == i ==> !Arrived(r, v, j)
  }

  /** Field j of ticket s, or of the zeroed page. */
  function WordOf(log: seq<Metric>, s: int, j: nat): u32 {
    if 0 <= s < |log| && j < |log[s]| then log[s][j] else 0
  }

  /** Every field of every slot of a lap-free ring is that of the newest ticket whose field
      has arrived there. */
  lemma FieldSource(r: Ring, i: nat, j: nat) returns (s: int)
    requires LapFreeInv(r) && i < |r.slots| && j < r.width
    ensures NewestArrived(r, i, j, s)
    ensures r.slots[i].fields[j] == WordOf(r.log, s, j)
  {
    hide Residue;
    var k := |r.slots|;
    var u := ResidueInWindow(|r.log|, k, i);
    assert Settled(r, u);
    s := if u in r.busy && j !in r.busy[u].stored then u - k else u;
    ResidueShift(u, k);
    forall v | s < v && Residue(v, k) == i ensures !Arrived(r, v, j) {
      if v < |r.log| - k {
        ResidueShift(v, k);
        ResidueInjective(v + k, u, k);
      } else if v < |r.log| {
        ResidueInjective(v, u, k);
      }
    }
  }

  /** It is ticket t's exactly if t's field has arrived and that of the next ticket of the
      slot, t + k, has not. */
  lemma SourceIs(r: Ring, i: nat, j: nat, s: int, t: nat)
    requires LapFreeInv(r) && NewestArrived(r, i, j, s) && Residue(t, |r.slots|) == i
    ensures s == t <==> Arrived(r, t, j) && !Arrived(r, t + |r.slots|, j)
  {
    hide Residue;
    var k := |r.slots|;
    ResidueShift(t, k);
    if Arrived(r, t, j) && !Arrived(r, t + k, j) && t < s {
      if s < t + k {
        ResidueInjective(t, s, k);
      } else if t + k < s < t + 2 * k {
        ResidueInjective(t + k, s, k);
      }
      assert false;
    }
  }

  // ---------- when a word was taken ----------

  /** The consumer holds v as its copy of word j of slot i. */
  ghost predicate Has(s: Sys, i: nat, j: nat, v: u32) {
    match s.phase
    case Copying(_, _, cells) => (i, j) in cells && cells[(i, j)] == v
    case Draining(_, cells) => (i, j) in cells && cells[(i, j)] == v
    case Reading(_, _, _, got) => 0 < |s.ring.slots| && i == Expects(s) && j in got && got[j] == v
    case _ => false
  }

  /** The step takes word j of slot i. */
  ghost predicate Takes(s: Sys, a: Act, i: nat, j: nat) {
    a == CopyCell(i, j) || (a == ReadCell(j) && 0 < |s.ring.slots| && Expects(s) == i)
  }

  /** The step begins a copy, or may begin a read in place. */
  predicate Restarts(a: Act) {
    a.BeginCopy? || a.LookTop?
  }

  /** How many tickets were drawn when the copy or the read began. */
  function Began(p: Phase): nat {
    match p
    case Copying(n0, _, _) => n0
    case Draining(seen, _) => seen.n0
    case Reading(_, n0, _, _) => n0
    case _ => 0
  }

  /** How many tickets were drawn when the copy ended, or so far. */
  function DrawnBy(s: Sys): nat {
    if s.phase.Draining? then s.phase.seen.n1 else |s.ring.log|
  }

  lemma TakeStep(s: Sys, a: Act, i: nat, j: nat, v: u32)
    requires BlockSystem.Enabled(s, a) && Has(BlockSystem.Apply(s, a), i, j, v)
    ensures Began(BlockSystem.Apply(s, a).phase) == Began(s.phase) && !Restarts(a)
    ensures DrawnBy(s) <= DrawnBy(BlockSystem.Apply(s, a))
    ensures if Takes(s, a, i, j) then
              i < |s.ring.slots| && j <= s.ring.width == |s.ring.slots[i].fields| && v == Cell(s.ring.slots[i], j)
              && |s.ring.log| == DrawnBy(s)
            else Has(s, i, j, v)
  {
    hide SlotRing.Enabled, Dist, Residue;
    if a.Produce? {
      ProduceExtends(s.ring, a.s);
    }
  }

  /** Value v of word j of slot i, held at moment n, was taken at moment m, for the last time
      in this copy or read. */
  ghost predicate LastTaken(tr: seq<Sys>, acts: seq<Act>, m: nat, n: nat, i: nat, j: nat, v: u32) {
    && m < n < |tr| == |acts| + 1 && Takes(tr[m], acts[m], i, j)
    && i < |tr[m].ring.slots| && j <= |tr[m].ring.slots[i].fields| && v == Cell(tr[m].ring.slots[i], j)
    && Began(tr[n].phase) == Began(tr[m].phase) && |tr[m].ring.log| <= DrawnBy(tr[n])
    && forall l :: m < l < n ==> !Takes(tr[l], acts[l], i, j) && !Restarts(acts[l])
  }

  lemma TakenNow(tr: seq<Sys>, acts: seq<Act>, n: nat, i: nat, j: nat, v: u32)
    requires n < |acts| && |tr| == |acts| + 1 && Takes(tr[n], acts[n], i, j)
    requires i < |tr[n].ring.slots| && j <= |tr[n].ring.slots[i].fields| && v == Cell(tr[n].ring.slots[i], j)
    requires Began(tr[n + 1].phase) == Began(tr[n].phase) && |tr[n].ring.log| <= DrawnBy(tr[n + 1])
    ensures LastTaken(tr, acts, n, n + 1, i, j, v)
  {
  }

  lemma TakenBefore(tr: seq<Sys>, acts: seq<Act>, m: nat, n: nat, i: nat, j: nat, v: u32)
    requires n < |acts| && LastTaken(tr, acts, m, n, i, j, v)
    requires !Takes(tr[n], acts[n], i, j) && !Restarts(acts[n]) && Began(tr[n + 1].phase) == Began(tr[n].phase)
    requires DrawnBy(tr[n]) <= DrawnBy(tr[n + 1])
    ensures LastTaken(tr, acts, m, n + 1, i, j, v)
  {
    hide Takes, Restarts, Began, Cell, DrawnBy;
  }

  /** What is held at moment n was taken by the step before, or held before it. */
  lemma HeldStep(tr: seq<Sys>, acts: seq<Act>, k: nat, width: nat, n: nat, i: nat, j: nat, v: u32)
    requires BlockRuns.Run(tr, acts, k, width) && n < |tr| && Has(tr[n], i, j, v)
    ensures 0 < n < |tr| == |acts| + 1
    ensures Takes(tr[n - 1], acts[n - 1], i, j) ==> LastTaken(tr, acts, n - 1, n, i, j, v)
    ensures !Takes(tr[n - 1], acts[n - 1], i, j) ==>
              && Has(tr[n - 1], i, j, v) && !Restarts(acts[n - 1])
              && Began(tr[n].phase) == Began(tr[n - 1].phase) && DrawnBy(tr[n - 1]) <= DrawnBy(tr[n])
  {
    StartHasNothing(k, width, i, j, v);
    var s, a := tr[n - 1], acts[n - 1];
    assert BlockSystem.Enabled(s, a) && tr[n - 1 + 1] == BlockSystem.Apply(s, a);
    hide BlockRuns.Run, BlockSystem.Enabled, BlockSystem.Apply, Has, Began, DrawnBy, Takes, Restarts, LastTaken;
    TakeStep(s, a, i, j, v);
    if Takes(s, a, i, j) {
      TakenNow(tr, acts, n - 1, i, j, v);
    }
  }

  lemma StartHasNothing(k: nat, width: nat, i: nat, j: nat, v: u32)
    ensures !Has(BlockSystem.Start(k, width), i, j, v)
  {
  }

  lemma {:induction false} Taken(tr: seq<Sys>, acts: seq<Act>, k: nat, width: nat, n: nat, i: nat, j: nat, v: u32)
    returns (m: nat)
    requires BlockRuns.Run(tr, acts, k, width) && n < |tr| && Has(tr[n], i, j, v)
    ensures LastTaken(tr, acts, m, n, i, j, v)
  {
    hide BlockRuns.Run, Has, Began, DrawnBy, Takes, Restarts, LastTaken;
    HeldStep(tr, acts, k, width, n, i, j, v);
    if Takes(tr[n - 1], acts[n - 1], i, j) {
      m := n - 1;
    } else {
      m := Taken(tr, acts, k, width, n - 1, i, j, v);
      TakenBefore(tr, acts, m, n - 1, i, j, v);
    }
  }

  lemma {:induction false} LogKept(tr: seq<Sys>, acts: seq<Act>, k: nat, width: nat, m: nat, n: nat)
    requires BlockRuns.Run(tr, acts, k, width) && m <= n < |tr|
    ensures tr[m].ring.log <= tr[n].ring.log
    decreases n - m
  {
    hide BlockSystem.Enabled, BlockSystem.Apply;
    if m < n {
      BlockRuns.StepKeepsGeometry(tr[n - 1], acts[n - 1]);
      LogKept(tr, acts, k, width, m, n - 1);
    }
  }

  /** The ring of any moment of a lap-free run. */
  lemma RingAt(tr: seq<Sys>, acts: seq<Act>, k: nat, width: nat, m: nat, n: nat)
    requires BlockRuns.LapFreeRun(tr, acts, k, width) && m <= n < |tr|
    ensures LapFreeInv(tr[m].ring) && |tr[m].ring.slots| == k && tr[m].ring.width == width
    ensures tr[m].ring.log <= tr[n].ring.log && forall t :: 0 <= t < |tr[m].ring.log| ==> |tr[m].ring.log[t]| == width
    ensures WholeLaps(k) || |tr[n].ring.log| <= TWO32
  {
    BlockRuns.RunIntact(tr, acts, k, width, m);
    BlockRuns.Geometry(tr, acts, k, width, m);
    LogKept(tr, acts, k, width, m, n);
    hide BlockSystem.Enabled, BlockSystem.Apply, PhaseIntact;
  }

  /** A field that the consumer holds, of a copy or of a read in place, lapped or not, is that
      of the newest ticket whose field had arrived in the slot when it was taken. */
  lemma TakenField(tr: seq<Sys>, acts: seq<Act>, k: nat, width: nat, n: nat, i: nat, j: nat, v: u32)
    returns (m: nat, s: int)
    requires BlockRuns.LapFreeRun(tr, acts, k, width) && n < |tr| && Has(tr[n], i, j, v) && j < width
    ensures LastTaken(tr, acts, m, n, i, j, v) && NewestArrived(tr[m].ring, i, j, s)
    ensures v == WordOf(tr[n].ring.log, s, j)
  {
    m := Taken(tr, acts, k, width, n, i, j, v);
    RingAt(tr, acts, k, width, m, n);
    hide BlockRuns.LapFreeRun, LapFreeInv, NewestArrived, Has, Takes, Residue;
    s := FieldSource(tr[m].ring, i, j);
    NewestBound(tr[m].ring, i, j, s);
    LastTakenWord(tr, acts, m, n, i, j, v);
  }

  lemma NewestBound(r: Ring, i: nat, j: nat, s: int)
    requires NewestArrived(r, i, j, s)
    ensures s < |r.log|
  {
  }

  lemma LastTakenWord(tr: seq<Sys>, acts: seq<Act>, m: nat, n: nat, i: nat, j: nat, v: u32)
    requires LastTaken(tr, acts, m, n, i, j, v)
    ensures m < n < |tr| && i < |tr[m].ring.slots| && j <= |tr[m].ring.slots[i].fields|
    ensures v == Cell(tr[m].ring.slots[i], j)
  {
  }

  // ---------- when a delivery is whole ----------

  /** The step at moment n calls process_block_metric for ticket t: skip-ahead after reading
      the slot, or scatter-gather from its snapshot. */
  ghost predicate Delivers(tr: seq<Sys>, acts: seq<Act>, n: nat, t: nat) {
    && n < |acts| && |tr| == |acts| + 1 && (acts[n] == DrainNext || acts[n] == DeliverRead)
    && tr[n].expected == Wrap(t) && |tr[n + 1].out| == |tr[n].out| + 1
  }

  lemma DeliversWhatItHas(s: Sys, a: Act)
    requires BlockSystem.Enabled(s, a) && (a == DrainNext || a == DeliverRead)
    requires |BlockSystem.Apply(s, a).out| == |s.out| + 1
    ensures Expects(s) < |s.ring.slots|
    ensures var d := BlockSystem.Apply(s, a).out[|s.out|];
            && |d.fields| == s.ring.width
            && forall j: nat :: j < s.ring.width ==> Has(s, Expects(s), j, d.fields[j])
  {
    hide Residue;
  }

  /** Field j, delivered at moment n for ticket t, was taken at moment m from ticket s. */
  ghost predicate FieldFrom(tr: seq<Sys>, acts: seq<Act>, k: nat, n: nat, t: nat, j: nat, m: nat, s: int) {
    && 0 < k && m < n < |acts| < |tr| && Takes(tr[m], acts[m], SlotOf(t, k), j)
    && NewestArrived(tr[m].ring, SlotOf(t, k), j, s)
    && (s == t <==> Arrived(tr[m].ring, t, j) && !Arrived(tr[m].ring, t + k, j))
  }

  lemma OneField(tr: seq<Sys>, acts: seq<Act>, k: nat, width: nat, n: nat, t: nat, j: nat, v: u32)
    returns (m: nat, s: int)
    requires BlockRuns.LapFreeRun(tr, acts, k, width) && n < |acts| && t < |tr[n].ring.log| && j < width
    requires Has(tr[n], SlotOf(t, k), j, v)
    ensures FieldFrom(tr, acts, k, n, t, j, m, s) && v == WordOf(tr[n].ring.log, s, j)
  {
    m, s := TakenField(tr, acts, k, width, n, SlotOf(t, k), j, v);
    RingAt(tr, acts, k, width, m, n);
    SlotOfPlain(t, k);
    hide BlockRuns.LapFreeRun, LapFreeInv, NewestArrived, Has, Takes, Residue, Wrap;
    SourceIs(tr[m].ring, SlotOf(t, k), j, s, t);
  }

  lemma DeliveredHas(tr: seq<Sys>, acts: seq<Act>, k: nat, width: nat, n: nat, t: nat)
    requires BlockRuns.LapFreeRun(tr, acts, k, width) && Delivers(tr, acts, n, t) && t < |tr[n].ring.log|
    ensures |tr[n].ring.log[t]| == width
    ensures var d := tr[n + 1].out[|tr[n].out|];
            |d.fields| == width && forall j: nat :: j < width ==> Has(tr[n], SlotOf(t, k), j, d.fields[j])
  {
    RingAt(tr, acts, k, width, n, n);
    assert BlockSystem.Enabled(tr[n], acts[n]) && tr[n + 1] == BlockSystem.Apply(tr[n], acts[n]);
    DeliversWhatItHas(tr[n], acts[n]);
    hide BlockSystem.Enabled, BlockSystem.Apply, LapFreeInv, Has, Residue;
  }

  /** Exactly when a delivery of either engine is whole, in any lap-free run and whatever was
      drawn meanwhile. Field j was taken at moment when[j], and it is that of ticket
      source[j]: t's own if t's producer had stored it by then and that of t + k had not; an
      older ticket's or the zeroed page's if t's producer had not; a later ticket's if the slot
      was lapped. The delivery is t's metric if and only if every field is t's own or happens
      to be the same. */
  lemma WholeExactly(tr: seq<Sys>, acts: seq<Act>, k: nat, width: nat, n: nat, t: nat)
    returns (when: seq<nat>, source: seq<int>)
    requires BlockRuns.LapFreeRun(tr, acts, k, width) && Delivers(tr, acts, n, t) && t < |tr[n].ring.log|
    ensures |when| == |source| == width == |tr[n].ring.log[t]|
    ensures forall j :: 0 <= j < width ==> FieldFrom(tr, acts, k, n, t, j, when[j], source[j])
    ensures tr[n + 1].out[|tr[n].out|].fields == tr[n].ring.log[t] <==>
            forall j :: 0 <= j < width ==>
              source[j] == t || WordOf(tr[n].ring.log, source[j], j) == tr[n].ring.log[t][j]
  {
    var log := tr[n].ring.log;
    DeliveredHas(tr, acts, k, width, n, t);
    var d := tr[n + 1].out[|tr[n].out|];
    hide BlockRuns.LapFreeRun, Has, FieldFrom, WordOf;
    when, source := [], [];
    while |when| < width
      invariant |when| == |source| <= width
      invariant forall j :: 0 <= j < |when| ==>
                  && FieldFrom(tr, acts, k, n, t, j, when[j], source[j])
                  && d.fields[j] == WordOf(log, source[j], j)
    {
      var m, s := OneField(tr, acts, k, width, n, t, |when|, d.fields[|when|]);
      when, source := when + [m], source + [s];
    }
    OwnWord(log, t, width);
    assert d.fields == log[t] <==> forall j :: 0 <= j < width ==> d.fields[j] == log[t][j];
  }

  lemma OwnWord(log: seq<Metric>, t: nat, width: nat)
    requires t < |log| && |log[t]| == width
    ensures forall j :: 0 <= j < width ==> WordOf(log, t, j) == log[t][j]
  {
  }
}
