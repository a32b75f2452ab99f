/** Theorems over every run of the char tenant from the zeroed page: any writers, any
    interleaving, any capacity of at least two cells. */
module CharRuns {
  import opened Words
  import opened CharSystem
  import CharFifo
  import CharMerge
  import CharWake

  ghost predicate Run(tr: seq<Sys>, acts: seq<Act>, n: nat, modulo: nat) {
    && 2 <= n && 0 < modulo && |tr| == |acts| + 1 && tr[0] == Start(n, modulo)
    && forall m :: 0 <= m < |acts| ==> Enabled(tr[m], acts[m]) && tr[m + 1] == Apply(tr[m], acts[m])
  }

  ghost predicate Inv(s: Sys) {
    CharFifo.Inv(s) && CharMerge.Inv(s) && CharWake.Inv(s)
  }

  lemma StartInv(n: nat, modulo: nat)
    requires 2 <= n && 0 < modulo
    ensures Inv(Start(n, modulo))
  {
    CharFifo.StartInv(n, modulo);
  }

  lemma StepInv(s: Sys, a: Act)
    requires Inv(s) && Enabled(s, a)
    ensures Inv(Apply(s, a))
  {
    CharFifo.StepInv(s, a);
    CharMerge.StepInv(s, a);
    CharWake.StepInv(s, a);
  }

  lemma {:induction false} RunInv(tr: seq<Sys>, acts: seq<Act>, n: nat, modulo: nat, m: nat)
    requires Run(tr, acts, n, modulo) && m < |tr|
    ensures Inv(tr[m])
  {
    hide Inv, Enabled, Apply;
    if m == 0 {
      StartInv(n, modulo);
    } else {
      RunInv(tr, acts, n, modulo, m - 1);
      StepInv(tr[m - 1], acts[m - 1]);
    }
  }

  lemma {:induction false} Capacity(tr: seq<Sys>, acts: seq<Act>, n: nat, modulo: nat, m: nat)
    requires Run(tr, acts, n, modulo) && m < |tr|
    ensures Cells(tr[m]) == n && tr[m].modulo == modulo
  {
    hide Apply, Enabled;
    if m > 0 {
      Capacity(tr, acts, n, modulo, m - 1);
      SameCapacity(tr[m - 1], acts[m - 1]);
    }
  }

  lemma SameCapacity(s: Sys, a: Act)
    requires Enabled(s, a)
    ensures Cells(Apply(s, a)) == Cells(s) && Apply(s, a).modulo == s.modulo
  {
    hide NextIdx, NextReader, NextWriter, NextKick, RingFull;
  }

  /** FIFO refinement: what came out is a prefix of what went in, the cells from rd_idx to
      wr_idx are exactly the rest, and at most n - 1 bytes are in the ring. */
  lemma FifoRefinement(tr: seq<Sys>, acts: seq<Act>, n: nat, modulo: nat, m: nat)
    requires Run(tr, acts, n, modulo) && m < |tr|
    ensures tr[m].consumed <= tr[m].produced
    ensures |tr[m].produced| - |tr[m].consumed| <= n - 1
    ensures |tr[m].buf| == n
    ensures tr[m].rd == |tr[m].consumed| % n && tr[m].wr == |tr[m].produced| % n
    ensures forall k :: |tr[m].consumed| <= k < |tr[m].produced| ==> tr[m].buf[Residue(k, n)] == tr[m].produced[k]
  {
    RunInv(tr, acts, n, modulo, m);
    Capacity(tr, acts, n, modulo, m);
  }

  /** Stream merge: every byte of the stream is some writer's, and each writer's bytes are in
      it in their own order, as far as the writer got; a metric frame that succeeded is there
      whole and in one piece, and one that failed left a contiguous proper prefix. */
  lemma StreamMerge(tr: seq<Sys>, acts: seq<Act>, n: nat, modulo: nat, m: nat, i: nat)
    requires Run(tr, acts, n, modulo) && m < |tr| && i < |tr[m].writers|
    ensures |tr[m].tags| == |tr[m].produced| && tr[m].writers[i].pos <= |tr[m].writers[i].data|
    ensures forall k :: 0 <= k < |tr[m].tags| ==> tr[m].tags[k] < |tr[m].writers|
    ensures CharMerge.Project(tr[m].produced, tr[m].tags, i) == tr[m].writers[i].data[..tr[m].writers[i].pos]
    ensures var w := tr[m].writers[i];
            w.kind == Metric && w.pc.Done? ==>
              && (if w.pc.ok then w.pos == FRAME == |w.data| else w.pos < FRAME == |w.data|)
              && (w.pos > 0 ==> w.start + w.pos <= |tr[m].produced| &&
                                tr[m].produced[w.start..w.start + w.pos] == w.data[..w.pos])
  {
    RunInv(tr, acts, n, modulo, m);
    var s, w := tr[m], tr[m].writers[i];
    assert CharMerge.Merged(s, i) && CharMerge.Contiguous(s, i);
    if w.kind == Metric && w.pos > 0 {
      CharMerge.ProjectBlock(s.produced, s.tags, i, w.start, w.start + w.pos);
    }
  }

  // ---------- wakeups ----------

  /** A dev_read that had consumed bytes ended in a user-copy fault before state m, and
      nobody woke the queue since. */
  ghost predicate FaultedSinceWake(tr: seq<Sys>, acts: seq<Act>, m: nat)
    requires m < |tr| == |acts| + 1
  {
    exists j :: 0 <= j < m && acts[j].ReadFault? && CharWake.Owes(tr[j].reader)
                && forall l :: j < l < m ==> !CharWake.WakesQueue(tr[l], acts[l])
  }

  lemma FaultedStep(tr: seq<Sys>, acts: seq<Act>, m: nat)
    requires m + 1 < |tr| == |acts| + 1
    ensures FaultedSinceWake(tr, acts, m + 1) <==>
            (acts[m].ReadFault? && CharWake.Owes(tr[m].reader))
            || (FaultedSinceWake(tr, acts, m) && !CharWake.WakesQueue(tr[m], acts[m]))
  {
    hide CharWake.WakesQueue, CharWake.Owes;
    if acts[m].ReadFault? && CharWake.Owes(tr[m].reader) {
    } else if FaultedSinceWake(tr, acts, m) && !CharWake.WakesQueue(tr[m], acts[m]) {
      var j :| 0 <= j < m && acts[j].ReadFault? && CharWake.Owes(tr[j].reader)
               && forall l :: j < l < m ==> !CharWake.WakesQueue(tr[l], acts[l]);
      assert FaultedSinceWake(tr, acts, m + 1);
    }
  }

  lemma {:induction false} LeakIsFault(tr: seq<Sys>, acts: seq<Act>, n: nat, modulo: nat, m: nat)
    requires Run(tr, acts, n, modulo) && m < |tr|
    ensures tr[m].leak <==> FaultedSinceWake(tr, acts, m)
  {
    hide Apply, Enabled, CharWake.WakesQueue, CharWake.Owes;
    if m == 0 {
    } else {
      LeakIsFault(tr, acts, n, modulo, m - 1);
      CharWake.LeakStep(tr[m - 1], acts[m - 1]);
      FaultedStep(tr, acts, m - 1);
      hide FaultedSinceWake;
    }
  }

  /** dev_read is the only reader. */
  ghost predicate NoMaps(acts: seq<Act>, m: nat)
    requires m <= |acts|
  {
    forall j :: 0 <= j < m ==> !acts[j].MapBegin?
  }

  lemma {:induction false} RunDebt(tr: seq<Sys>, acts: seq<Act>, n: nat, modulo: nat, m: nat)
    requires Run(tr, acts, n, modulo) && m < |tr| && NoMaps(acts, m)
    ensures CharWake.DebtInv(tr[m])
  {
    if m > 0 {
      RunDebt(tr, acts, n, modulo, m - 1);
      CharWake.StepDebt(tr[m - 1], acts[m - 1]);
    }
  }

  /** No lost wakeup with dev_read as the reader: a writer that sleeps without a wake on its
      way sleeps on a full ring, or the reader is inside a call that has consumed a byte and
      will wake the queue, or a call consumed bytes and then left through a user-copy fault,
      and nobody woke the queue since. */
  lemma NoLostWakeup(tr: seq<Sys>, acts: seq<Act>, n: nat, modulo: nat, m: nat, i: nat)
    requires Run(tr, acts, n, modulo) && m < |tr| && NoMaps(acts, m) && i < |tr[m].writers|
    requires tr[m].writers[i].pc == Blocked && !tr[m].writers[i].woken
    ensures || |tr[m].produced| - |tr[m].consumed| == n - 1
            || CharWake.Owes(tr[m].reader)
            || FaultedSinceWake(tr, acts, m)
  {
    RunInv(tr, acts, n, modulo, m);
    Capacity(tr, acts, n, modulo, m);
    RunDebt(tr, acts, n, modulo, m);
    LeakIsFault(tr, acts, n, modulo, m);
    assert CharWake.Waiter(tr[m], tr[m].writers[i]);
  }

  /** Exactly which steps lose a wakeup. Unless one is lost already, a step leaves a writer
      asleep beside a free cell with nobody about to wake it, if and only if
      (a) it is the user-copy fault of a call that has consumed a byte, met while a writer
      sleeps and the ring is not full, or
      (b) a writer on the queue that nobody woke compares a view of the write index that makes
      the ring look full, while it is not and no reader owes a wake; this takes a fault, too,
      since the queue was last woken. */
  lemma WakeupLostExactly(tr: seq<Sys>, acts: seq<Act>, n: nat, modulo: nat, m: nat)
    requires Run(tr, acts, n, modulo) && m < |acts| && NoMaps(acts, m + 1) && !CharWake.LostSleeper(tr[m])
    ensures CharWake.LostSleeper(tr[m + 1]) <==>
            CharWake.FaultsBesideSleeper(tr[m], acts[m]) || CharWake.SleepsOnStaleView(tr[m], acts[m])
    ensures CharWake.SleepsOnStaleView(tr[m], acts[m]) ==> FaultedSinceWake(tr, acts, m)
  {
    RunInv(tr, acts, n, modulo, m);
    RunInv(tr, acts, n, modulo, m + 1);
    RunDebt(tr, acts, n, modulo, m);
    RunDebt(tr, acts, n, modulo, m + 1);
    CharWake.LossStep(tr[m], acts[m]);
    LeakIsFault(tr, acts, n, modulo, m);
    CharWake.LeakStep(tr[m], acts[m]);
    hide Apply, Enabled, CharWake.DebtInv, CharWake.SleepsOnStaleView, CharWake.LostSleeper, FaultedSinceWake;
    if CharWake.LostSleeper(tr[m + 1]) {
      CharWake.LostNeedsLeak(tr[m + 1]);
      StaleIsNoFault(tr[m], acts[m]);
    }
  }

  lemma StaleIsNoFault(s: Sys, a: Act)
    ensures CharWake.SleepsOnStaleView(s, a) ==> a.Write?
  {
  }

  /** On a ring of two cells no wakeup is ever lost, faults or not. */
  lemma {:induction false} TwoCellsLoseNothing(tr: seq<Sys>, acts: seq<Act>, modulo: nat, m: nat)
    requires Run(tr, acts, 2, modulo) && m < |tr| && NoMaps(acts, m)
    ensures CharWake.TightInv(tr[m]) && !CharWake.LostSleeper(tr[m])
  {
    RunInv(tr, acts, 2, modulo, m);
    if m > 0 {
      TwoCellsLoseNothing(tr, acts, modulo, m - 1);
      RunInv(tr, acts, 2, modulo, m - 1);
      Capacity(tr, acts, 2, modulo, m - 1);
      CharWake.TightStep(tr[m - 1], acts[m - 1]);
    }
    hide Apply, CharWake.TightInv, CharFifo.Inv, CharMerge.Inv, CharWake.Inv, CharWake.LostSleeper;
    if m == 0 {
      StartTight(modulo);
    }
    CharWake.TightNeverLoses(tr[m]);
  }

  lemma StartTight(modulo: nat)
    ensures CharWake.TightInv(Start(2, modulo))
  {
  }

  /** How many steps the reader takes from moment a to moment b. */
  function ReadSteps(acts: seq<Act>, a: nat, b: nat): (c: nat)
    requires a <= b <= |acts|
    ensures c <= b - a
    decreases b - a
  {
    if a == b then 0 else (if acts[a] == ReadStep then 1 else 0) + ReadSteps(acts, a + 1, b)
  }

  /** The wake that a dev_read owes is paid: once the call has taken ReadStepsLeft of its own
      steps, at most 3 * len + 2, without a fault, whatever the writers did meanwhile, one of
      these steps has woken everyone on the queue. */
  lemma {:induction false} OwedWakeIsPaid(tr: seq<Sys>, acts: seq<Act>, n: nat, modulo: nat, a: nat, b: nat)
    returns (m: nat)
    requires Run(tr, acts, n, modulo) && a <= b < |tr|
    requires CharWake.Owes(tr[a].reader) && forall l :: a <= l < b ==> !acts[l].ReadFault?
    requires ReadSteps(acts, a, b) >= CharWake.ReadStepsLeft(tr[a].reader)
    ensures a <= m < b && acts[m] == ReadStep && Wakes(tr[m].reader) && tr[m + 1].reader == Away
    ensures CharWake.AllWoken(tr[m + 1])
    decreases b - a
  {
    if a < b {
      hide Enabled, Apply;
      m := a;
      if acts[a] == ReadStep {
        CharWake.OwingStep(tr[a]);
        if CharWake.Owes(tr[a + 1].reader)
           && CharWake.ReadStepsLeft(tr[a + 1].reader) < CharWake.ReadStepsLeft(tr[a].reader) {
          m := OwedWakeIsPaid(tr, acts, n, modulo, a + 1, b);
        }
      } else {
        CharWake.OwingStays(tr[a], acts[a]);
        m := OwedWakeIsPaid(tr, acts, n, modulo, a + 1, b);
      }
    } else {
      RunInv(tr, acts, n, modulo, a);
      assert false;
    }
  }

  /** The guards of the model's steps exclude nothing: in a reachable state the reader, once
      in a call, and a writer that holds the lock can always take their next step. */
  lemma NobodyIsStuck(tr: seq<Sys>, acts: seq<Act>, n: nat, modulo: nat, m: nat)
    requires Run(tr, acts, n, modulo) && m < |tr|
    ensures tr[m].reader != Away ==> Enabled(tr[m], ReadStep)
    ensures forall i :: 0 <= i < |tr[m].writers| && HoldsLock(tr[m].writers[i]) ==> Enabled(tr[m], Write(i))
    ensures forall i :: 0 <= i < |tr[m].writers| && TakesLock(tr[m].writers[i]) && tr[m].lock == FREE ==>
              Enabled(tr[m], Write(i))
  {
    RunInv(tr, acts, n, modulo, m);
    forall i | 0 <= i < |tr[m].writers| ensures CharFifo.WriterInv(tr[m], tr[m].writers[i]) {
    }
    hide NextIdx, Residue;
  }
}
