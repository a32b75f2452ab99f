/** The mmap consumer kicks the wait queue only on every modulo-th byte. With one writer
    thread and no signals a sleeping writer is woken all the same, with room in the ring,
    in a number of iterations known when it fell asleep. */
module CharThrottle {
  import opened Words
  import opened CharSystem
  import opened CharFifo
  import CharRuns
  import CharWake

  ghost predicate Idle(s: Sys) {
    forall i :: 0 <= i < |s.writers| ==> s.writers[i].pc.Done?
  }

  /** One thread calls dev_write, nobody pushes frames, no signals, and the only reader is
      the mmap consumer. */
  ghost predicate Allowed(s: Sys, a: Act) {
    match a
    case Call(kind, _) => kind == Stream && Idle(s)
    case Signal(_) => false
    case ReadCall(_) => false
    case ReadFault => false
    case _ => true
  }

  /** From raising the flag to lowering it again. */
  predicate Asleep(w: Writer) {
    w.pc.TestRd? || w.pc in {DropLock, TestWr, Enqueue, Blocked, Retake, LowerFlag}
  }

  predicate DevReads(r: Reader) {
    r.ReadTop? || r.ReadCmp? || r.ReadAdvance? || r.ReadEnd?
  }

  /** The mmap consumer is the reader, and its throttle counter is in range. */
  ghost predicate Throttled(s: Sys) {
    !DevReads(s.reader) && s.kick < Max(s.modulo, 2) && (s.reader == MapKick ==> s.kick == 0)
  }

  /** The asleep flag is set for the whole of the wait and at no other time. */
  ghost predicate Single(s: Sys) {
    && (forall i :: 0 <= i < |s.writers| - 1 ==> s.writers[i].pc.Done?)
    && (forall i :: 0 <= i < |s.writers| ==> s.writers[i].kind == Stream)
    && (s.flag <==> s.writers != [] && Asleep(s.writers[|s.writers| - 1]))
    && Throttled(s)
  }

  lemma NextFlag(s: Sys, w: Writer)
    requires Indexed(s) && WriterShaped(w) && w.kind == Stream && !w.pc.Done?
    ensures var w' := NextWriter(s, w);
            && w'.kind == Stream
            && (Asleep(w') <==> w.pc == RaiseFlag || (Asleep(w) && w.pc != LowerFlag))
  {
    hide NextIdx, RingFull;
  }

  lemma ReaderThrottled(s: Sys)
    requires Throttled(s) && Enabled(s, ReadStep)
    ensures Throttled(ReaderStep(s)) && ReaderStep(s).flag == s.flag
  {
    hide NextIdx;
  }

  /** The writers of two states are at the same places. */
  lemma SameCallers(s: Sys, s': Sys)
    requires Single(s) && SameWriters(s, s') && s'.flag == s.flag && Throttled(s')
    ensures Single(s')
  {
    hide Throttled;
  }

  lemma SingleReader(s: Sys)
    requires Single(s) && Enabled(s, ReadStep)
    ensures Single(ReaderStep(s))
  {
    ReaderThrottled(s);
    ReaderShape(s);
    hide NextIdx, NextReader, NextKick, Throttled, Residue, ReaderStep, Enabled;
    SameCallers(s, ReaderStep(s));
  }

  lemma SingleWriter(s: Sys, i: nat)
    requires Single(s) && Enabled(s, Write(i))
    ensures Single(WriterStep(s, i))
  {
    NextFlag(s, s.writers[i]);
    hide NextIdx, NextWriter;
    assert i == |s.writers| - 1;
  }

  lemma SingleCall(s: Sys, a: Act)
    requires Single(s) && Enabled(s, a) && Allowed(s, a) && a.Call?
    ensures Single(Apply(s, a))
  {
    hide Residue;
  }

  lemma SingleFault(s: Sys, i: nat)
    requires Single(s) && Enabled(s, CopyFault(i))
    ensures Single(Apply(s, CopyFault(i)))
  {
    hide Residue;
  }

  lemma SingleStep(s: Sys, a: Act)
    requires Single(s) && Enabled(s, a) && Allowed(s, a)
    ensures Single(Apply(s, a))
  {
    match a
    case Write(i) => SingleWriter(s, i);
    case ReadStep => SingleReader(s);
    case Call(_, _) => SingleCall(s, a);
    case CopyFault(i) => SingleFault(s, i);
    case _ => hide NextIdx, NextReader, NextWriter, Asleep;
  }

  // ---------- the ranking function ----------

  function Occupancy(s: Sys): int {
    In(s) - Out(s)
  }

  /** Bytes to consume before the throttle counter is back at zero. */
  function KicksOff(kick: nat, modulo: nat): nat {
    if kick == 0 then 0 else if kick < modulo then modulo - kick else 1
  }

  /** The iterations, the one under way included, until the consumer kicks: it does when
      the throttle allows it, and when it finds the ring empty. */
  function Rank(s: Sys): int {
    match s.reader
    case MapFlag => Min(Occupancy(s) + 1, KicksOff(s.kick, s.modulo)) + 1
    case MapKick => 1
    case MapEmptyFlag => 1
    case MapEmptyKick => 1
    case _ => Min(Occupancy(s), KicksOff(s.kick, s.modulo)) + 1
  }

  function Place(r: Reader): nat {
    match r
    case MapTop => 5
    case MapWr(_) => 4
    case MapCmp(_, _, _) => 3
    case MapAdvance(_, _) => 2
    case MapFlag => 1
    case MapEmptyFlag => 1
    case _ => 0
  }

  function StepsLeft(s: Sys): int {
    6 * Rank(s) + Place(s.reader)
  }

  /** Writer i sleeps and no wake is on its way. */
  predicate SleepsAt(s: Sys, i: int) {
    0 <= i < |s.writers| && s.writers[i].pc == Blocked && !s.writers[i].woken
  }

  predicate WokenAt(s: Sys, i: int) {
    0 <= i < |s.writers| && s.writers[i].pc == Blocked && s.writers[i].woken
  }

  /** Likewise for the thread's latest call. */
  predicate Sleeping(s: Sys) {
    SleepsAt(s, |s.writers| - 1)
  }

  predicate Woken(s: Sys) {
    WokenAt(s, |s.writers| - 1)
  }

  /** The consumer is in an iteration that it began while the writer slept. */
  ghost predicate InIteration(s: Sys) {
    match s.reader
    case MapTop => true
    case MapWr(_) => true
    case MapCmp(_, _, p) => p == In(s)
    case MapAdvance(_, _) => true
    case MapFlag => In(s) + 1 < Out(s) + Cells(s)
    case MapKick => In(s) + 1 < Out(s) + Cells(s)
    case MapEmptyFlag => Occupancy(s) == 0
    case MapEmptyKick => Occupancy(s) == 0
    case _ => false
  }

  /** While the writer sleeps nothing but the consumer can move. */
  lemma OnlyConsumerMoves(s: Sys, a: Act)
    requires Single(s) && Sleeping(s) && s.reader != Away && InIteration(s) && Enabled(s, a) && Allowed(s, a)
    ensures a == ReadStep
  {
  }

  /** All that holds between the moment writer i sleeps, on the queue so that a wake reaches
      it and with the flag up, and the wake. */
  ghost predicate Waiting(s: Sys, i: int) {
    && CharFifo.Inv(s) && Throttled(s) && s.flag
    && SleepsAt(s, i) && s.writers[i].queued && InIteration(s)
  }

  /** The wake has come with room in the ring, in the iteration that the rank announced. */
  ghost predicate WokenInTime(s: Sys, s': Sys, i: int) {
    WokenAt(s', i) && s'.laps == s.laps && Rank(s) == 1 && In(s') + 1 < Out(s') + Cells(s')
  }

  /** The wake is strictly closer; an iteration that ended took one off the rank. */
  ghost predicate Closer(s: Sys, s': Sys, i: int) {
    && SleepsAt(s', i) && InIteration(s') && s'.writers == s.writers && s'.flag == s.flag
    && Rank(s') + s'.laps == Rank(s) + s.laps && StepsLeft(s') < StepsLeft(s)
  }

  lemma KickSteps(s: Sys, i: int)
    requires Waiting(s, i) && Enabled(s, ReadStep) && Wakes(s.reader)
    ensures WokenInTime(s, ReaderStep(s), i)
  {
    hide Residue, NextIdx, WriterInv, Locking, ReaderInv;
  }

  lemma FlagStep(s: Sys, i: int)
    requires Waiting(s, i) && Enabled(s, ReadStep) && s.reader == MapFlag
    ensures Closer(s, ReaderStep(s), i)
  {
    if s.kick != 0 {
      KickStep(s.kick, s.modulo);
    }
    hide Residue, NextIdx, WriterInv, Locking, ReaderInv;
  }

  lemma TakeStep(s: Sys, i: int)
    requires Waiting(s, i) && Enabled(s, ReadStep) && s.reader.MapAdvance?
    ensures Closer(s, ReaderStep(s), i)
  {
    hide Residue, NextIdx, WriterInv, Locking;
  }

  lemma LookStep(s: Sys, i: int)
    requires Waiting(s, i) && Enabled(s, ReadStep) && !Wakes(s.reader) && s.reader != MapFlag && !s.reader.MapAdvance?
    ensures Closer(s, ReaderStep(s), i)
  {
    if s.reader.MapCmp? {
      IndexMeans(s, s.reader.p);
    }
    hide Residue, NextIdx, WriterInv, Locking, Throttled;
  }

  /** Each step of the consumer wakes the writer or brings the wake strictly closer. */
  lemma RankStep(s: Sys, i: int)
    requires Waiting(s, i) && Enabled(s, ReadStep)
    ensures WokenInTime(s, ReaderStep(s), i) || Closer(s, ReaderStep(s), i)
  {
    hide Closer, WokenInTime, Waiting, Enabled;
    if Wakes(s.reader) {
      KickSteps(s, i);
    } else if s.reader == MapFlag {
      FlagStep(s, i);
    } else if s.reader.MapAdvance? {
      TakeStep(s, i);
    } else {
      LookStep(s, i);
    }
  }

  lemma KickStep(kick: nat, modulo: nat)
    requires 0 < kick < Max(modulo, 2) && 0 < modulo
    ensures KicksOff(Residue(kick + 1, modulo), modulo) == KicksOff(kick, modulo) - 1
  {
    if kick + 1 < modulo {
      ResidueSmall(kick + 1, modulo);
    } else if modulo == 1 {
    } else {
      ResidueOf(modulo, 1, 0, modulo);
    }
  }

  /** For a modulus of at least two KicksOff is a plain remainder. */
  lemma KicksOffIsRemainder(kick: nat, modulo: nat)
    requires kick < modulo && 2 <= modulo
    ensures KicksOff(kick, modulo) == Residue(modulo - kick, modulo)
  {
    if kick == 0 {
      ResidueOf(modulo, 1, 0, modulo);
    } else {
      ResidueSmall(modulo - kick, modulo);
    }
  }

  // ---------- whole runs ----------

  ghost predicate ThreadRun(tr: seq<Sys>, acts: seq<Act>, n: nat, modulo: nat) {
    CharRuns.Run(tr, acts, n, modulo) && forall m :: 0 <= m < |acts| ==> Allowed(tr[m], acts[m])
  }

  lemma StartSingle(n: nat, modulo: nat)
    requires 2 <= n && 0 < modulo
    ensures Single(Start(n, modulo))
  {
  }

  lemma {:induction false} RunSingle(tr: seq<Sys>, acts: seq<Act>, n: nat, modulo: nat, m: nat)
    requires ThreadRun(tr, acts, n, modulo) && m < |tr|
    ensures Single(tr[m])
  {
    hide Single, Enabled, Apply, Allowed;
    if m == 0 {
      StartSingle(n, modulo);
    } else {
      RunSingle(tr, acts, n, modulo, m - 1);
      SingleStep(tr[m - 1], acts[m - 1]);
    }
  }

  /** A sleeper of a run is on the queue. */
  lemma SleeperIsQueued(tr: seq<Sys>, acts: seq<Act>, n: nat, modulo: nat, m: nat, i: int)
    requires CharRuns.Run(tr, acts, n, modulo) && m < |tr| && SleepsAt(tr[m], i) && InIteration(tr[m])
    requires Throttled(tr[m]) && tr[m].flag
    ensures Waiting(tr[m], i)
  {
    CharRuns.RunInv(tr, acts, n, modulo, m);
    hide CharFifo.Inv, InIteration, Throttled;
    assert CharWake.Waiter(tr[m], tr[m].writers[i]);
  }

  /** Bounded wake: let the writer sleep when the consumer begins an iteration, with o bytes
      in the ring and throttle counter c. As long as it sleeps on, fewer than
      min(o, KicksOff(c)) + 1 iterations are complete; when it is woken, exactly one fewer
      than that are, so the wake comes in the iteration so numbered, and it finds room. And
      it cannot sleep on for ever: the steps until then are bounded too. */
  lemma {:induction false} BoundedWake(tr: seq<Sys>, acts: seq<Act>, n: nat, modulo: nat, a: nat, b: nat)
    requires ThreadRun(tr, acts, n, modulo) && a <= b < |tr|
    requires tr[a].reader == MapTop && forall m :: a <= m < b ==> Sleeping(tr[m])
    requires Sleeping(tr[a])
    ensures var bound := Min(Occupancy(tr[a]), KicksOff(tr[a].kick, modulo)) + 1;
            && (Sleeping(tr[b]) ==> tr[b].laps - tr[a].laps < bound)
            && (!Sleeping(tr[b]) ==> Woken(tr[b]) && tr[b].laps - tr[a].laps == bound - 1
                                     && |tr[b].produced| - |tr[b].consumed| < n - 1)
            && b - a <= 6 * bound + 5
  {
    hide ThreadRun, InIteration, KicksOff, StepsLeft, Rank;
    RunFacts(tr, acts, n, modulo, a);
    RunFacts(tr, acts, n, modulo, b);
    RankIsPositive(tr[b]);
    IterationBegins(tr[a]);
    if a < b {
      RunFacts(tr, acts, n, modulo, b - 1);
      RankIsPositive(tr[b - 1]);
      Progress(tr, acts, n, modulo, a, b - 1);
      LastStep(tr, acts, n, modulo, b - 1);
    } else {
      RankIsPositive(tr[a]);
    }
  }

  lemma IterationBegins(s: Sys)
    requires s.reader == MapTop
    ensures InIteration(s) && StepsLeft(s) == 6 * Rank(s) + 5
    ensures Rank(s) == Min(Occupancy(s), KicksOff(s.kick, s.modulo)) + 1
  {
  }

  lemma RunFacts(tr: seq<Sys>, acts: seq<Act>, n: nat, modulo: nat, m: nat)
    requires ThreadRun(tr, acts, n, modulo) && m < |tr|
    ensures Occupancy(tr[m]) >= 0 && Cells(tr[m]) == n && tr[m].modulo == modulo
  {
    CharRuns.FifoRefinement(tr, acts, n, modulo, m);
    CharRuns.Capacity(tr, acts, n, modulo, m);
  }

  lemma RankIsPositive(s: Sys)
    ensures Occupancy(s) >= 0 ==> Rank(s) >= 1 && StepsLeft(s) >= 6
  {
    hide KicksOff;
  }

  /** The next step of a state in which the writer sleeps. */
  lemma LastStep(tr: seq<Sys>, acts: seq<Act>, n: nat, modulo: nat, m: nat)
    requires ThreadRun(tr, acts, n, modulo) && m + 1 < |tr|
    requires Sleeping(tr[m]) && InIteration(tr[m])
    ensures |tr[m + 1].writers| == |tr[m].writers|
    ensures var i := |tr[m].writers| - 1;
            WokenInTime(tr[m], tr[m + 1], i) || Closer(tr[m], tr[m + 1], i)
  {
    RunSingle(tr, acts, n, modulo, m);
    OnlyConsumerMoves(tr[m], acts[m]);
    SleeperIsQueued(tr, acts, n, modulo, m, |tr[m].writers| - 1);
    RankStep(tr[m], |tr[m].writers| - 1);
    SameCrowd(tr[m]);
    hide Closer, WokenInTime;
    assert tr[m + 1] == ReaderStep(tr[m]);
  }

  lemma SameCrowd(s: Sys)
    requires Enabled(s, ReadStep)
    ensures |ReaderStep(s).writers| == |s.writers|
  {
    hide NextReader, NextKick, NextIdx;
  }

  lemma {:induction false} Progress(tr: seq<Sys>, acts: seq<Act>, n: nat, modulo: nat, a: nat, b: nat)
    requires ThreadRun(tr, acts, n, modulo) && a <= b < |tr|
    requires InIteration(tr[a]) && forall m :: a <= m <= b ==> Sleeping(tr[m])
    ensures InIteration(tr[b])
    ensures Rank(tr[b]) + tr[b].laps == Rank(tr[a]) + tr[a].laps
    ensures StepsLeft(tr[b]) + (b - a) <= StepsLeft(tr[a])
    decreases b - a
  {
    hide ThreadRun, InIteration, KicksOff, StepsLeft, Rank;
    if a < b {
      Progress(tr, acts, n, modulo, a, b - 1);
      LastStep(tr, acts, n, modulo, b - 1);
    }
  }
}
