/** Several dev_write callers and the mmap consumer share the one asleep flag. The consumer
    wakes a sleeper if and only if the flag is up, and two callers can leave one of them
    asleep with the flag down. */
module CharFlag {
  import opened Words
  import opened CharSystem
  import opened CharFifo
  import opened CharThrottle
  import opened CharReach
  import CharRuns
  import CharWake

  // ---------- flag down ----------

  /** The mmap consumer, or nobody, reads, and it is not about to kick. */
  predicate KicksNobody(r: Reader) {
    !DevReads(r) && r != MapKick && r != MapEmptyKick
  }

  lemma NoKickStep(s: Sys, a: Act)
    requires Enabled(s, a) && !s.flag && KicksNobody(s.reader) && !a.ReadCall?
    ensures KicksNobody(Apply(s, a).reader)
    ensures CharWake.WakesQueue(s, a) ==> a.Call?
  {
    hide Residue, NextIdx, NextWriter, NextKick, RingFull;
  }

  /** While the flag is down a sleeping writer sleeps on, whatever the consumer and the other
      writers do: only a signal, a dev_read or a kick by hand, a dev_write without data,
      could wake it. */
  lemma {:induction false} FlagDownSleepsOn(tr: seq<Sys>, acts: seq<Act>, n: nat, modulo: nat, a: nat, b: nat, i: nat)
    requires CharRuns.Run(tr, acts, n, modulo) && a <= b < |tr|
    requires SleepsAt(tr[a], i) && KicksNobody(tr[a].reader) && forall m :: a <= m < b ==> !tr[m].flag
    requires forall m :: a <= m < b ==> !acts[m].ReadCall? && acts[m] != Signal(i) && acts[m] != Call(Stream, [])
    ensures SleepsAt(tr[b], i) && KicksNobody(tr[b].reader)
    decreases b
  {
    hide Enabled, Apply;
    if a < b {
      FlagDownSleepsOn(tr, acts, n, modulo, a, b - 1, i);
      NoKickStep(tr[b - 1], acts[b - 1]);
      CharWake.StaysAsleep(tr[b - 1], acts[b - 1], i);
    }
  }

  // ---------- flag up ----------

  ghost predicate KickInRange(s: Sys) {
    s.kick < Max(s.modulo, 2) && (s.reader == MapKick ==> s.kick == 0)
  }

  lemma KickInRangeStep(s: Sys, a: Act)
    requires KickInRange(s) && Enabled(s, a)
    ensures KickInRange(Apply(s, a))
  {
    hide NextIdx, NextWriter, RingFull;
  }

  lemma {:induction false} RunKickInRange(tr: seq<Sys>, acts: seq<Act>, n: nat, modulo: nat, m: nat)
    requires CharRuns.Run(tr, acts, n, modulo) && m < |tr|
    ensures KickInRange(tr[m])
  {
    if m > 0 {
      RunKickInRange(tr, acts, n, modulo, m - 1);
      hide Enabled, Apply;
      KickInRangeStep(tr[m - 1], acts[m - 1]);
    }
  }

  /** With the flag up and only the consumer moving, the wake of writer i comes before
      StepsLeft runs out. */
  lemma {:induction false} FlagUpWakes(tr: seq<Sys>, acts: seq<Act>, n: nat, modulo: nat, a: nat, b: nat, i: nat)
    returns (m: nat)
    requires CharRuns.Run(tr, acts, n, modulo) && a < b < |tr| && forall m :: a <= m < b ==> acts[m] == ReadStep
    requires Waiting(tr[a], i) && b - a >= StepsLeft(tr[a])
    ensures a < m <= b && WokenAt(tr[m], i) && In(tr[m]) + 1 < Out(tr[m]) + Cells(tr[m])
    decreases b - a
  {
    RankStep(tr[a], i);
    hide Enabled, Apply, ReaderStep;
    StepIsRead(tr, acts, n, modulo, a);
    m := a + 1;
    if Closer(tr[a], tr[a + 1], i) {
      ReaderThrottled(tr[a]);
      CharRuns.RunInv(tr, acts, n, modulo, a + 1);
      ThrottledOf(tr[a], i);
      RankIsPositive(tr[a + 1]);
      QueueCounts(tr[a + 1]);
      hide Rank, StepsLeft, InIteration, Throttled, CharFifo.Inv;
      m := FlagUpWakes(tr, acts, n, modulo, a + 1, b, i);
    }
  }

  lemma StepIsRead(tr: seq<Sys>, acts: seq<Act>, n: nat, modulo: nat, a: nat)
    requires CharRuns.Run(tr, acts, n, modulo) && a < |acts| && acts[a] == ReadStep
    ensures Enabled(tr[a], ReadStep) && tr[a + 1] == ReaderStep(tr[a])
  {
    assert tr[a + 1] == Apply(tr[a], acts[a]);
  }

  lemma ThrottledOf(s: Sys, i: int)
    requires Waiting(s, i)
    ensures Throttled(s) && s.flag && s.writers[i].queued
  {
  }

  lemma QueueCounts(s: Sys)
    requires CharRuns.Inv(s)
    ensures Occupancy(s) >= 0 && CharFifo.Inv(s)
  {
  }

  /** The flag decides: let writer i sleep when the consumer begins an iteration, with o bytes
      in the ring, and let only the consumer move, for 6 * (min(o, KicksOff) + 1) + 5 steps
      or more. It wakes writer i if and only if the flag is up. */
  lemma FlagDecides(tr: seq<Sys>, acts: seq<Act>, n: nat, modulo: nat, a: nat, b: nat, i: nat)
    requires CharRuns.Run(tr, acts, n, modulo) && a < b < |tr| && forall m :: a <= m < b ==> acts[m] == ReadStep
    requires tr[a].reader == MapTop && SleepsAt(tr[a], i)
    requires b - a >= 6 * (Min(Occupancy(tr[a]), KicksOff(tr[a].kick, tr[a].modulo)) + 1) + 5
    ensures (exists m :: a < m <= b && WokenAt(tr[m], i)) <==> tr[a].flag
  {
    if tr[a].flag {
      RunKickInRange(tr, acts, n, modulo, a);
      IterationBegins(tr[a]);
      SleeperIsQueued(tr, acts, n, modulo, a, i);
      var m := FlagUpWakes(tr, acts, n, modulo, a, b, i);
    } else {
      forall m | a < m <= b ensures !WokenAt(tr[m], i) {
        FlagStays(tr, acts, n, modulo, a, m);
        FlagDownSleepsOn(tr, acts, n, modulo, a, m, i);
      }
    }
  }

  lemma {:induction false} FlagStays(tr: seq<Sys>, acts: seq<Act>, n: nat, modulo: nat, a: nat, b: nat)
    requires CharRuns.Run(tr, acts, n, modulo) && a <= b < |tr| && forall m :: a <= m < b ==> acts[m] == ReadStep
    ensures forall m :: a <= m <= b ==> tr[m].flag == tr[a].flag
    decreases b
  {
    if a < b {
      FlagStays(tr, acts, n, modulo, a, b - 1);
      StepIsRead(tr, acts, n, modulo, b - 1);
      ReadKeepsFlag(tr[b - 1]);
    }
  }

  lemma ReadKeepsFlag(s: Sys)
    requires Enabled(s, ReadStep)
    ensures ReaderStep(s).flag == s.flag
  {
    hide Residue, NextIdx, NextReader, NextKick;
  }

  // ---------- how the flag comes to be down ----------

  /** The consumer takes a byte and comes to look at the flag. */
  lemma MapTake(c: Setting, s: Sys) returns (s': Sys)
    requires Reaches(c, s) && s.reader == MapTop && In(s) > Out(s)
    ensures Reaches(c, s') && s'.reader == MapFlag
    ensures s' == s.(rd := s'.rd, consumed := s'.consumed, debt := true, reader := MapFlag, laps := s'.laps)
    ensures Out(s') == Out(s) + 1
  {
    Facts(c, s);
    IndexMeans(s, In(s));
    hide Reaches, Residue, NextIdx, CharRuns.Inv, CharFifo.Inv, Queue;
    var s1 := ReaderMoves(c, s, MapWr(s.rd));
    var s2 := ReaderMoves(c, s1, MapCmp(s.rd, s.wr, |s.produced|));
    var s3 := ReaderMoves(c, s2, MapAdvance(s.rd, s.buf[s.rd]));
    s' := ReaderTakes(c, s3, MapFlag, s.buf[s.rd]);
  }

  /** With the flag up and the throttle at zero it wakes everyone. */
  lemma MapWake(c: Setting, s: Sys) returns (s': Sys)
    requires Reaches(c, s) && s.reader == MapFlag && s.flag && s.kick == 0
    ensures Reaches(c, s') && s'.reader == MapTop && |s'.writers| == |s.writers|
    ensures s' == s.(writers := s'.writers, debt := false, leak := false, reader := MapTop, kick := 1, laps := s'.laps)
    ensures forall i :: 0 <= i < |s.writers| && s.writers[i].queued ==> s'.writers[i] == s.writers[i].(woken := true)
  {
    Facts(c, s);
    hide Reaches, Residue, NextIdx, CharRuns.Inv;
    var s1 := ReaderMoves(c, s, MapKick);
    var s2 := MapKicks(c, s1);
    s' := ReaderMoves(c, s2, MapTop);
  }

  lemma MapKicks(c: Setting, s: Sys) returns (s': Sys)
    requires Reaches(c, s) && s.reader == MapKick && Enabled(s, ReadStep)
    ensures Reaches(c, s') && Enabled(s', ReadStep)
    ensures s' == WakeAll(s).(reader := MapNext, kick := 1, laps := s.laps)
  {
    hide Reaches;
    s' := Go(c, s, ReadStep);
  }

  /** Two writers sleep on a full ring, and the consumer takes a byte and wakes both. */
  lemma TwoWoken(c: Setting) returns (s: Sys)
    requires 2 <= c.n && 0 < c.modulo && c.maps
    ensures Reaches(c, s) && |s.writers| == 2 && s.lock == FREE && s.reader == MapTop
    ensures In(s) == c.n - 1 && Out(s) == 1
    ensures forall i :: 0 <= i < 2 ==> s.writers[i].pc == Blocked && s.writers[i].woken
    ensures var w := s.writers[0]; w.kind == Stream && |w.data| == c.n && w.pos == c.n - 1
  {
    s := FillAndSleep(c);
    hide Reaches, NextIdx;
    s := Join(c, s, [1]);
    s := FallAsleep(c, s, 1);
    var s1 := MapGoes(c, s);
    s := MapTake(c, s1);
    s := MapWake(c, s);
  }

  lemma MapGoes(c: Setting, s: Sys) returns (s': Sys)
    requires Reaches(c, s) && s.reader == Away && c.maps
    ensures Reaches(c, s') && s' == s.(reader := MapTop, kick := 0)
  {
    Facts(c, s);
    hide Reaches;
    s' := Go(c, s, MapBegin);
  }

  /** The first lowers the flag, puts its last byte into the one free cell, and is done; the
      second finds the ring full again and goes back to sleep without raising the flag. */
  lemma SecondSleepsOn(c: Setting) returns (s: Sys)
    requires 2 <= c.n && 0 < c.modulo && c.maps
    ensures Reaches(c, s) && |s.writers| == 2 && s.reader == MapTop && !s.flag
    ensures SleepsAt(s, 1) && s.writers[0].pc == Done(true) && In(s) + 1 == Out(s) + c.n
  {
    s := TwoWoken(c);
    hide Reaches, NextIdx;
    s := Resume(c, s, 0);
    s := Put(c, s, 0);
    s := SleepOn(c, s, 1);
  }

  /** On every ring, whatever the throttle, some run leaves a dev_write caller asleep beside a
      free cell with the flag down, its only companion done, and the consumer at the head of
      its loop, where FlagDownSleepsOn takes over. */
  lemma UnflaggedSleeper(n: nat, modulo: nat)
    requires 2 <= n && 0 < modulo
    ensures exists s :: Reaches(Setting(n, modulo, true), s) && |s.writers| == 2 && s.writers[0].pc == Done(true)
                        && SleepsAt(s, 1) && !s.flag && s.reader == MapTop
                        && |s.produced| - |s.consumed| < Cells(s) - 1
  {
    var c := Setting(n, modulo, true);
    var s := SecondSleepsOn(c);
    hide Reaches, NextIdx;
    var s1 := MapTake(c, s);
    Facts(c, s1);
    var s2 := Go(c, s1, ReadStep);
  }
}
