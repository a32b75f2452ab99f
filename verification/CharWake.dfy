/** No wakeup of a sleeping writer is lost, although its wait condition loads the two
    indices separately and the reader takes no lock. */
module CharWake {
  import opened Words
  import opened CharSystem
  import opened CharFifo

  ghost predicate Full(s: Sys) {
    In(s) + 1 == Out(s) + Cells(s)
  }

  /** A queued writer that nobody woke saw no byte leave since it was queued, unless a wake
      is still owed; and it sleeps on a full ring, unless a wake is still owed. */
  ghost predicate Waiter(s: Sys, w: Writer) {
    && (w.queued ==> w.c0 <= Out(s) && (!w.woken ==> w.c0 == Out(s) || s.debt))
    && (w.pc.TestRd? ==>
          0 < Cells(s) && w.pc.p <= In(s) && w.pc.w == Residue(w.pc.p, Cells(s)) && (w.queued ==> w.c0 <= w.pc.p))
    && (w.pc == Blocked ==> w.queued && (!w.woken ==> Full(s) || s.debt))
  }

  ghost predicate Inv(s: Sys) {
    forall i :: 0 <= i < |s.writers| ==> Waiter(s, s.writers[i])
  }

  /** A writer that finds the condition false while nothing left the ring since it was
      queued really sees a full ring, however old its view of the write index. */
  lemma StaleViewIsFull(s: Sys, p: nat)
    requires Queue(s) && Out(s) <= p <= In(s) && NextIdx(Residue(p, Cells(s)), Cells(s)) == s.rd
    ensures p == In(s) && Full(s)
  {
    ResidueSucc(p, Cells(s));
    ResidueShift(Out(s), Cells(s));
    ResidueInjective(p + 1, Out(s) + Cells(s), Cells(s));
    if p + 1 != Out(s) + Cells(s) {
      ResidueInjective(p + 1, Out(s), Cells(s));
    }
  }

  lemma OwnWaiter(s: Sys, i: nat)
    requires CharFifo.Inv(s) && Enabled(s, Write(i)) && Waiter(s, s.writers[i])
    ensures Waiter(WriterStep(s, i), NextWriter(s, s.writers[i]))
  {
    var w, s' := s.writers[i], WriterStep(s, i);
    if w.pc.TestRd? {
      TestWaiter(s, w);
    } else if w.pc == Advance {
      assert WriterInv(s, w);
    }
    hide Residue, NextIdx, RingFull, Locking, ReaderInv;
    assert In(s) <= In(s') && Out(s') == Out(s) && s'.debt == s.debt && Cells(s') == Cells(s);
  }

  lemma TestWaiter(s: Sys, w: Writer)
    requires Queue(s) && Waiter(s, w) && w.pc.TestRd?
    ensures Waiter(s, NextWriter(s, w))
  {
    if Out(s) <= w.pc.p && NextIdx(w.pc.w, Cells(s)) == s.rd {
      StaleViewIsFull(s, w.pc.p);
    }
    hide Residue, NextIdx, RingFull;
  }

  /** Nobody adds a byte to a full ring, so the other sleepers are not disturbed. */
  lemma OtherWaiter(s: Sys, i: nat, w: Writer)
    requires CharFifo.Inv(s) && Enabled(s, Write(i)) && Waiter(s, w)
    ensures Waiter(WriterStep(s, i), w)
  {
    assert WriterInv(s, s.writers[i]);
    hide Residue, NextIdx, NextWriter;
  }

  lemma WakeWaiters(s: Sys)
    requires Inv(s)
    ensures Inv(WakeAll(s))
  {
    hide Residue;
    var s' := WakeAll(s);
    forall i | 0 <= i < |s'.writers| ensures Waiter(s', s'.writers[i]) {
      assert Waiter(s, s.writers[i]);
    }
  }

  lemma TakeWaiters(s: Sys)
    requires Indexed(s) && Inv(s)
    ensures Inv(TakeByte(s))
  {
    hide Residue, NextIdx;
    var s' := TakeByte(s);
    forall i | 0 <= i < |s'.writers| ensures Waiter(s', s'.writers[i]) {
      assert Waiter(s, s.writers[i]);
    }
  }

  /** Only the ring's counts, the debt and the writers matter to sleepers. */
  lemma SameWaiters(s: Sys, s': Sys)
    requires Inv(s)
    requires |s'.buf| == |s.buf| && s'.produced == s.produced && s'.consumed == s.consumed && s'.debt == s.debt
    requires |s.writers| <= |s'.writers|
    requires forall i :: 0 <= i < |s'.writers| ==>
               (i < |s.writers| && s'.writers[i] == s.writers[i])
               || (!s'.writers[i].queued && !s'.writers[i].pc.TestRd? && s'.writers[i].pc != Blocked)
               || (i < |s.writers| && s'.writers[i].pc.Done? && s'.writers[i].queued == s.writers[i].queued
                   && s'.writers[i].woken == s.writers[i].woken && s'.writers[i].c0 == s.writers[i].c0)
    ensures Inv(s')
  {
    hide Residue;
    forall i | 0 <= i < |s'.writers| ensures Waiter(s', s'.writers[i]) {
      assert i < |s.writers| ==> Waiter(s, s.writers[i]);
    }
  }

  lemma StepInv(s: Sys, a: Act)
    requires CharFifo.Inv(s) && Inv(s) && Enabled(s, a)
    ensures Inv(Apply(s, a))
  {
    var s' := Apply(s, a);
    match a
    case Write(i) =>
      OwnWaiter(s, i);
      forall j | 0 <= j < |s.writers| ensures Waiter(s', s'.writers[j]) {
        assert Waiter(s, s.writers[j]);
        OtherWaiter(s, i, s.writers[j]);
      }
    case ReadStep =>
      WakeWaiters(s);
      TakeWaiters(s);
      SameWaiters(if Wakes(s.reader) then WakeAll(s) else TakeByte(s), s');
    case Call(kind, data) =>
      WakeWaiters(s);
      SameWaiters(if kind == Stream && data == [] then WakeAll(s) else s, s');
    case _ => SameWaiters(s, s');
  }

  // ---------- who owes the wake ----------

  /** The reader is inside a dev_read call that has consumed a byte. */
  predicate Owes(r: Reader) {
    match r
    case ReadTop(_, got) => got > 0
    case ReadCmp(_, got, _, _) => got > 0
    case ReadAdvance(_, got, _) => got > 0
    case ReadEnd(got) => got > 0
    case _ => false
  }

  predicate Maps(r: Reader) {
    !(r.Away? || r.ReadTop? || r.ReadCmp? || r.ReadAdvance? || r.ReadEnd?)
  }

  /** With dev_read as the only reader, a wake that is owed is owed by the call under way,
      or was dropped by a call that left through a user-copy fault. */
  ghost predicate DebtInv(s: Sys) {
    !Maps(s.reader) && (s.debt ==> Owes(s.reader) || s.leak)
  }

  lemma StepDebt(s: Sys, a: Act)
    requires DebtInv(s) && Enabled(s, a) && !a.MapBegin?
    ensures DebtInv(Apply(s, a))
    ensures Apply(s, a).leak && !s.leak ==> a.ReadFault? && s.reader.got > 0
  {
    hide Residue, NextIdx, NextWriter, RingFull, NextKick;
  }

  /** An upper bound on the steps a dev_read call still takes. */
  function ReadStepsLeft(r: Reader): nat {
    match r
    case ReadTop(len, _) => 3 * len + 2
    case ReadCmp(len, _, _, _) => 3 * len + 1
    case ReadAdvance(len, _, _) => 3 * len
    case ReadEnd(_) => 1
    case _ => 0
  }

  /** Nobody on the queue waits for a wake. */
  predicate AllWoken(s: Sys) {
    forall w :: w in s.writers && w.queued ==> w.woken
  }

  /** The call that owes the wake keeps owing it, one step closer to its end, until it wakes
      everyone on the queue. */
  lemma OwingStep(s: Sys)
    requires Owes(s.reader) && Enabled(s, ReadStep)
    ensures var s' := Apply(s, ReadStep);
            || (Owes(s'.reader) && ReadStepsLeft(s'.reader) < ReadStepsLeft(s.reader))
            || (Wakes(s.reader) && s'.reader == Away && AllWoken(s'))
  {
    hide Residue, NextIdx;
  }

  /** Nobody else takes a call out of the reader's hands. */
  lemma OwingStays(s: Sys, a: Act)
    requires Owes(s.reader) && Enabled(s, a) && a != ReadStep && !a.ReadFault?
    ensures Apply(s, a).reader == s.reader
  {
    hide Residue, NextIdx, NextWriter;
  }

  // ---------- lost sleepers ----------

  /** Some writer sleeps without a wake on its way. */
  ghost predicate Sleeps(s: Sys) {
    exists i :: 0 <= i < |s.writers| && s.writers[i].pc == Blocked && !s.writers[i].woken
  }

  /** It does so beside a free cell, and no reader is about to wake it. */
  ghost predicate LostSleeper(s: Sys) {
    Sleeps(s) && !Full(s) && !Owes(s.reader)
  }

  /** The step issues a wake. */
  predicate WakesQueue(s: Sys, a: Act) {
    (a.ReadStep? && Wakes(s.reader)) || (a.Call? && a.kind == Stream && a.data == [])
  }

  /** A sleeper sleeps on until a wake or a signal. */
  lemma StaysAsleep(s: Sys, a: Act, i: nat)
    requires Enabled(s, a) && i < |s.writers| && s.writers[i].pc == Blocked && !s.writers[i].woken
    requires !WakesQueue(s, a) && a != Signal(i)
    ensures i < |Apply(s, a).writers| && Apply(s, a).writers[i] == s.writers[i]
  {
    hide Residue, NextIdx, RingFull, NextKick, NextReader;
  }

  lemma LeakStep(s: Sys, a: Act)
    requires Enabled(s, a)
    ensures Apply(s, a).leak <==> (a.ReadFault? && Owes(s.reader)) || (s.leak && !WakesQueue(s, a))
  {
    hide Residue, NextIdx, NextWriter, RingFull, NextKick;
  }

  lemma LostNeedsLeak(s: Sys)
    requires Inv(s) && DebtInv(s) && LostSleeper(s)
    ensures s.leak
  {
    var i :| 0 <= i < |s.writers| && s.writers[i].pc == Blocked && !s.writers[i].woken;
    assert Waiter(s, s.writers[i]);
  }

  /** One way to lose a wakeup: a call that has consumed a byte meets a user-copy fault
      while a writer sleeps and the ring is not full. */
  ghost predicate FaultsBesideSleeper(s: Sys, a: Act) {
    a.ReadFault? && Owes(s.reader) && !Full(s) && Sleeps(s)
  }

  /** The other: a writer on the queue, between its two loads when a call consumed bytes and
      faulted, compares its old view of the write index and goes to sleep. */
  ghost predicate SleepsOnStaleView(s: Sys, a: Act) {
    && a.Write? && Indexed(s) && a.i < |s.writers|
    && var w := s.writers[a.i];
       && w.pc.TestRd? && w.queued && !w.woken && NextIdx(w.pc.w, Cells(s)) == s.rd
       && !Full(s) && !Owes(s.reader)
  }

  lemma LossByWrite(s: Sys, i: nat)
    requires CharFifo.Inv(s) && Enabled(s, Write(i)) && !LostSleeper(s)
    ensures LostSleeper(WriterStep(s, i)) <==> SleepsOnStaleView(s, Write(i))
  {
    var w, s' := s.writers[i], WriterStep(s, i);
    assert WriterInv(s, w);
    FallsAsleep(s, w);
    hide NextIdx, NextWriter, Locking, ReaderInv;
    assert forall j :: 0 <= j < |s.writers| && j != i ==> s'.writers[j] == s.writers[j];
    assert s'.writers[i] == NextWriter(s, w);
  }

  /** Only a test of the wait condition that looks false puts a queued writer to sleep. */
  lemma FallsAsleep(s: Sys, w: Writer)
    requires Indexed(s)
    ensures var w' := NextWriter(s, w);
            w'.pc == Blocked && !w'.woken <==>
            w.pc.TestRd? && w.queued && !w.woken && NextIdx(w.pc.w, Cells(s)) == s.rd
  {
    hide NextIdx, RingFull;
  }

  lemma LossByRead(s: Sys)
    requires Inv(s) && DebtInv(s) && Enabled(s, ReadStep) && !LostSleeper(s)
    ensures !LostSleeper(ReaderStep(s))
  {
    var s' := ReaderStep(s);
    hide Residue, NextIdx, NextKick;
    if Wakes(s.reader) {
      forall j | 0 <= j < |s'.writers| && s'.writers[j].pc == Blocked ensures s'.writers[j].woken {
        assert Waiter(s, s.writers[j]);
      }
    }
  }

  lemma LossByOther(s: Sys, a: Act)
    requires Inv(s) && DebtInv(s) && Enabled(s, a) && !LostSleeper(s) && !a.MapBegin? && !a.Write? && !a.ReadStep?
    ensures LostSleeper(Apply(s, a)) <==> FaultsBesideSleeper(s, a)
  {
    var s' := Apply(s, a);
    hide Residue, NextIdx;
    if a.Call? {
      forall j | 0 <= j < |s'.writers| && s'.writers[j].pc == Blocked && WakesQueue(s, a) ensures s'.writers[j].woken {
        assert Waiter(s, s.writers[j]);
      }
    }
  }

  /** These two are all: unless a wakeup is lost already, a step loses one if and only if it
      is one of them. */
  lemma LossStep(s: Sys, a: Act)
    requires CharFifo.Inv(s) && Inv(s) && DebtInv(s) && Enabled(s, a) && !LostSleeper(s) && !a.MapBegin?
    ensures LostSleeper(Apply(s, a)) <==> FaultsBesideSleeper(s, a) || SleepsOnStaleView(s, a)
  {
    match a
    case Write(i) => LossByWrite(s, i);
    case ReadStep => LossByRead(s);
    case _ => LossByOther(s, a);
  }

  /** With two cells a call that faults after a byte leaves a full ring behind, so a wake
      that is owed and that nobody is about to issue is one that cannot help yet. */
  ghost predicate TightInv(s: Sys) {
    !Maps(s.reader) && (s.debt ==> Owes(s.reader) || Full(s))
  }

  lemma TightStep(s: Sys, a: Act)
    requires CharFifo.Inv(s) && Cells(s) == 2 && TightInv(s) && Enabled(s, a) && !a.MapBegin?
    ensures TightInv(Apply(s, a))
  {
    match a
    case ReadFault =>
      IndexMeans(s, s.reader.p);
    case Write(i) =>
      assert WriterInv(s, s.writers[i]);
      hide Residue, NextIdx, NextWriter, RingFull, NextKick;
    case _ =>
      hide Residue, NextIdx, NextWriter, RingFull, NextKick;
  }

  lemma TightNeverLoses(s: Sys)
    requires Inv(s) && TightInv(s)
    ensures !LostSleeper(s)
  {
    if i :| 0 <= i < |s.writers| && s.writers[i].pc == Blocked && !s.writers[i].woken {
      assert Waiter(s, s.writers[i]);
    }
  }
}
