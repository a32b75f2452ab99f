/** What each call on the char ring does when the others leave it alone: the step model's
    dev_write, push_metric, dev_read and one turn of the mmap consumer, from first step to
    last. And how a writer's call can end at all, whatever the others do. */
module CharTurns {
  import opened Words
  import opened CharSystem
  import opened CharFifo
  import CharMerge
  import CharRuns
  import CharWake

  /** Free cells. */
  function Room(s: Sys): int {
    Out(s) + Cells(s) - 1 - In(s)
  }

  /** From moment a to moment b only act x happens. */
  ghost predicate Only(tr: seq<Sys>, acts: seq<Act>, n: nat, modulo: nat, a: nat, b: nat, x: Act) {
    CharRuns.Run(tr, acts, n, modulo) && a <= b < |tr| && forall m :: a <= m < b ==> acts[m] == x
  }

  lemma OnlyStep(tr: seq<Sys>, acts: seq<Act>, n: nat, modulo: nat, a: nat, b: nat, x: Act)
    requires Only(tr, acts, n, modulo, a, b, x) && a < b
    ensures Only(tr, acts, n, modulo, a, b - 1, x)
    ensures Enabled(tr[b - 1], x) && tr[b] == Apply(tr[b - 1], x)
    ensures CharFifo.Inv(tr[b - 1])
  {
    CharRuns.RunInv(tr, acts, n, modulo, b - 1);
    assert acts[b - 1] == x;
    hide Enabled, Apply;
  }

  lemma RoomMeans(s: Sys)
    requires CharFifo.Inv(s)
    ensures Indexed(s) && 0 <= Room(s) && (RingFull(s) <==> Room(s) == 0)
  {
    FullMeans(s);
  }

  /** A step of writer i. */
  lemma WriterEffect(s: Sys, i: nat)
    requires Enabled(s, Write(i))
    ensures var s', w := Apply(s, Write(i)), s.writers[i];
            && i < |s'.writers| && s'.writers[i] == NextWriter(s, w)
            && s'.consumed == s.consumed && Cells(s') == Cells(s) && Indexed(s') && WriterShaped(w)
            && s'.produced == (if w.pc == Advance then s.produced + [w.data[w.pos]] else s.produced)
            && (w.pc != Advance ==> s'.wr == s.wr)
            && s'.lock == (if TakesLock(w) then i else if DropsLock(w) then FREE else s.lock)
            && s'.flag == (if w.pc == RaiseFlag then true else if w.pc == LowerFlag then false else s.flag)
  {
    hide NextWriter, Residue;
  }

  /** One byte more of the data is in. */
  lemma OneMore(was: seq<byte>, now: seq<byte>, before: seq<byte>, data: seq<byte>, p: nat)
    requires p < |data| && was == before + data[..p] && now == was + [data[p]]
    ensures now == before + data[..p + 1]
  {
    assert data[..p + 1] == data[..p] + [data[p]];
  }

  // ---------- push_metric ----------

  /** A frame under way, left alone since it took the lock in state s0, after t steps. */
  ghost predicate FrameCourse(s0: Sys, s: Sys, i: nat, t: nat) {
    && i < |s0.writers| && i < |s.writers|
    && var w, fits := s.writers[i], Min(FRAME, Room(s0));
       && w.kind == Metric && w.data == s0.writers[i].data && |w.data| == FRAME && w.pos <= fits
       && s.produced == s0.produced + w.data[..w.pos] && s.consumed == s0.consumed && Cells(s) == Cells(s0)
       && match w.pc
          case Locked => w.pos < FRAME && t == 3 * w.pos
          case Copy => w.pos < fits && t == 3 * w.pos + 1
          case Advance => w.pos < fits && t == 3 * w.pos + 2
          case Unlock => w.pos == fits && t == 3 * fits + (if fits < FRAME then 1 else 0)
          case Done(ok) => w.pos == fits && ok == (fits == FRAME) && t == 3 * fits + (if fits < FRAME then 2 else 1)
          case _ => false
  }

  lemma FrameLooks(s0: Sys, s: Sys, i: nat, t: nat)
    requires FrameCourse(s0, s, i, t) && CharFifo.Inv(s) && Enabled(s, Write(i)) && s.writers[i].pc == Locked
    ensures FrameCourse(s0, Apply(s, Write(i)), i, t + 1)
  {
    RoomMeans(s);
    WriterEffect(s, i);
    hide CharFifo.Inv, Apply, Enabled, RingFull, NextIdx;
  }

  lemma FrameAdvances(s0: Sys, s: Sys, i: nat, t: nat)
    requires FrameCourse(s0, s, i, t) && Enabled(s, Write(i)) && s.writers[i].pc == Advance
    ensures FrameCourse(s0, Apply(s, Write(i)), i, t + 1)
  {
    WriterEffect(s, i);
    var s', w := Apply(s, Write(i)), s.writers[i];
    OneMore(s.produced, s'.produced, s0.produced, w.data, w.pos);
    hide CharFifo.Inv, Apply, Enabled, RingFull, NextIdx;
  }

  lemma FrameStep(s0: Sys, s: Sys, i: nat, t: nat)
    requires FrameCourse(s0, s, i, t) && CharFifo.Inv(s) && Enabled(s, Write(i))
    ensures FrameCourse(s0, Apply(s, Write(i)), i, t + 1)
  {
    if s.writers[i].pc == Locked {
      FrameLooks(s0, s, i, t);
    } else if s.writers[i].pc == Advance {
      FrameAdvances(s0, s, i, t);
    } else {
      WriterEffect(s, i);
      assert !s.writers[i].pc.Done?;
      hide CharFifo.Inv, Apply, Enabled, RingFull, NextIdx;
    }
  }

  lemma {:induction false} FrameRun(tr: seq<Sys>, acts: seq<Act>, n: nat, modulo: nat, a: nat, b: nat, i: nat)
    requires Only(tr, acts, n, modulo, a, b, Write(i)) && FrameCourse(tr[a], tr[a], i, 0)
    ensures FrameCourse(tr[a], tr[b], i, b - a)
    decreases b
  {
    hide CharRuns.Run, Enabled, Apply, FrameCourse;
    if a < b {
      OnlyStep(tr, acts, n, modulo, a, b, Write(i));
      FrameRun(tr, acts, n, modulo, a, b - 1, i);
      FrameStep(tr[a], tr[b - 1], i, b - 1 - a);
    }
  }

  /** push_metric left alone with the lock: it succeeds if and only if the whole frame fits,
      it puts in the part that fits, in order, and it is done after three steps for each byte
      and one or two more. */
  lemma FrameAlone(tr: seq<Sys>, acts: seq<Act>, n: nat, modulo: nat, a: nat, b: nat, i: nat)
    requires CharRuns.Run(tr, acts, n, modulo) && a <= b < |tr| && forall m :: a <= m < b ==> acts[m] == Write(i)
    requires i < |tr[a].writers| && tr[a].writers[i].kind == Metric
    requires tr[a].writers[i].pc == Locked && tr[a].writers[i].pos == 0
    ensures i < |tr[b].writers| && |tr[a].writers[i].data| == FRAME
    ensures var fits := Min(FRAME, n - 1 - (In(tr[a]) - Out(tr[a]))); var w := tr[b].writers[i];
            && 0 <= fits && (w.pc.Done? <==> b - a == 3 * fits + (if fits < FRAME then 2 else 1))
            && (w.pc.Done? ==> w.pc.ok == (fits == FRAME) && w.pos == fits
                               && tr[b].produced == tr[a].produced + tr[a].writers[i].data[..fits])
  {
    CharRuns.RunInv(tr, acts, n, modulo, a);
    CharRuns.Capacity(tr, acts, n, modulo, a);
    RoomMeans(tr[a]);
    assert CharMerge.Contiguous(tr[a], i);
    assert tr[a].produced == tr[a].produced + tr[a].writers[i].data[..0];
    FrameRun(tr, acts, n, modulo, a, b, i);
  }

  // ---------- dev_write ----------

  /** A dev_write call left alone since it began in state s0, after t steps. */
  ghost predicate WriteCourse(s0: Sys, s: Sys, i: nat, t: nat) {
    && i < |s0.writers| && i < |s.writers| && Indexed(s) && 0 <= Room(s0)
    && var w := s.writers[i];
       && w.kind == Stream && w.data == s0.writers[i].data && w.pos <= Min(|w.data|, Room(s0))
       && s.produced == s0.produced + w.data[..w.pos] && s.consumed == s0.consumed && Cells(s) == Cells(s0)
       && s.flag == (s0.flag || Waits(w.pc)) && (HoldsLock(w) || s.lock == FREE)
       && (Waits(w.pc) || w.pc == RaiseFlag ==> w.pos == Room(s0) < |w.data|)
       && match w.pc
          case Loop => w.pos < |w.data| && t == 5 * w.pos && !w.queued
          case Locked => w.pos < |w.data| && t == 5 * w.pos + 1 && !w.queued
          case Copy => w.pos < Min(|w.data|, Room(s0)) && t == 5 * w.pos + 2 && !w.queued
          case Advance => w.pos < Min(|w.data|, Room(s0)) && t == 5 * w.pos + 3 && !w.queued
          case Unlock => w.pos > 0 && t == 5 * w.pos - 1 && !w.queued
          case Done(ok) => ok && w.pos == |w.data| && t == 5 * w.pos
          case RaiseFlag => t == 5 * w.pos + 2 && !w.queued
          case DropLock => t == 5 * w.pos + 3 && !w.queued
          case TestWr => t == 5 * w.pos + (if w.queued then 7 else 4) && !w.woken
          case TestRd(x, _) => t == 5 * w.pos + (if w.queued then 8 else 5) && x == s.wr && !w.woken
          case Enqueue => t == 5 * w.pos + 6 && !w.queued
          case Blocked => t == 5 * w.pos + 9 && w.queued && !w.woken
          case _ => false
  }

  /** The flag has been raised for this wait. */
  predicate Waits(pc: Pc) {
    pc in {DropLock, TestWr, Enqueue, Blocked} || pc.TestRd?
  }

  lemma WriteLooks(s0: Sys, s: Sys, i: nat, t: nat)
    requires WriteCourse(s0, s, i, t) && CharFifo.Inv(s) && Enabled(s, Write(i)) && !s.writers[i].woken
    requires s.writers[i].pc == Locked
    ensures WriteCourse(s0, Apply(s, Write(i)), i, t + 1) && !Apply(s, Write(i)).writers[i].woken
  {
    RoomMeans(s);
    WriterEffect(s, i);
    hide CharFifo.Inv, Apply, Enabled, RingFull, NextIdx;
  }

  lemma WriteAdvances(s0: Sys, s: Sys, i: nat, t: nat)
    requires WriteCourse(s0, s, i, t) && CharFifo.Inv(s) && Enabled(s, Write(i)) && !s.writers[i].woken
    requires s.writers[i].pc == Advance
    ensures WriteCourse(s0, Apply(s, Write(i)), i, t + 1) && !Apply(s, Write(i)).writers[i].woken
  {
    WriterEffect(s, i);
    var s', w := Apply(s, Write(i)), s.writers[i];
    OneMore(s.produced, s'.produced, s0.produced, w.data, w.pos);
    hide CharFifo.Inv, Apply, Enabled, RingFull, NextIdx;
  }

  lemma WriteMoves(s0: Sys, s: Sys, i: nat, t: nat)
    requires WriteCourse(s0, s, i, t) && Enabled(s, Write(i)) && !s.writers[i].woken
    requires s.writers[i].pc in {Loop, Copy, Unlock}
    ensures WriteCourse(s0, Apply(s, Write(i)), i, t + 1) && !Apply(s, Write(i)).writers[i].woken
  {
    WriterEffect(s, i);
    hide CharFifo.Inv, Apply, Enabled, RingFull, NextIdx;
  }

  lemma WriteTests(s0: Sys, s: Sys, i: nat, t: nat)
    requires WriteCourse(s0, s, i, t) && CharFifo.Inv(s) && Enabled(s, Write(i)) && !s.writers[i].woken
    requires s.writers[i].pc.TestRd?
    ensures WriteCourse(s0, Apply(s, Write(i)), i, t + 1) && !Apply(s, Write(i)).writers[i].woken
  {
    RoomMeans(s);
    WriterEffect(s, i);
    assert RingFull(s) <==> NextIdx(s.wr, Cells(s)) == s.rd;
    hide CharFifo.Inv, Apply, Enabled, NextIdx, RingFull;
  }

  lemma WriteStepWait(s0: Sys, s: Sys, i: nat, t: nat)
    requires WriteCourse(s0, s, i, t) && Enabled(s, Write(i)) && !s.writers[i].woken
    requires s.writers[i].pc in {RaiseFlag, DropLock, TestWr, Enqueue}
    ensures WriteCourse(s0, Apply(s, Write(i)), i, t + 1) && !Apply(s, Write(i)).writers[i].woken
  {
    WriterEffect(s, i);
    hide CharFifo.Inv, Apply, Enabled, NextIdx, RingFull;
  }

  lemma WriteGoesOn(s0: Sys, s: Sys, i: nat, t: nat)
    requires WriteCourse(s0, s, i, t) && Enabled(s, Write(i)) && !s.writers[i].woken
    ensures var pc := s.writers[i].pc;
            pc in {Loop, Locked, Copy, Advance, Unlock, RaiseFlag, DropLock, TestWr, Enqueue} || pc.TestRd?
  {
    hide NextIdx;
  }

  lemma WriteStep(s0: Sys, s: Sys, i: nat, t: nat)
    requires WriteCourse(s0, s, i, t) && CharFifo.Inv(s) && Enabled(s, Write(i)) && !s.writers[i].woken
    ensures i < |Apply(s, Write(i)).writers|
    ensures WriteCourse(s0, Apply(s, Write(i)), i, t + 1) && !Apply(s, Write(i)).writers[i].woken
  {
    WriteGoesOn(s0, s, i, t);
    hide Enabled, Apply, CharFifo.Inv;
    if s.writers[i].pc == Locked {
      WriteLooks(s0, s, i, t);
    } else if s.writers[i].pc == Advance {
      WriteAdvances(s0, s, i, t);
    } else if s.writers[i].pc in {Loop, Copy, Unlock} {
      WriteMoves(s0, s, i, t);
    } else if s.writers[i].pc.TestRd? {
      WriteTests(s0, s, i, t);
    } else {
      WriteStepWait(s0, s, i, t);
    }
  }

  lemma {:induction false} WriteRun(tr: seq<Sys>, acts: seq<Act>, n: nat, modulo: nat, a: nat, b: nat, i: nat)
    requires Only(tr, acts, n, modulo, a, b, Write(i)) && i < |tr[a].writers|
    requires WriteCourse(tr[a], tr[a], i, 0) && !tr[a].writers[i].woken
    ensures i < |tr[b].writers| && WriteCourse(tr[a], tr[b], i, b - a) && !tr[b].writers[i].woken
    decreases b
  {
    hide CharRuns.Run, Enabled, Apply, WriteCourse;
    if a < b {
      OnlyStep(tr, acts, n, modulo, a, b, Write(i));
      WriteRun(tr, acts, n, modulo, a, b - 1, i);
      WriteStep(tr[a], tr[b - 1], i, b - 1 - a);
    }
  }

  /** dev_write left alone with a free lock: if the data fits it is all in, in order, after
      five steps for each byte, and the flag is as it was. Otherwise what fits is in, and nine
      steps later the call sleeps on the queue with the flag up. */
  lemma WriteAlone(tr: seq<Sys>, acts: seq<Act>, n: nat, modulo: nat, a: nat, b: nat, i: nat)
    requires CharRuns.Run(tr, acts, n, modulo) && a <= b < |tr| && forall m :: a <= m < b ==> acts[m] == Write(i)
    requires i < |tr[a].writers| && tr[a].lock == FREE
    requires var w := tr[a].writers[i];
             w.kind == Stream && w.pc == Loop && w.pos == 0 && !w.queued && !w.woken
    ensures i < |tr[b].writers|
    ensures var room, data, w := n - 1 - (In(tr[a]) - Out(tr[a])), tr[a].writers[i].data, tr[b].writers[i];
            && 0 <= room && data != []
            && (|data| <= room ==> b - a <= 5 * |data| && (w.pc.Done? <==> b - a == 5 * |data|))
            && (w.pc.Done? ==>
                  |data| <= room && w.pc.ok && tr[b].produced == tr[a].produced + data && tr[b].flag == tr[a].flag)
            && (|data| > room ==> b - a <= 5 * room + 9 && (w.pc == Blocked <==> b - a == 5 * room + 9))
            && (w.pc == Blocked ==>
                  |data| > room && w.queued && !w.woken && tr[b].flag
                  && tr[b].produced == tr[a].produced + data[..room])
  {
    CharRuns.RunInv(tr, acts, n, modulo, a);
    CharRuns.Capacity(tr, acts, n, modulo, a);
    RoomMeans(tr[a]);
    var w0 := tr[a].writers[i];
    assert WriterInv(tr[a], w0);
    assert tr[a].produced == tr[a].produced + w0.data[..0];
    WriteRun(tr, acts, n, modulo, a, b, i);
    assert w0.data[..|w0.data|] == w0.data;
    hide CharFifo.Inv, CharRuns.Run;
  }

  // ---------- how a writer's call ends ----------

  /** The writer met a full ring while it held the lock, with as many bytes in as it has now. */
  ghost predicate MetFull(tr: seq<Sys>, acts: seq<Act>, m: nat, i: nat, pos: nat) {
    exists l :: 0 <= l < m && l < |acts| && l < |tr| && acts[l] == Write(i) && i < |tr[l].writers|
                && tr[l].writers[i].pc == Locked && tr[l].lock == i && tr[l].writers[i].pos == pos && Room(tr[l]) == 0
  }

  /** A user-copy fault or a signal ended the call. */
  ghost predicate CutShort(acts: seq<Act>, m: nat, i: nat) {
    exists l :: 0 <= l < m && l < |acts| && (acts[l] == CopyFault(i) || acts[l] == Signal(i))
  }

  ghost predicate EndsWell(tr: seq<Sys>, acts: seq<Act>, m: nat, i: nat)
    requires m < |tr| && i < |tr[m].writers|
  {
    var w := tr[m].writers[i];
    && (w.kind == Metric && w.pc == Unlock && w.pos < |w.data| ==> MetFull(tr, acts, m, i, w.pos))
    && (w.pc.Done? && w.pc.ok ==> w.pos == |w.data|)
    && (w.pc.Done? && !w.pc.ok && w.kind == Metric ==> w.pos < |w.data| && MetFull(tr, acts, m, i, w.pos))
    && (w.pc.Done? && !w.pc.ok && w.kind == Stream ==> CutShort(acts, m, i))
  }

  /** What step a can do to writer i that matters to how it ends. */
  ghost predicate EndChange(a: Act, i: nat, s: Sys, w: Writer, w': Writer)
    requires Indexed(s)
  {
    || (w'.pc == w.pc && w'.kind == w.kind && w'.data == w.data && w'.pos == w.pos)
    || (a == Write(i) && w' == NextWriter(s, w))
    || (a == CopyFault(i) && w.kind == Stream && w'.kind == w.kind && w'.pc == Done(false))
    || (a == Signal(i) && w.kind == Stream && w'.kind == w.kind && w'.pc == Done(false))
  }

  lemma EndStepWrite(s: Sys, j: nat, i: nat)
    requires Enabled(s, Write(j)) && i < |s.writers|
    ensures |Apply(s, Write(j)).writers| == |s.writers|
    ensures EndChange(Write(j), i, s, s.writers[i], Apply(s, Write(j)).writers[i])
  {
    hide NextWriter, Residue;
  }

  lemma EndStepRead(s: Sys, i: nat)
    requires Enabled(s, ReadStep) && i < |s.writers|
    ensures |Apply(s, ReadStep).writers| == |s.writers|
    ensures EndChange(ReadStep, i, s, s.writers[i], Apply(s, ReadStep).writers[i])
  {
    ReaderShape(s);
    hide NextWriter, Residue, ReaderStep;
  }

  lemma EndStepOther(s: Sys, a: Act, i: nat)
    requires CharRuns.Inv(s) && Enabled(s, a) && !a.Write? && !a.ReadStep? && i < |s.writers|
    ensures i < |Apply(s, a).writers|
    ensures EndChange(a, i, s, s.writers[i], Apply(s, a).writers[i])
  {
    if a.Signal? {
      assert CharMerge.Contiguous(s, a.i);
    }
    hide NextWriter, Residue, NextIdx, CharFifo.Inv, CharMerge.Inv, CharWake.Inv;
  }

  lemma EndStep(s: Sys, a: Act, i: nat)
    requires CharRuns.Inv(s) && Enabled(s, a) && i < |Apply(s, a).writers|
    ensures i >= |s.writers| ==> Apply(s, a).writers[i].pc == Loop
    ensures i < |s.writers| ==> EndChange(a, i, s, s.writers[i], Apply(s, a).writers[i])
  {
    if i < |s.writers| {
      match a
      case Write(j) => EndStepWrite(s, j, i);
      case ReadStep => EndStepRead(s, i);
      case _ => EndStepOther(s, a, i);
    } else {
      hide NextWriter, NextReader, NextKick, Residue, CharRuns.Inv;
    }
  }

  lemma UnlockStep(s: Sys, w: Writer)
    requires Indexed(s) && WriterShaped(w)
    ensures var w' := NextWriter(s, w);
            && w'.kind == w.kind && w'.data == w.data
            && (w'.pc == Unlock && w'.kind == Metric && w'.pos < |w'.data| ==>
                  w.pc == Locked && RingFull(s) && w'.pos == w.pos)
            && (w'.pc.Done? && !w.pc.Done? ==> w.pc == Unlock && w'.pos == w.pos && w'.pc == AfterByte(w))
            && (w.pc.Done? ==> w' == w)
  {
    hide NextIdx, Residue, RingFull;
  }

  lemma LaterFull(tr: seq<Sys>, acts: seq<Act>, m: nat, i: nat, pos: nat)
    ensures MetFull(tr, acts, m, i, pos) ==> MetFull(tr, acts, m + 1, i, pos)
    ensures CutShort(acts, m, i) ==> CutShort(acts, m + 1, i)
  {
    if MetFull(tr, acts, m, i, pos) {
      var l :| 0 <= l < m && l < |acts| && l < |tr| && acts[l] == Write(i) && i < |tr[l].writers|
               && tr[l].writers[i].pc == Locked && tr[l].lock == i && tr[l].writers[i].pos == pos && Room(tr[l]) == 0;
      assert l < m + 1;
    }
  }

  lemma FullNow(tr: seq<Sys>, acts: seq<Act>, m: nat, i: nat)
    requires m < |acts| < |tr| && CharFifo.Inv(tr[m]) && acts[m] == Write(i) && i < |tr[m].writers|
    requires tr[m].writers[i].pc == Locked && RingFull(tr[m])
    ensures MetFull(tr, acts, m + 1, i, tr[m].writers[i].pos)
  {
    RoomMeans(tr[m]);
    assert HoldsLock(tr[m].writers[i]);
  }

  lemma EndsStep(tr: seq<Sys>, acts: seq<Act>, n: nat, modulo: nat, m: nat, i: nat)
    requires CharRuns.Run(tr, acts, n, modulo) && m < |acts| && i < |tr[m].writers| && i < |tr[m + 1].writers|
    requires EndsWell(tr, acts, m, i)
    ensures EndsWell(tr, acts, m + 1, i)
  {
    StepAt(tr, acts, n, modulo, m);
    hide CharRuns.Run;
    var s, s', w, w' := tr[m], tr[m + 1], tr[m].writers[i], tr[m + 1].writers[i];
    EndStep(s, acts[m], i);
    LaterFull(tr, acts, m, i, w.pos);
    if acts[m] == Write(i) && w' == NextWriter(s, w) {
      UnlockStep(s, w);
      assert WriterInv(s, w);
      if w.pc == Locked && RingFull(s) {
        FullNow(tr, acts, m, i);
      }
    }
    hide CharRuns.Inv, CharFifo.Inv, Apply, Enabled, NextWriter, MetFull, CutShort, RingFull, WriterInv;
    if acts[m] == CopyFault(i) || acts[m] == Signal(i) {
      CutNow(acts, m, i);
    }
  }

  lemma CutNow(acts: seq<Act>, m: nat, i: nat)
    requires m < |acts| && (acts[m] == CopyFault(i) || acts[m] == Signal(i))
    ensures CutShort(acts, m + 1, i)
  {
  }

  /** How a writer's call can end, whatever the others do. It succeeds only with all its bytes
      in; a frame fails only because it met a full ring while it held the lock, with just the
      bytes in that are in now; and dev_write fails only by a user-copy fault or a signal. */
  lemma {:induction false} WriterEnds(tr: seq<Sys>, acts: seq<Act>, n: nat, modulo: nat, m: nat, i: nat)
    requires CharRuns.Run(tr, acts, n, modulo) && m < |tr| && i < |tr[m].writers|
    ensures EndsWell(tr, acts, m, i)
  {
    if m == 0 {
      StartsEmpty(tr, acts, n, modulo);
    } else {
      var p := m - 1;
      RunLength(tr, acts, n, modulo);
      StepAt(tr, acts, n, modulo, p);
      hide CharRuns.Run, Enabled, Apply, CharRuns.Inv, EndsWell;
      EndStep(tr[p], acts[p], i);
      if i < |tr[p].writers| {
        WriterEnds(tr, acts, n, modulo, p, i);
        EndsStep(tr, acts, n, modulo, p, i);
      } else {
        EndsAtLoop(tr, acts, m, i);
      }
    }
  }

  lemma RunLength(tr: seq<Sys>, acts: seq<Act>, n: nat, modulo: nat)
    requires CharRuns.Run(tr, acts, n, modulo)
    ensures |tr| == |acts| + 1
  {
    hide Enabled, Apply;
  }

  lemma StartsEmpty(tr: seq<Sys>, acts: seq<Act>, n: nat, modulo: nat)
    requires CharRuns.Run(tr, acts, n, modulo)
    ensures tr[0].writers == []
  {
  }

  lemma StepAt(tr: seq<Sys>, acts: seq<Act>, n: nat, modulo: nat, p: nat)
    requires CharRuns.Run(tr, acts, n, modulo) && p < |acts|
    ensures |tr| == |acts| + 1 && CharRuns.Inv(tr[p])
    ensures Enabled(tr[p], acts[p]) && tr[p + 1] == Apply(tr[p], acts[p])
  {
    hide Enabled, Apply, CharRuns.Inv;
    CharRuns.RunInv(tr, acts, n, modulo, p);
  }

  lemma EndsAtLoop(tr: seq<Sys>, acts: seq<Act>, m: nat, i: nat)
    requires m < |tr| && i < |tr[m].writers| && tr[m].writers[i].pc == Loop
    ensures EndsWell(tr, acts, m, i)
  {
    hide MetFull, CutShort;
  }

  // ---------- after a wake ----------

  /** A woken sleeper left alone since state s0, after t steps. */
  ghost predicate WakeCourse(s0: Sys, s: Sys, i: nat, t: nat) {
    && i < |s0.writers| && i < |s.writers| && Indexed(s0)
    && s.produced == s0.produced && s.consumed == s0.consumed && Cells(s) == Cells(s0) && s.wr == s0.wr && s.rd == s0.rd
    && var w, w0 := s.writers[i], s0.writers[i];
       && w.kind == w0.kind && w.data == w0.data && w.pos == w0.pos
       && (t == 0 ==> w == w0 && s.flag == s0.flag && s.lock == s0.lock)
       && (t == 1 ==> w.pc == Enqueue && s.flag == s0.flag && s.lock == s0.lock)
       && (t == 2 ==> w.pc == TestWr && w.queued && !w.woken && s.flag == s0.flag && s.lock == s0.lock)
       && (t == 3 ==> w.pc.TestRd? && w.pc.w == s0.wr && w.queued && !w.woken && s.flag == s0.flag && s.lock == s0.lock)
       && (t == 4 && RingFull(s0) ==> w.pc == Blocked && w.queued && !w.woken && s.flag == s0.flag && s.lock == s0.lock)
       && (t == 4 && !RingFull(s0) ==> w.pc == Retake && !w.queued && s.flag == s0.flag && s.lock == s0.lock)
       && (t == 5 ==> w.pc == LowerFlag && !w.queued && s.flag == s0.flag && s.lock == i)
       && (t == 6 ==> w.pc == DropLock2 && !w.queued && !s.flag && s.lock == i)
       && (t == 7 ==> w.pc == Loop && !w.queued && !s.flag && s.lock == FREE)
  }

  lemma WakeStep(s0: Sys, s: Sys, i: nat, t: nat)
    requires WakeCourse(s0, s, i, t) && Enabled(s, Write(i)) && t < 7 && (RingFull(s0) ==> t < 4)
    requires s0.writers[i].pc == Blocked
    ensures WakeCourse(s0, Apply(s, Write(i)), i, t + 1)
  {
    WriterEffect(s, i);
    WriterKeepsRead(s, i);
    assert RingFull(s0) <==> NextIdx(s0.wr, Cells(s0)) == s0.rd;
    hide Apply, Enabled, NextIdx, RingFull;
  }

  lemma WriterKeepsRead(s: Sys, i: nat)
    requires Enabled(s, Write(i))
    ensures Apply(s, Write(i)).rd == s.rd
  {
    hide NextWriter, Residue;
  }

  lemma {:induction false} WakeRun(tr: seq<Sys>, acts: seq<Act>, n: nat, modulo: nat, a: nat, b: nat, i: nat)
    requires Only(tr, acts, n, modulo, a, b, Write(i)) && i < |tr[a].writers| && Indexed(tr[a])
    requires tr[a].writers[i].pc == Blocked && b - a <= (if RingFull(tr[a]) then 4 else 7)
    ensures WakeCourse(tr[a], tr[b], i, b - a)
    decreases b
  {
    hide CharRuns.Run, Enabled, Apply, RingFull, NextIdx;
    if a < b {
      OnlyStep(tr, acts, n, modulo, a, b, Write(i));
      WakeRun(tr, acts, n, modulo, a, b - 1, i);
      WakeStep(tr[a], tr[b - 1], i, b - 1 - a);
    }
  }

  /** A sleeper that goes on alone after a wake: with room in the ring it is back at the head of
      its loop after seven steps, off the queue, with the flag down and the lock free; on a full
      ring it sleeps again after four, with the flag as it was. */
  lemma WakeAlone(tr: seq<Sys>, acts: seq<Act>, n: nat, modulo: nat, a: nat, b: nat, i: nat)
    requires CharRuns.Run(tr, acts, n, modulo) && a <= b < |tr| && forall m :: a <= m < b ==> acts[m] == Write(i)
    requires i < |tr[a].writers| && tr[a].writers[i].pc == Blocked
    requires b - a == if In(tr[a]) - Out(tr[a]) == n - 1 then 4 else 7
    ensures i < |tr[b].writers|
    ensures var w, w0 := tr[b].writers[i], tr[a].writers[i];
            && w.data == w0.data && w.pos == w0.pos
            && tr[b].produced == tr[a].produced && tr[b].consumed == tr[a].consumed
            && if In(tr[a]) - Out(tr[a]) == n - 1
               then w.pc == Blocked && w.queued && !w.woken && tr[b].flag == tr[a].flag
               else w.pc == Loop && !w.queued && !tr[b].flag && tr[b].lock == FREE
  {
    CharRuns.RunInv(tr, acts, n, modulo, a);
    CharRuns.Capacity(tr, acts, n, modulo, a);
    RoomMeans(tr[a]);
    WakeRun(tr, acts, n, modulo, a, b, i);
    hide CharFifo.Inv, CharRuns.Run, RingFull;
  }

  // ---------- dev_read ----------

  /** A dev_read call of len bytes left alone since it began in state s0. */
  ghost predicate ReadCourse(s0: Sys, s: Sys, len: nat) {
    && s.produced == s0.produced && s.wr == s0.wr && Cells(s) == Cells(s0) && Out(s0) <= In(s0)
    && var takes := Min(len, In(s0) - Out(s0)); var g := Out(s) - Out(s0);
       && 0 <= g <= takes && s.consumed == s0.consumed + s0.produced[Out(s0)..Out(s)]
       && (s.reader != Away ==> s.writers == s0.writers)
       && match s.reader
          case ReadTop(l, got) => got == g && l == len - g
          case ReadCmp(l, got, w, p) => got == g && l == len - g && l > 0 && w == s0.wr && p == In(s0)
          case ReadAdvance(l, got, _) => got == g && l == len - g && g < takes
          case ReadEnd(got) => got == g == takes
          case Away => g == takes && if takes > 0 then CharWake.AllWoken(s) else s.writers == s0.writers
          case _ => false
  }

  lemma ReadTakes(s0: Sys, s: Sys, len: nat)
    requires ReadCourse(s0, s, len) && CharFifo.Inv(s) && Enabled(s, ReadStep) && s.reader.ReadAdvance?
    ensures ReadCourse(s0, Apply(s, ReadStep), len)
  {
    hide Residue, NextIdx, Locking, WriterInv;
    assert s0.produced[Out(s0)..Out(s) + 1] == s0.produced[Out(s0)..Out(s)] + [s0.produced[Out(s)]];
  }

  lemma ReadEnds(s0: Sys, s: Sys, len: nat)
    requires ReadCourse(s0, s, len) && Enabled(s, ReadStep) && s.reader.ReadEnd?
    ensures ReadCourse(s0, Apply(s, ReadStep), len)
  {
    hide Residue, NextIdx;
  }

  lemma ReadLooks(s0: Sys, s: Sys, len: nat)
    requires ReadCourse(s0, s, len) && CharFifo.Inv(s) && Enabled(s, ReadStep)
    requires s.reader.ReadTop? || s.reader.ReadCmp?
    ensures ReadCourse(s0, Apply(s, ReadStep), len)
  {
    IndexMeans(s, In(s));
    hide Residue, NextIdx, Locking, WriterInv, ReaderInv;
  }

  lemma ReadCourseStep(s0: Sys, s: Sys, len: nat)
    requires ReadCourse(s0, s, len) && CharFifo.Inv(s) && Enabled(s, ReadStep)
    ensures ReadCourse(s0, Apply(s, ReadStep), len)
    ensures CharWake.ReadStepsLeft(Apply(s, ReadStep).reader) < CharWake.ReadStepsLeft(s.reader)
  {
    ReadShorter(s);
    if s.reader.ReadAdvance? {
      ReadTakes(s0, s, len);
    } else if s.reader.ReadEnd? {
      ReadEnds(s0, s, len);
    } else {
      ReadLooks(s0, s, len);
    }
  }

  lemma ReadShorter(s: Sys)
    requires Enabled(s, ReadStep)
    requires s.reader.ReadTop? || s.reader.ReadCmp? || s.reader.ReadAdvance? || s.reader.ReadEnd?
    ensures CharWake.ReadStepsLeft(Apply(s, ReadStep).reader) < CharWake.ReadStepsLeft(s.reader)
  {
    hide Residue, NextIdx;
  }

  lemma {:induction false} ReadRun(tr: seq<Sys>, acts: seq<Act>, n: nat, modulo: nat, a: nat, b: nat, len: nat)
    requires Only(tr, acts, n, modulo, a, b, ReadStep) && ReadCourse(tr[a], tr[a], len)
    ensures ReadCourse(tr[a], tr[b], len)
    ensures b - a + CharWake.ReadStepsLeft(tr[b].reader) <= CharWake.ReadStepsLeft(tr[a].reader)
    decreases b
  {
    hide CharRuns.Run, Enabled, Apply, ReadCourse, CharWake.ReadStepsLeft;
    if a < b {
      OnlyStep(tr, acts, n, modulo, a, b, ReadStep);
      ReadRun(tr, acts, n, modulo, a, b - 1, len);
      ReadCourseStep(tr[a], tr[b - 1], len);
    }
  }

  /** dev_read left alone: after at most 3 * len + 2 steps it has taken the oldest
      min(len, occupancy) bytes, and it has woken everyone on the queue if that is not none,
      and nobody if it is. */
  lemma ReadAlone(tr: seq<Sys>, acts: seq<Act>, n: nat, modulo: nat, a: nat, b: nat, len: nat)
    requires CharRuns.Run(tr, acts, n, modulo) && a <= b < |tr| && forall m :: a <= m < b ==> acts[m] == ReadStep
    requires tr[a].reader == ReadTop(len, 0)
    ensures Out(tr[a]) <= In(tr[a]) && b - a <= 3 * len + 2
    ensures tr[b].reader == Away ==>
              var takes := Min(len, In(tr[a]) - Out(tr[a]));
              && tr[b].consumed == tr[a].consumed + tr[a].produced[Out(tr[a])..Out(tr[a]) + takes]
              && if takes > 0 then CharWake.AllWoken(tr[b]) else tr[b].writers == tr[a].writers
  {
    CharRuns.RunInv(tr, acts, n, modulo, a);
    assert tr[a].produced[Out(tr[a])..Out(tr[a])] == [];
    ReadRun(tr, acts, n, modulo, a, b, len);
    hide CharFifo.Inv, CharRuns.Run;
  }

  // ---------- the mmap consumer ----------

  /** The reader after one step of an iteration that nobody disturbs. */
  lemma TurnStep(s: Sys)
    requires CharFifo.Inv(s) && Enabled(s, ReadStep) && 0 < s.modulo
    ensures var s' := Apply(s, ReadStep);
            && s'.produced == s.produced && s'.flag == s.flag && s'.modulo == s.modulo && s'.wr == s.wr
            && Cells(s') == Cells(s) && s'.reader == NextReader(s) && s'.kick == NextKick(s)
            && (!s.reader.MapAdvance? && !s.reader.ReadAdvance? ==> s'.consumed == s.consumed && s'.rd == s.rd)
            && (s.reader.MapAdvance? ==> s'.consumed == s.consumed + [s.produced[Out(s)]])
            && if Wakes(s.reader) then CharWake.AllWoken(s') else s'.writers == s.writers
    ensures s.reader.MapAdvance? ==> Out(s) < In(s)
  {
    hide Residue, NextIdx, NextReader, NextKick, Queue, Locking, WriterInv;
  }

  lemma NextLooks(s: Sys)
    requires CharFifo.Inv(s) && Enabled(s, ReadStep)
    ensures s.reader == MapTop ==> NextReader(s) == MapWr(s.rd) && NextKick(s) == s.kick
    ensures s.reader.MapWr? ==> NextReader(s) == MapCmp(s.rd, s.wr, In(s)) && NextKick(s) == s.kick
    ensures s.reader.MapCmp? && s.reader.w == s.wr ==>
              NextKick(s) == s.kick && (NextReader(s).MapAdvance? <==> In(s) > Out(s))
              && (NextReader(s) == MapEmptyFlag <==> In(s) == Out(s))
    ensures s.reader.MapAdvance? ==> NextReader(s) == MapFlag && NextKick(s) == s.kick
  {
    IndexMeans(s, In(s));
    hide Residue, NextIdx, Locking, WriterInv;
  }

  /** The moment of an iteration that begins at moment a, m steps on. */
  lemma TurnAt(tr: seq<Sys>, acts: seq<Act>, n: nat, modulo: nat, a: nat, m: nat)
    requires CharRuns.Run(tr, acts, n, modulo) && a + m < |acts| && acts[a + m] == ReadStep
    ensures CharFifo.Inv(tr[a + m]) && Enabled(tr[a + m], ReadStep) && 0 < tr[a + m].modulo
    ensures tr[a + m + 1] == Apply(tr[a + m], ReadStep)
  {
    CharRuns.RunInv(tr, acts, n, modulo, a + m);
    assert Enabled(tr[a + m], acts[a + m]);
    hide Enabled, Apply;
  }

  /** How many steps an iteration takes. */
  function TurnLength(empty: bool, flag: bool, kick: nat): nat {
    if empty then (if flag then 6 else 5) else if flag && kick == 0 then 7 else 5
  }

  /** The first three steps look whether there is a byte. */
  lemma TurnLooks(tr: seq<Sys>, acts: seq<Act>, n: nat, modulo: nat, a: nat)
    requires CharRuns.Run(tr, acts, n, modulo) && a + 3 <= |acts| && forall m :: a <= m < a + 3 ==> acts[m] == ReadStep
    requires tr[a].reader == MapTop
    ensures var s, t := tr[a], tr[a + 3];
            && Out(s) <= In(s) && (if In(s) > Out(s) then t.reader.MapAdvance? else t.reader == MapEmptyFlag)
            && t.produced == s.produced && t.consumed == s.consumed && t.flag == s.flag && t.kick == s.kick
            && t.modulo == s.modulo && t.writers == s.writers
  {
    TurnAt(tr, acts, n, modulo, a, 0);
    TurnAt(tr, acts, n, modulo, a, 1);
    TurnAt(tr, acts, n, modulo, a, 2);
    TurnStep(tr[a]);
    TurnStep(tr[a + 1]);
    TurnStep(tr[a + 2]);
    NextLooks(tr[a]);
    NextLooks(tr[a + 1]);
    NextLooks(tr[a + 2]);
    QueueOrder(tr[a]);
    hide CharRuns.Run, Enabled, Apply, CharFifo.Inv, NextReader, NextKick;
  }

  lemma QueueOrder(s: Sys)
    requires CharFifo.Inv(s)
    ensures Out(s) <= In(s)
  {
  }

  /** What the flag and the throttle decide. */
  lemma NextKicks(s: Sys)
    requires Enabled(s, ReadStep)
    ensures s.reader == MapFlag ==> NextReader(s) == if s.flag && s.kick == 0 then MapKick else MapTop
    ensures s.reader == MapFlag ==>
              NextKick(s) == if s.flag && s.kick != 0 then Residue(s.kick + 1, s.modulo) else s.kick
    ensures s.reader == MapKick ==> NextReader(s) == MapNext && NextKick(s) == 1
    ensures s.reader == MapNext ==> NextReader(s) == MapTop && NextKick(s) == s.kick
    ensures s.reader == MapEmptyFlag ==>
              NextReader(s) == (if s.flag then MapEmptyKick else MapIdle) && NextKick(s) == s.kick
    ensures s.reader == MapEmptyKick ==> NextReader(s) == MapIdle && NextKick(s) == s.kick
    ensures s.reader == MapIdle ==> NextReader(s) == MapTop && NextKick(s) == s.kick
  {
    hide Residue, NextIdx;
  }

  lemma TurnKicks(tr: seq<Sys>, acts: seq<Act>, n: nat, modulo: nat, a: nat, m: nat)
    requires CharRuns.Run(tr, acts, n, modulo) && a + m < |acts| && acts[a + m] == ReadStep
    ensures Enabled(tr[a + m], ReadStep)
    ensures var s, t := tr[a + m], tr[a + m + 1];
            && t.produced == s.produced && t.flag == s.flag && t.modulo == s.modulo && 0 < s.modulo
            && t.reader == NextReader(s) && t.kick == NextKick(s)
            && (!s.reader.MapAdvance? && !s.reader.ReadAdvance? ==> t.consumed == s.consumed)
            && (s.reader.MapAdvance? ==> Out(s) < In(s) && t.consumed == s.consumed + [s.produced[Out(s)]])
            && if Wakes(s.reader) then CharWake.AllWoken(t) else t.writers == s.writers
  {
    TurnAt(tr, acts, n, modulo, a, m);
    TurnStep(tr[a + m]);
    hide CharRuns.Run, Enabled, Apply, CharFifo.Inv, NextReader, NextKick;
  }

  /** An iteration that finds the ring empty. */
  lemma EmptyTurn(tr: seq<Sys>, acts: seq<Act>, n: nat, modulo: nat, a: nat)
    requires CharRuns.Run(tr, acts, n, modulo) && a < |tr| && tr[a].reader == MapTop && In(tr[a]) == Out(tr[a])
    requires var l := TurnLength(true, tr[a].flag, tr[a].kick);
             a + l <= |acts| && forall m :: a <= m < a + l ==> acts[m] == ReadStep
    ensures var s, t := tr[a], tr[a + TurnLength(true, tr[a].flag, tr[a].kick)];
            && t.reader == MapTop && t.consumed == s.consumed && t.kick == s.kick && t.flag == s.flag
            && if s.flag then CharWake.AllWoken(t) else t.writers == s.writers
  {
    TurnLooks(tr, acts, n, modulo, a);
    TurnKicks(tr, acts, n, modulo, a, 3);
    TurnKicks(tr, acts, n, modulo, a, 4);
    NextKicks(tr[a + 3]);
    NextKicks(tr[a + 4]);
    if tr[a].flag {
      TurnKicks(tr, acts, n, modulo, a, 5);
      NextKicks(tr[a + 5]);
    }
    hide CharRuns.Run, Enabled, Apply, NextReader, NextKick, CharWake.AllWoken;
  }

  /** An iteration that finds a byte. */
  lemma ByteTurn(tr: seq<Sys>, acts: seq<Act>, n: nat, modulo: nat, a: nat)
    requires CharRuns.Run(tr, acts, n, modulo) && a < |tr| && tr[a].reader == MapTop && In(tr[a]) > Out(tr[a])
    requires var l := TurnLength(false, tr[a].flag, tr[a].kick);
             a + l <= |acts| && forall m :: a <= m < a + l ==> acts[m] == ReadStep
    ensures 0 < tr[a].modulo
    ensures var s, t := tr[a], tr[a + TurnLength(false, tr[a].flag, tr[a].kick)];
            && t.reader == MapTop && t.consumed == s.consumed + [s.produced[Out(s)]] && t.flag == s.flag
            && t.kick == (if !s.flag then s.kick else if s.kick == 0 then 1 else Residue(s.kick + 1, s.modulo))
            && if s.flag && s.kick == 0 then CharWake.AllWoken(t) else t.writers == s.writers
  {
    TurnLooks(tr, acts, n, modulo, a);
    TurnKicks(tr, acts, n, modulo, a, 3);
    TurnKicks(tr, acts, n, modulo, a, 4);
    NextAdvances(tr[a + 3]);
    NextKicks(tr[a + 4]);
    if tr[a].flag && tr[a].kick == 0 {
      TurnKicks(tr, acts, n, modulo, a, 5);
      TurnKicks(tr, acts, n, modulo, a, 6);
      NextKicks(tr[a + 5]);
      NextKicks(tr[a + 6]);
    }
    hide CharRuns.Run, Enabled, Apply, NextReader, NextKick, CharWake.AllWoken, Residue;
  }

  lemma NextAdvances(s: Sys)
    requires Enabled(s, ReadStep)
    ensures s.reader.MapAdvance? ==> NextReader(s) == MapFlag && NextKick(s) == s.kick
  {
    hide Residue, NextIdx;
  }
}
