/** A dev_read that consumes bytes and then meets a user-copy fault returns without waking
    the queue. On every ring of three or more cells, the code's 1024 included, this leaves a
    writer asleep beside a free cell, at once or as soon as a writer on its way to sleep gets
    there; a ring of two cells cannot lose a wakeup. */
module CharFault {
  import opened Words
  import opened CharSystem
  import opened CharFifo
  import opened CharReach
  import CharRuns
  import CharWake

  /** With dev_read as the only reader. */
  function DevReadOnly(n: nat): Setting {
    Setting(n, 1, false)
  }

  /** A dev_read call takes one byte ... */
  lemma ReadOne(c: Setting, s: Sys) returns (s': Sys)
    requires Reaches(c, s) && s.reader.ReadTop? && s.reader.len > 0 && In(s) > Out(s)
    ensures Reaches(c, s') && Out(s') == Out(s) + 1
    ensures s' == s.(rd := s'.rd, consumed := s'.consumed, debt := true, laps := s'.laps,
                     reader := ReadTop(s.reader.len - 1, s.reader.got + 1))
  {
    var len, got := s.reader.len, s.reader.got;
    Facts(c, s);
    IndexMeans(s, In(s));
    hide Reaches, Residue, NextIdx, CharRuns.Inv, CharFifo.Inv, Queue;
    var s1 := ReaderMoves(c, s, ReadCmp(len, got, s.wr, |s.produced|));
    var s2 := ReaderMoves(c, s1, ReadAdvance(len, got, s.buf[s.rd]));
    s' := ReaderTakes(c, s2, ReadTop(len - 1, got + 1), s.buf[s.rd]);
  }

  /** ... or as many as there are, one after the other ... */
  lemma {:induction false} ReadMany(c: Setting, s: Sys, k: nat) returns (s': Sys)
    requires Reaches(c, s) && s.reader.ReadTop? && s.reader.len >= k && In(s) - Out(s) >= k
    ensures Reaches(c, s') && Out(s') == Out(s) + k
    ensures s' == s.(rd := s'.rd, consumed := s'.consumed, debt := s'.debt, laps := s'.laps,
                     reader := ReadTop(s.reader.len - k, s.reader.got + k))
    decreases k
  {
    hide Reaches;
    if k == 0 {
      s' := s;
    } else {
      var s1 := ReadOne(c, s);
      s' := ReadMany(c, s1, k - 1);
    }
  }

  /** ... and faults on the next. */
  lemma ReadFaults(c: Setting, s: Sys) returns (s': Sys)
    requires Reaches(c, s) && s.reader.ReadTop? && s.reader.len > 0 && In(s) > Out(s)
    ensures Reaches(c, s') && s' == s.(reader := Away, leak := s'.leak, laps := s'.laps)
  {
    Facts(c, s);
    IndexMeans(s, In(s));
    hide Reaches, Residue, NextIdx, CharRuns.Inv, CharFifo.Inv, Queue;
    var s1 := ReaderMoves(c, s, ReadCmp(s.reader.len, s.reader.got, s.wr, |s.produced|));
    s' := Go(c, s1, ReadFault);
  }

  lemma ReadBegins(c: Setting, s: Sys, len: nat) returns (s': Sys)
    requires Reaches(c, s) && s.reader == Away
    ensures Reaches(c, s') && s' == s.(reader := ReadTop(len, 0))
  {
    Facts(c, s);
    hide Reaches;
    s' := Go(c, s, ReadCall(len));
  }

  /** The lost wakeup, on any ring of at least three cells: the only writer sleeps, no wake
      is on its way, a cell is free, and no reader is inside a call. */
  lemma LostWakeupAfterFault(n: nat)
    requires 3 <= n
    ensures exists s :: Reaches(DevReadOnly(n), s) && |s.writers| == 1
                        && s.writers[0].pc == Blocked && !s.writers[0].woken
                        && s.reader == Away && |s.produced| - |s.consumed| < Cells(s) - 1
  {
    var c := DevReadOnly(n);
    var s := FillAndSleep(c);
    hide Reaches;
    s := ReadBegins(c, s, 2);
    s := ReadOne(c, s);
    s := ReadFaults(c, s);
    Facts(c, s);
  }

  /** A call that takes n bytes of a ring of n cells, while a second writer adds two, and then
      faults, the first writer standing between its two loads all the while. */
  lemma FaultPastTester(n: nat) returns (s: Sys)
    requires 3 <= n
    ensures Reaches(DevReadOnly(n), s) && |s.writers| == 2 && s.reader == Away
    ensures In(s) == n + 1 && Out(s) == n && s.writers[1].pc == Done(true)
    ensures var w := s.writers[0];
            w.kind == Stream && w.pos < |w.data| && w.queued && !w.woken && w.pc == TestRd(n - 1, n - 1)
  {
    var c := DevReadOnly(n);
    s := FillUp(c);
    FullIndex(c, s);
    hide Reaches, NextIdx, Residue;
    s := LookAgain(c, s, 0);
    s := Join(c, s, [1, 1]);
    s := ReadBegins(c, s, n + 1);
    s := ReadMany(c, s, 2);
    s := Put(c, s, 1);
    s := Put(c, s, 1);
    s := ReadMany(c, s, n - 2);
    s := ReadFaults(c, s);
  }

  lemma FullIndex(c: Setting, s: Sys)
    requires Reaches(c, s) && In(s) == c.n - 1 && 2 <= c.n
    ensures s.wr == c.n - 1
  {
    Facts(c, s);
    ResidueSmall(c.n - 1, c.n);
  }

  /** The second way to lose a wakeup, on any ring of at least three cells: nobody sleeps when
      the call faults, and none is lost by the fault; the writer between its loads then sees a
      full ring where there is none and goes to sleep beside free cells. */
  lemma StaleSleeperAfterFault(n: nat)
    requires 3 <= n
    ensures exists s :: Reaches(DevReadOnly(n), s) && s.reader == Away && !CharWake.Sleeps(s) && Enabled(s, Write(0))
                        && CharWake.SleepsOnStaleView(s, Write(0)) && CharWake.LostSleeper(Apply(s, Write(0)))
  {
    var s := FaultPastTester(n);
    Facts(DevReadOnly(n), s);
    ResidueOf(n, 1, 0, n);
    hide Reaches;
    StaleView(n, s);
    hide CharRuns.Inv;
    CharWake.LossByWrite(s, 0);
  }

  lemma StaleView(n: nat, s: Sys)
    requires 3 <= n == Cells(s) && CharRuns.Inv(s) && Residue(n, n) == 0
    requires |s.writers| == 2 && s.reader == Away && In(s) == n + 1 && Out(s) == n && s.writers[1].pc == Done(true)
    requires var w := s.writers[0]; w.pos < |w.data| && w.queued && !w.woken && w.pc == TestRd(n - 1, n - 1)
    ensures CharFifo.Inv(s) && Enabled(s, Write(0)) && !CharWake.Sleeps(s) && CharWake.SleepsOnStaleView(s, Write(0))
  {
    assert s.rd == 0 && NextIdx(n - 1, n) == 0;
  }

  lemma TwoCells(s: Sys)
    requires Reaches(DevReadOnly(2), s)
    ensures !CharWake.LostSleeper(s)
  {
    var tr: seq<Sys>, acts: seq<Act> :|
      && CharRuns.Run(tr, acts, 2, 1) && tr[|acts|] == s
      && forall j :: 0 <= j < |acts| && acts[j].MapBegin? ==> false;
    hide CharRuns.Run, CharWake.LostSleeper;
    CharRuns.TwoCellsLoseNothing(tr, acts, 1, |acts|);
  }

  /** So a wakeup can be lost if and only if the ring has three or more cells. */
  lemma LossNeedsThreeCells(n: nat)
    requires 2 <= n
    ensures (exists s :: Reaches(DevReadOnly(n), s) && CharWake.LostSleeper(s)) <==> n >= 3
  {
    hide Reaches;
    if n >= 3 {
      LostWakeupAfterFault(n);
      var s :| Reaches(DevReadOnly(n), s) && |s.writers| == 1 && s.writers[0].pc == Blocked && !s.writers[0].woken
               && s.reader == Away && |s.produced| - |s.consumed| < Cells(s) - 1;
      assert CharWake.LostSleeper(s);
    } else if s :| Reaches(DevReadOnly(n), s) && CharWake.LostSleeper(s) {
      TwoCells(s);
    }
  }
}
