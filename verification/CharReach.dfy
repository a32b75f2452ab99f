/** Building runs of the char tenant step by step: a writer that puts bytes in, falls asleep
    on a full ring, or goes on after a wake. */
module CharReach {
  import opened Words
  import opened CharSystem
  import opened CharFifo
  import CharRuns

  /** Capacity, throttle modulus, and whether the mmap consumer ever runs. */
  datatype Setting = Setting(n: nat, modulo: nat, maps: bool)

  /** A state that some run from the zeroed page comes to. */
  ghost predicate Reaches(c: Setting, s: Sys) {
    exists tr: seq<Sys>, acts: seq<Act> ::
      && CharRuns.Run(tr, acts, c.n, c.modulo) && tr[|acts|] == s
      && forall j :: 0 <= j < |acts| && acts[j].MapBegin? ==> c.maps
  }

  lemma Begin(c: Setting)
    requires 2 <= c.n && 0 < c.modulo
    ensures Reaches(c, Start(c.n, c.modulo))
  {
    var s0 := Start(c.n, c.modulo);
    var none: seq<Act> := [];
    assert CharRuns.Run([s0], none, c.n, c.modulo) && [s0][|none|] == s0;
  }

  lemma Go(c: Setting, s: Sys, a: Act) returns (s': Sys)
    requires Reaches(c, s) && Enabled(s, a) && (a.MapBegin? ==> c.maps)
    ensures s' == Apply(s, a) && Reaches(c, s')
  {
    s' := Apply(s, a);
    hide Enabled, Apply;
    var tr: seq<Sys>, acts: seq<Act> :|
      && CharRuns.Run(tr, acts, c.n, c.modulo) && tr[|acts|] == s
      && forall j :: 0 <= j < |acts| && acts[j].MapBegin? ==> c.maps;
    var tr', acts' := tr + [s'], acts + [a];
    forall m | 0 <= m < |acts'| ensures Enabled(tr'[m], acts'[m]) && tr'[m + 1] == Apply(tr'[m], acts'[m]) {
      if m < |acts| {
        assert tr'[m] == tr[m] && tr'[m + 1] == tr[m + 1] && acts'[m] == acts[m];
      }
    }
    assert CharRuns.Run(tr', acts', c.n, c.modulo) && tr'[|acts'|] == s';
  }

  lemma Facts(c: Setting, s: Sys)
    requires Reaches(c, s)
    ensures CharRuns.Inv(s) && Cells(s) == c.n && s.modulo == c.modulo
    ensures RingFull(s) <==> In(s) + 1 == Out(s) + Cells(s)
  {
    var tr: seq<Sys>, acts: seq<Act> :|
      && CharRuns.Run(tr, acts, c.n, c.modulo) && tr[|acts|] == s
      && forall j :: 0 <= j < |acts| && acts[j].MapBegin? ==> c.maps;
    CharRuns.RunInv(tr, acts, c.n, c.modulo, |acts|);
    CharRuns.Capacity(tr, acts, c.n, c.modulo, |acts|);
    FullMeans(s);
  }

  /** State s but for writer i, the lock and the flag. */
  function With(s: Sys, i: nat, w: Writer, lock: int, flag: bool): Sys
    requires i < |s.writers|
  {
    s.(writers := s.writers[i := w], lock := lock, flag := flag)
  }

  /** A step of writer i that moves no byte. */
  lemma Turn(c: Setting, s: Sys, i: nat, w: Writer, lock: int, flag: bool, w': Writer)
    requires i < |s.writers| && Indexed(s) && Reaches(c, With(s, i, w, lock, flag))
    requires !w.pc.Done? && w.pc != Copy && w.pc != Advance
    requires (TakesLock(w) ==> lock == FREE) && (w.pc == Blocked ==> w.woken) && w' == NextWriter(s, w)
    ensures Reaches(c, With(s, i, w', if TakesLock(w) then i else if DropsLock(w) then FREE else lock,
                            if w.pc == RaiseFlag then true else if w.pc == LowerFlag then false else flag))
  {
    var t := With(s, i, w, lock, flag);
    SameNext(s, t, w);
    hide Reaches, NextWriter, Residue;
    assert t.writers[i := w'] == s.writers[i := w'];
    var t' := Go(c, t, Write(i));
  }

  lemma SameNext(s: Sys, t: Sys, w: Writer)
    requires Indexed(s) && t == s.(writers := t.writers, lock := t.lock, flag := t.flag)
    ensures NextWriter(t, w) == NextWriter(s, w)
  {
    hide NextIdx;
  }

  function Locks(s: Sys, w: Writer): Writer {
    w.(pc := Locked, start := if w.pos == 0 then |s.produced| else w.start)
  }

  lemma TakeLock(c: Setting, s: Sys, i: nat)
    requires Reaches(c, s) && i < |s.writers| && s.lock == FREE && s.writers[i].pc == Loop
    ensures Reaches(c, With(s, i, Locks(s, s.writers[i]), i, s.flag))
  {
    Facts(c, s);
    hide Reaches, NextIdx;
    assert With(s, i, s.writers[i], FREE, s.flag) == s;
    Turn(c, s, i, s.writers[i], FREE, s.flag, Locks(s, s.writers[i]));
  }

  /** The byte goes into its cell, and the write index over it. */
  function Filled(s: Sys, i: nat, b: byte): Sys
    requires Indexed(s)
  {
    s.(buf := s.buf[s.wr := b], wr := NextIdx(s.wr, Cells(s)), produced := s.produced + [b], tags := s.tags + [i])
  }

  lemma CopyEffect(s: Sys, i: nat, w: Writer)
    requires i < |s.writers| && Indexed(s) && w.pc == Copy && w.pos < |w.data|
    ensures var t := With(s, i, w, i, s.flag);
            && Enabled(t, Write(i))
            && Apply(t, Write(i)) == With(s.(buf := s.buf[s.wr := w.data[w.pos]]), i, w.(pc := Advance), i, s.flag)
  {
    hide Residue, NextIdx, RingFull;
  }

  lemma AdvanceEffect(s: Sys, i: nat, w: Writer)
    requires i < |s.writers| && Indexed(s) && w.pc == Advance && w.kind == Stream && w.pos < |w.data|
    ensures var t := With(s, i, w, i, s.flag);
            && Enabled(t, Write(i))
            && Apply(t, Write(i)) ==
               With(s.(wr := NextIdx(s.wr, Cells(s)), produced := s.produced + [w.data[w.pos]], tags := s.tags + [i]),
                    i, w.(pos := w.pos + 1, pc := Unlock), i, s.flag)
  {
    hide Residue, NextIdx, RingFull;
  }

  lemma CopyByte(c: Setting, s: Sys, i: nat, w: Writer)
    requires i < |s.writers| && Indexed(s) && w.pc == Copy && w.pos < |w.data| && Reaches(c, With(s, i, w, i, s.flag))
    ensures Reaches(c, With(s.(buf := s.buf[s.wr := w.data[w.pos]]), i, w.(pc := Advance), i, s.flag))
  {
    CopyEffect(s, i, w);
    hide Reaches, Enabled, Apply, With;
    var t := Go(c, With(s, i, w, i, s.flag), Write(i));
  }

  lemma AdvanceIndex(c: Setting, s: Sys, i: nat, w: Writer)
    requires i < |s.writers| && Indexed(s) && w.pc == Advance && w.kind == Stream && w.pos < |w.data|
    requires Reaches(c, With(s, i, w, i, s.flag))
    ensures Reaches(c, With(s.(wr := NextIdx(s.wr, Cells(s)),
                               produced := s.produced + [w.data[w.pos]], tags := s.tags + [i]),
                            i, w.(pos := w.pos + 1, pc := Unlock), i, s.flag))
  {
    AdvanceEffect(s, i, w);
    hide Reaches, Enabled, Apply, With, NextIdx;
    var t := Go(c, With(s, i, w, i, s.flag), Write(i));
  }

  lemma CopyAndAdvance(c: Setting, s: Sys, i: nat, w: Writer)
    requires i < |s.writers| && Indexed(s) && w.pc == Copy && w.kind == Stream && w.pos < |w.data|
    requires Reaches(c, With(s, i, w, i, s.flag))
    ensures Reaches(c, With(Filled(s, i, w.data[w.pos]), i, w.(pos := w.pos + 1, pc := Unlock), i, s.flag))
  {
    hide Reaches, NextIdx, With;
    CopyByte(c, s, i, w);
    AdvanceIndex(c, s.(buf := s.buf[s.wr := w.data[w.pos]]), i, w.(pc := Advance));
  }

  /** Writer i takes the lock and finds room. */
  lemma FindRoom(c: Setting, s: Sys, i: nat)
    requires Reaches(c, s) && i < |s.writers| && s.lock == FREE && s.writers[i].pc == Loop
    requires In(s) + 1 < Out(s) + c.n
    ensures Indexed(s) && Reaches(c, With(s, i, Locks(s, s.writers[i]).(pc := Copy), i, s.flag))
  {
    var w := Locks(s, s.writers[i]);
    Facts(c, s);
    TakeLock(c, s, i);
    hide Reaches, NextIdx, Locks;
    Turn(c, s, i, w, i, s.flag, w.(pc := Copy));
  }

  /** Writer w after it put one byte in. */
  function OneFurther(s: Sys, w: Writer): Writer {
    Locks(s, w).(pos := w.pos + 1, pc := if w.pos + 1 == |w.data| then Done(true) else Loop)
  }

  /** Writer i with a byte in hand and room in the ring puts it in. */
  lemma Put(c: Setting, s: Sys, i: nat) returns (s': Sys)
    requires Reaches(c, s) && i < |s.writers| && s.lock == FREE && In(s) + 1 < Out(s) + c.n
    requires var w := s.writers[i]; w.pc == Loop && w.kind == Stream && w.pos < |w.data|
    ensures Indexed(s) && Reaches(c, s')
    ensures s' == With(Filled(s, i, s.writers[i].data[s.writers[i].pos]), i, OneFurther(s, s.writers[i]), FREE, s.flag)
  {
    var w := s.writers[i];
    var locked, b := Locks(s, w), w.data[w.pos];
    FindRoom(c, s, i);
    hide Reaches, NextIdx, RingFull;
    CopyAndAdvance(c, s, i, locked.(pc := Copy));
    var s2 := Filled(s, i, b);
    FilledIndexed(s, i, b);
    hide Filled, With;
    Turn(c, s2, i, locked.(pos := w.pos + 1, pc := Unlock), i, s.flag, OneFurther(s, w));
    s' := With(s2, i, OneFurther(s, w), FREE, s.flag);
  }

  lemma FilledIndexed(s: Sys, i: nat, b: byte)
    requires Indexed(s)
    ensures Indexed(Filled(s, i, b)) && |Filled(s, i, b).writers| == |s.writers|
  {
  }

  /** Writer i with more bytes than there is room fills the ring. */
  lemma {:induction false} Fill(c: Setting, s: Sys, i: nat) returns (s': Sys)
    requires Reaches(c, s) && i < |s.writers| && s.lock == FREE && In(s) + 1 <= Out(s) + c.n
    requires var w := s.writers[i]; w.pc == Loop && w.kind == Stream && w.pos + (Out(s) + c.n - 1 - In(s)) < |w.data|
    ensures Reaches(c, s') && |s'.writers| == |s.writers|
    ensures var w, w' := s.writers[i], s'.writers[i];
            && s' == s.(buf := s'.buf, wr := s'.wr, produced := s'.produced, tags := s'.tags,
                        writers := s.writers[i := w'])
            && w' == w.(pos := w.pos + (Out(s) + c.n - 1 - In(s)), start := w'.start)
    ensures In(s') + 1 == Out(s') + c.n
    decreases Out(s) + c.n - 1 - In(s)
  {
    hide Reaches, NextIdx;
    if In(s) + 1 == Out(s) + c.n {
      s' := s;
    } else {
      var s1 := Put(c, s, i);
      s' := Fill(c, s1, i);
      assert s'.writers == s.writers[i := s'.writers[i]];
    }
  }

  /** One evaluation of the wait condition on a full ring. */
  lemma TestFull(c: Setting, s: Sys, i: nat, w: Writer, flag: bool)
    requires i < |s.writers| && Indexed(s) && RingFull(s) && w.pc == TestWr && Reaches(c, With(s, i, w, FREE, flag))
    ensures Reaches(c, With(s, i, w.(pc := if w.queued then Blocked else Enqueue), FREE, flag))
  {
    hide Reaches, NextIdx;
    Turn(c, s, i, w, FREE, flag, w.(pc := TestRd(s.wr, |s.produced|)));
    Turn(c, s, i, w.(pc := TestRd(s.wr, |s.produced|)), FREE, flag, w.(pc := if w.queued then Blocked else Enqueue));
  }

  function Queued(s: Sys, w: Writer): Writer {
    w.(queued := true, woken := false, c0 := |s.consumed|)
  }

  /** The writer as it sleeps. */
  function Sleeper(s: Sys, w: Writer): Writer {
    Queued(s, w).(pc := Blocked)
  }

  /** From the queue's door to sleep, the ring being full. */
  lemma Doze(c: Setting, s: Sys, i: nat, w: Writer, flag: bool)
    requires i < |s.writers| && Indexed(s) && RingFull(s) && w.pc == Enqueue && Reaches(c, With(s, i, w, FREE, flag))
    ensures Reaches(c, With(s, i, Sleeper(s, w), FREE, flag))
  {
    hide Reaches, NextIdx, RingFull;
    Turn(c, s, i, w, FREE, flag, Queued(s, w).(pc := TestWr));
    TestFull(c, s, i, Queued(s, w).(pc := TestWr), flag);
  }

  /** A writer with a byte in hand finds the ring full, raises the flag, and comes to the
      queue's door. */
  lemma ToTheQueue(c: Setting, s: Sys, i: nat)
    requires Reaches(c, s) && i < |s.writers| && s.lock == FREE && In(s) + 1 == Out(s) + c.n
    requires var w := s.writers[i]; w.pc == Loop && w.kind == Stream && !w.queued
    ensures Indexed(s) && Reaches(c, With(s, i, Locks(s, s.writers[i]).(pc := Enqueue), FREE, true))
  {
    var w := Locks(s, s.writers[i]);
    Facts(c, s);
    TakeLock(c, s, i);
    hide Reaches, NextIdx;
    Turn(c, s, i, w, i, s.flag, w.(pc := RaiseFlag));
    hide RingFull;
    Turn(c, s, i, w.(pc := RaiseFlag), i, s.flag, w.(pc := DropLock));
    Turn(c, s, i, w.(pc := DropLock), i, true, w.(pc := TestWr));
    TestFull(c, s, i, w.(pc := TestWr), true);
  }

  /** And goes to sleep. */
  lemma FallAsleep(c: Setting, s: Sys, i: nat) returns (s': Sys)
    requires Reaches(c, s) && i < |s.writers| && s.lock == FREE && In(s) + 1 == Out(s) + c.n
    requires var w := s.writers[i]; w.pc == Loop && w.kind == Stream && !w.queued
    ensures Reaches(c, s') && s' == With(s, i, Sleeper(s, Locks(s, s.writers[i])), FREE, true)
  {
    var w := Locks(s, s.writers[i]);
    Facts(c, s);
    ToTheQueue(c, s, i);
    hide Reaches, NextIdx, RingFull;
    Doze(c, s, i, w.(pc := Enqueue), true);
    s' := With(s, i, Sleeper(s, w), FREE, true);
  }

  /** A writer with a byte in hand finds the ring full, joins the queue, and tests the wait
      condition once more: it has loaded the write index and is about to load the read index. */
  lemma LookAgain(c: Setting, s: Sys, i: nat) returns (s': Sys)
    requires Reaches(c, s) && i < |s.writers| && s.lock == FREE && In(s) + 1 == Out(s) + c.n
    requires var w := s.writers[i]; w.pc == Loop && w.kind == Stream && !w.queued
    ensures Reaches(c, s')
    ensures s' == With(s, i, Queued(s, Locks(s, s.writers[i])).(pc := TestRd(s.wr, |s.produced|)), FREE, true)
  {
    var w := Locks(s, s.writers[i]);
    Facts(c, s);
    ToTheQueue(c, s, i);
    hide Reaches, NextIdx, RingFull;
    var v := Queued(s, w);
    Turn(c, s, i, w.(pc := Enqueue), FREE, true, v.(pc := TestWr));
    Turn(c, s, i, v.(pc := TestWr), FREE, true, v.(pc := TestRd(s.wr, |s.produced|)));
    s' := With(s, i, v.(pc := TestRd(s.wr, |s.produced|)), FREE, true);
  }

  /** A woken writer that finds the ring full again goes back to sleep. The flag stays as it
      is: it is raised only on the way into the wait. */
  lemma SleepOn(c: Setting, s: Sys, i: nat) returns (s': Sys)
    requires Reaches(c, s) && i < |s.writers| && s.lock == FREE && In(s) + 1 == Out(s) + c.n
    requires s.writers[i].pc == Blocked && s.writers[i].woken
    ensures Reaches(c, s') && s' == With(s, i, Sleeper(s, s.writers[i]), FREE, s.flag)
  {
    var w := s.writers[i];
    Facts(c, s);
    hide Reaches, NextIdx, RingFull;
    assert With(s, i, w, FREE, s.flag) == s;
    Turn(c, s, i, w, FREE, s.flag, w.(pc := Enqueue));
    Doze(c, s, i, w.(pc := Enqueue), s.flag);
    s' := With(s, i, Sleeper(s, w), FREE, s.flag);
  }

  /** One evaluation of the wait condition with room in the ring. */
  lemma TestRoom(c: Setting, s: Sys, i: nat, w: Writer, flag: bool)
    requires i < |s.writers| && Indexed(s) && !RingFull(s) && w.pc == TestWr && Reaches(c, With(s, i, w, FREE, flag))
    ensures Reaches(c, With(s, i, w.(pc := Retake, queued := false), FREE, flag))
  {
    hide Reaches, NextIdx;
    Turn(c, s, i, w, FREE, flag, w.(pc := TestRd(s.wr, |s.produced|)));
    Turn(c, s, i, w.(pc := TestRd(s.wr, |s.produced|)), FREE, flag, w.(pc := Retake, queued := false));
  }

  /** A woken writer that finds room leaves the wait ... */
  lemma LeaveWait(c: Setting, s: Sys, i: nat)
    requires Reaches(c, s) && i < |s.writers| && s.lock == FREE && In(s) + 1 < Out(s) + c.n
    requires s.writers[i].pc == Blocked && s.writers[i].woken
    ensures Indexed(s) && Reaches(c, With(s, i, Queued(s, s.writers[i]).(pc := Retake, queued := false), FREE, s.flag))
  {
    var w := s.writers[i];
    Facts(c, s);
    hide Reaches, NextIdx, RingFull;
    assert With(s, i, w, FREE, s.flag) == s;
    Turn(c, s, i, w, FREE, s.flag, w.(pc := Enqueue));
    Turn(c, s, i, w.(pc := Enqueue), FREE, s.flag, Queued(s, w).(pc := TestWr));
    TestRoom(c, s, i, Queued(s, w).(pc := TestWr), s.flag);
  }

  /** ... lowers the flag ... */
  lemma LowersFlag(c: Setting, s: Sys, i: nat, v: Writer)
    requires i < |s.writers| && Indexed(s) && v.pc == Retake && Reaches(c, With(s, i, v, FREE, s.flag))
    ensures Reaches(c, With(s, i, v.(pc := DropLock2), i, false))
  {
    hide Reaches, NextIdx, RingFull, With;
    Turn(c, s, i, v, FREE, s.flag, v.(pc := LowerFlag));
    Turn(c, s, i, v.(pc := LowerFlag), i, s.flag, v.(pc := DropLock2));
  }

  /** ... and tries again. */
  lemma Resume(c: Setting, s: Sys, i: nat) returns (s': Sys)
    requires Reaches(c, s) && i < |s.writers| && s.lock == FREE && In(s) + 1 < Out(s) + c.n
    requires s.writers[i].pc == Blocked && s.writers[i].woken
    ensures Reaches(c, s') && s' == With(s, i, Queued(s, s.writers[i]).(pc := Loop, queued := false), FREE, false)
  {
    var v := Queued(s, s.writers[i]).(queued := false);
    LeaveWait(c, s, i);
    hide Reaches, NextIdx, RingFull, Queued, With;
    LowersFlag(c, s, i, v.(pc := Retake));
    Turn(c, s, i, v.(pc := DropLock2), i, false, v.(pc := Loop));
    s' := With(s, i, v.(pc := Loop), FREE, false);
  }

  /** A step of the reader that moves no byte and wakes nobody. */
  lemma ReaderMoves(c: Setting, s: Sys, r: Reader) returns (s': Sys)
    requires Reaches(c, s) && Enabled(s, ReadStep) && !Wakes(s.reader) && r == NextReader(s)
    requires !s.reader.ReadAdvance? && !s.reader.MapAdvance?
    ensures Reaches(c, s') && s' == s.(reader := r, kick := s'.kick, laps := s'.laps)
    ensures s.reader != MapFlag && s.reader != MapKick ==> s'.kick == s.kick
    ensures s.reader == MapFlag && (!s.flag || s.kick == 0) ==> s'.kick == s.kick
  {
    hide Reaches, NextReader, Residue;
    s' := Go(c, s, ReadStep);
  }

  /** A step of the reader that takes byte b. */
  lemma ReaderTakes(c: Setting, s: Sys, r: Reader, b: byte) returns (s': Sys)
    requires Reaches(c, s) && Enabled(s, ReadStep) && r == NextReader(s)
    requires (s.reader.ReadAdvance? || s.reader.MapAdvance?) && s.reader.b == b
    ensures Reaches(c, s') && s' == s.(rd := s'.rd, consumed := s.consumed + [b], debt := true, reader := r)
  {
    hide Reaches, NextReader, Residue, NextIdx;
    s' := Go(c, s, ReadStep);
  }

  /** A new dev_write call. */
  lemma Join(c: Setting, s: Sys, data: seq<byte>) returns (s': Sys)
    requires Reaches(c, s) && data != []
    ensures Reaches(c, s') && s' == s.(writers := s.writers + [Writer(Stream, data, 0, Loop, false, false, 0, 0)])
  {
    Facts(c, s);
    hide Reaches;
    s' := Go(c, s, Call(Stream, data));
  }

  /** The first writer fills the empty ring and has one byte left. */
  lemma FillUp(c: Setting) returns (s: Sys)
    requires 2 <= c.n && 0 < c.modulo
    ensures Reaches(c, s) && |s.writers| == 1 && s.lock == FREE && s.reader == Away
    ensures var w := s.writers[0];
            w.kind == Stream && |w.data| == c.n && w.pos == c.n - 1 && w.pc == Loop && !w.queued
    ensures In(s) == c.n - 1 && Out(s) == 0 && !s.debt && !s.leak && s.kick == 0
  {
    Begin(c);
    hide Reaches, NextIdx;
    s := Join(c, Start(c.n, c.modulo), seq(c.n, _ => 1));
    s := Fill(c, s, 0);
  }

  /** And falls asleep. */
  lemma FillAndSleep(c: Setting) returns (s: Sys)
    requires 2 <= c.n && 0 < c.modulo
    ensures Reaches(c, s) && |s.writers| == 1 && s.lock == FREE && s.flag && s.reader == Away
    ensures var w := s.writers[0];
            w.kind == Stream && |w.data| == c.n && w.pos == c.n - 1 && w.pc == Blocked && w.queued && !w.woken
    ensures In(s) == c.n - 1 && Out(s) == 0 && !s.debt && !s.leak && s.kick == 0
  {
    s := FillUp(c);
    hide Reaches, NextIdx;
    s := FallAsleep(c, s, 0);
  }
}
