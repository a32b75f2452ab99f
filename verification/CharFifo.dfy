/** The char ring is a first-in first-out queue for every interleaving of its writers and
    its reader. */
module CharFifo {
  import opened Words
  import opened CharSystem

  function In(s: Sys): nat { |s.produced| }

  function Out(s: Sys): nat { |s.consumed| }

  ghost predicate WriterInv(s: Sys, w: Writer) {
    && Indexed(s)
    && w.pos <= |w.data|
    && (w.pc != Unlock && !w.pc.Done? ==> w.pos < |w.data|)
    && (w.pc == Copy || w.pc == Advance ==> In(s) + 1 < Out(s) + Cells(s))
    && (w.pc == Advance ==> w.pos < |w.data| && s.buf[s.wr] == w.data[w.pos])
  }

  /** What the reader has loaded is still true: its read index is current, the write index
      it saw is one that the ring had, and the byte it holds is the next of the stream. */
  ghost predicate ReaderInv(s: Sys) {
    match s.reader
    case ReadCmp(len, _, w, p) => 0 < len && Out(s) <= p <= In(s) && 0 < Cells(s) && w == Residue(p, Cells(s))
    case ReadAdvance(len, _, b) => 0 < len && Out(s) < In(s) && b == s.produced[Out(s)]
    case MapWr(r) => r == s.rd
    case MapCmp(r, w, p) => r == s.rd && Out(s) <= p <= In(s) && 0 < Cells(s) && w == Residue(p, Cells(s))
    case MapAdvance(r, b) => r == s.rd && Out(s) < In(s) && b == s.produced[Out(s)]
    case _ => true
  }

  ghost predicate Locking(s: Sys) {
    && FREE <= s.lock < |s.writers|
    && forall i :: 0 <= i < |s.writers| ==> (HoldsLock(s.writers[i]) <==> s.lock == i)
  }

  /** The cells from rd_idx up to wr_idx are the bytes in but not out. */
  ghost predicate Queue(s: Sys) {
    && 2 <= Cells(s) && Indexed(s)
    && Out(s) <= In(s) < Out(s) + Cells(s)
    && s.consumed <= s.produced
    && s.rd == Residue(Out(s), Cells(s)) && s.wr == Residue(In(s), Cells(s))
    && forall k :: Out(s) <= k < In(s) ==> s.buf[Residue(k, Cells(s))] == s.produced[k]
  }

  ghost predicate Inv(s: Sys) {
    && Queue(s) && Locking(s) && ReaderInv(s) && 0 < s.modulo
    && forall i :: 0 <= i < |s.writers| ==> WriterInv(s, s.writers[i])
  }

  /** The full test compares true counts: one cell stays empty. */
  lemma FullMeans(s: Sys)
    requires Queue(s)
    ensures RingFull(s) <==> In(s) + 1 == Out(s) + Cells(s)
  {
    ResidueSucc(In(s), Cells(s));
    ResidueShift(Out(s), Cells(s));
    if In(s) + 1 != Out(s) + Cells(s) {
      ResidueInjective(In(s) + 1, Out(s), Cells(s));
    }
  }

  lemma IndexMeans(s: Sys, p: nat)
    requires Queue(s) && Out(s) <= p <= In(s)
    ensures Residue(p, Cells(s)) == s.rd <==> p == Out(s)
  {
    ResidueInjective(p, Out(s), Cells(s));
  }

  /** Steps that leave the indices, the cells and the streams alone. */
  ghost predicate SameQueue(s: Sys, s': Sys) {
    && s'.buf == s.buf && s'.rd == s.rd && s'.wr == s.wr && s'.modulo == s.modulo
    && s'.produced == s.produced && s'.consumed == s.consumed
  }

  lemma QueueSame(s: Sys, s': Sys)
    requires Queue(s) && SameQueue(s, s')
    ensures Queue(s')
    ensures forall w :: WriterInv(s, w) ==> WriterInv(s', w)
    ensures ReaderInv(s) && s'.reader == s.reader ==> ReaderInv(s')
  {
    hide Residue;
  }

  ghost predicate Quiet(s: Sys, i: nat) {
    i < |s.writers| && s.writers[i].pc != Copy && s.writers[i].pc != Advance
  }

  lemma QuietShape(s: Sys, i: nat)
    requires Enabled(s, Write(i)) && Quiet(s, i)
    ensures var s' := WriterStep(s, i);
            && SameQueue(s, s') && s'.reader == s.reader && |s'.writers| == |s.writers|
            && forall j :: 0 <= j < |s.writers| && j != i ==> s'.writers[j] == s.writers[j]
  {
    hide Residue, NextIdx, RingFull;
  }

  lemma QuietOwn(s: Sys, i: nat)
    requires Queue(s) && Enabled(s, Write(i)) && Quiet(s, i) && WriterInv(s, s.writers[i])
    ensures WriterInv(s, NextWriter(s, s.writers[i]))
  {
    FullMeans(s);
    hide Residue, NextIdx, RingFull, Queue;
  }

  /** A step keeps, takes or drops the lock as its program counter says. */
  lemma NextHoldsLock(s: Sys, w: Writer)
    requires Indexed(s) && WriterShaped(w)
    ensures HoldsLock(NextWriter(s, w)) <==> TakesLock(w) || (HoldsLock(w) && !DropsLock(w))
    ensures TakesLock(w) ==> !HoldsLock(w)
    ensures DropsLock(w) ==> HoldsLock(w)
  {
    hide Residue, NextIdx, RingFull;
  }

  lemma StepLocks(s: Sys, i: nat)
    requires Enabled(s, Write(i)) && Locking(s)
    ensures Locking(WriterStep(s, i))
  {
    NextHoldsLock(s, s.writers[i]);
    hide NextWriter, HoldsLock, TakesLock, DropsLock;
  }

  lemma QuietWriter(s: Sys, i: nat)
    requires Inv(s) && Enabled(s, Write(i)) && Quiet(s, i)
    ensures Inv(WriterStep(s, i))
  {
    var s' := WriterStep(s, i);
    QuietShape(s, i);
    QuietOwn(s, i);
    StepLocks(s, i);
    QueueSame(s, s');
    hide NextWriter, WriterInv, Queue, ReaderInv, Locking;
    forall j | 0 <= j < |s'.writers| ensures WriterInv(s', s'.writers[j]) {
      assert j != i ==> WriterInv(s, s.writers[j]);
    }
  }

  /** The cell at the write index is not part of the queue. */
  lemma CopyQueue(s: Sys, b: byte)
    requires Queue(s)
    ensures Queue(s.(buf := s.buf[s.wr := b]))
  {
    var s' := s.(buf := s.buf[s.wr := b]);
    forall k | Out(s) <= k < In(s) ensures s'.buf[Residue(k, Cells(s))] == s'.produced[k] {
      ResidueInjective(k, In(s), Cells(s));
    }
  }

  lemma CopyStep(s: Sys, i: nat)
    requires Inv(s) && Enabled(s, Write(i)) && s.writers[i].pc == Copy
    ensures Inv(WriterStep(s, i))
  {
    var s' := WriterStep(s, i);
    var w := s.writers[i];
    CopyQueue(s, w.data[w.pos]);
    hide Residue, NextIdx;
    assert WriterInv(s, w);
    forall j | 0 <= j < |s'.writers| ensures WriterInv(s', s'.writers[j]) {
      assert WriterInv(s, s.writers[j]);
      assert j != i ==> !HoldsLock(s.writers[j]);
    }
  }

  /** The write index moves over a cell that was filled before. */
  lemma StepOver(s: Sys, b: byte)
    requires Queue(s) && In(s) + 1 < Out(s) + Cells(s) && s.buf[s.wr] == b
    ensures Queue(s.(wr := NextIdx(s.wr, Cells(s)), produced := s.produced + [b]))
  {
    ResidueSucc(In(s), Cells(s));
    hide Residue;
    var s' := s.(wr := NextIdx(s.wr, Cells(s)), produced := s.produced + [b]);
    forall k | Out(s) <= k < In(s') ensures s'.buf[Residue(k, Cells(s))] == s'.produced[k] {
      assert k < In(s) ==> s.buf[Residue(k, Cells(s))] == s.produced[k];
    }
  }

  lemma AdvanceQueue(s: Sys, i: nat)
    requires Inv(s) && Enabled(s, Write(i)) && s.writers[i].pc == Advance
    ensures Queue(WriterStep(s, i))
  {
    var w := s.writers[i];
    assert WriterInv(s, w);
    StepOver(s, w.data[w.pos]);
    QueueSame(s.(wr := NextIdx(s.wr, Cells(s)), produced := s.produced + [w.data[w.pos]]), WriterStep(s, i));
  }

  lemma AdvanceStep(s: Sys, i: nat)
    requires Inv(s) && Enabled(s, Write(i)) && s.writers[i].pc == Advance
    ensures Inv(WriterStep(s, i))
  {
    var s', w := WriterStep(s, i), s.writers[i];
    AdvanceQueue(s, i);
    hide Residue, Queue;
    assert WriterInv(s, w);
    forall j | 0 <= j < |s'.writers| ensures WriterInv(s', s'.writers[j]) {
      assert WriterInv(s, s.writers[j]);
      assert j != i ==> !HoldsLock(s.writers[j]);
    }
  }

  /** Putting one byte in, copy and advance together. */
  lemma PutQueue(s: Sys, b: byte)
    requires Queue(s) && In(s) + 1 < Out(s) + Cells(s)
    ensures Queue(s.(buf := s.buf[s.wr := b], wr := NextIdx(s.wr, Cells(s)), produced := s.produced + [b]))
  {
    CopyQueue(s, b);
    StepOver(s.(buf := s.buf[s.wr := b]), b);
  }

  /** Taking the next byte out. */
  lemma TakeQueue(s: Sys, b: byte)
    requires Queue(s) && Out(s) < In(s) && b == s.produced[Out(s)]
    ensures Queue(s.(rd := NextIdx(s.rd, Cells(s)), consumed := s.consumed + [b]))
  {
    ResidueSucc(Out(s), Cells(s));
    hide Residue;
  }

  ghost predicate SameWriters(s: Sys, s': Sys) {
    |s'.writers| == |s.writers| && s'.lock == s.lock &&
    forall i :: 0 <= i < |s.writers| ==>
      s'.writers[i] == s.writers[i] || s'.writers[i] == s.writers[i].(woken := true)
  }

  /** Writers keep their invariant while the reader takes bytes out. */
  lemma WritersKeep(s: Sys, s': Sys)
    requires Inv(s) && SameWriters(s, s') && Queue(s')
    requires s'.buf == s.buf && s'.wr == s.wr && s'.produced == s.produced && Out(s) <= Out(s')
    ensures Locking(s') && forall i :: 0 <= i < |s'.writers| ==> WriterInv(s', s'.writers[i])
  {
    assert Indexed(s');
    hide Queue, ReaderInv;
    forall i | 0 <= i < |s'.writers| ensures WriterInv(s', s'.writers[i]) {
      assert WriterInv(s, s.writers[i]);
    }
  }

  lemma TakeKeepsQueue(s: Sys)
    requires Queue(s) && ReaderInv(s)
    ensures Queue(TakeByte(s))
  {
    match s.reader
    case ReadAdvance(_, _, b) => TakeQueue(s, b);
    case MapAdvance(_, b) => TakeQueue(s, b);
    case _ =>
  }

  lemma NextReaderInv(s: Sys)
    requires Queue(s) && ReaderInv(s) && Enabled(s, ReadStep)
    ensures ReaderInv(TakeByte(s).(reader := NextReader(s)))
  {
    match s.reader
    case ReadCmp(_, _, _, p) =>
      IndexMeans(s, p);
      if p != Out(s) {
        NextCell(s);
      }
      hide Residue, NextIdx;
    case MapCmp(_, _, p) =>
      IndexMeans(s, p);
      if p != Out(s) {
        NextCell(s);
      }
      hide Residue, NextIdx;
    case _ =>
      hide Residue, NextIdx;
  }

  /** The cell at the read index is the next byte of the stream, if there is one. */
  lemma NextCell(s: Sys)
    requires Queue(s) && Out(s) < In(s)
    ensures s.buf[s.rd] == s.produced[Out(s)]
  {
    hide Residue;
  }

  lemma ReaderInvSame(s: Sys, s': Sys)
    requires ReaderInv(s) && SameQueue(s, s') && s'.reader == s.reader
    ensures ReaderInv(s')
  {
    hide Residue;
  }

  lemma ReaderShape(s: Sys)
    requires Enabled(s, ReadStep)
    ensures var s' := ReaderStep(s);
            && SameWriters(s, s') && s'.buf == s.buf && s'.wr == s.wr && s'.modulo == s.modulo
            && s'.produced == s.produced && Out(s) <= Out(s')
            && SameQueue(TakeByte(s), s')
  {
    hide Residue, NextIdx, NextReader, NextKick;
  }

  lemma ReaderStepKeeps(s: Sys)
    requires Inv(s) && Enabled(s, ReadStep)
    ensures Inv(ReaderStep(s))
  {
    TakeKeepsQueue(s);
    NextReaderInv(s);
    ReaderShape(s);
    QueueSame(TakeByte(s), ReaderStep(s));
    ReaderInvSame(TakeByte(s).(reader := NextReader(s)), ReaderStep(s));
    hide ReaderStep, Residue, TakeByte, NextReader;
    WritersKeep(s, ReaderStep(s));
  }

  lemma StepInv(s: Sys, a: Act)
    requires Inv(s) && Enabled(s, a)
    ensures Inv(Apply(s, a))
  {
    match a
    case Write(i) =>
      if s.writers[i].pc == Copy {
        CopyStep(s, i);
      } else if s.writers[i].pc == Advance {
        AdvanceStep(s, i);
      } else {
        QuietWriter(s, i);
      }
    case ReadStep => ReaderStepKeeps(s);
    case _ => OtherStep(s, a);
  }

  /** Steps that move no byte and leave every writer where it is. */
  lemma StandStill(s: Sys, s': Sys)
    requires Inv(s) && SameQueue(s, s') && SameWriters(s, s') && ReaderInv(s')
    ensures Inv(s')
  {
    QueueSame(s, s');
    hide Queue, ReaderInv;
    WritersKeep(s, s');
  }

  lemma CallStep(s: Sys, kind: Kind, data: seq<byte>)
    requires Inv(s) && Enabled(s, Call(kind, data))
    ensures Inv(Apply(s, Call(kind, data)))
  {
    var s' := Apply(s, Call(kind, data));
    QueueSame(s, s');
    hide Queue, ReaderInv;
    if kind == Stream && data == [] {
      WritersKeep(s, s');
    } else {
      forall j | 0 <= j < |s'.writers| ensures WriterInv(s', s'.writers[j]) {
        assert j < |s.writers| ==> WriterInv(s, s.writers[j]);
      }
    }
  }

  /** One writer leaves the protocol, with or without the lock. */
  lemma WriterLeaves(s: Sys, s': Sys, i: nat)
    requires Inv(s) && Queue(s') && ReaderInv(s') && s'.modulo == s.modulo && i < |s.writers|
    requires |s'.buf| == |s.buf| && s'.wr == s.wr && s'.produced == s.produced && s'.consumed == s.consumed
    requires |s'.writers| == |s.writers| && s'.writers == s.writers[i := s'.writers[i]] && s'.writers[i].pc.Done?
    requires s'.writers[i].pos == s.writers[i].pos && s'.writers[i].data == s.writers[i].data
    requires s'.lock == if HoldsLock(s.writers[i]) then FREE else s.lock
    requires s'.buf == s.buf || HoldsLock(s.writers[i])
    ensures Inv(s')
  {
    assert Indexed(s');
    hide Queue, ReaderInv;
    forall j | 0 <= j < |s'.writers| ensures WriterInv(s', s'.writers[j]) {
      assert WriterInv(s, s.writers[j]);
      if j != i {
        assert s'.writers[j] == s.writers[j];
        assert HoldsLock(s.writers[i]) ==> !HoldsLock(s.writers[j]);
      }
    }
  }

  lemma OtherStep(s: Sys, a: Act)
    requires Inv(s) && Enabled(s, a) && !a.Write? && !a.ReadStep?
    ensures Inv(Apply(s, a))
  {
    var s' := Apply(s, a);
    match a
    case Call(kind, data) => CallStep(s, kind, data);
    case CopyFault(i) =>
      CopyQueue(s, 0);
      QueueSame(s.(buf := s.buf[s.wr := 0]), s');
      WriterLeaves(s, s', i);
    case Signal(i) =>
      QueueSame(s, s');
      WriterLeaves(s, s', i);
    case _ => StandStill(s, s');
  }

  lemma StartInv(n: nat, modulo: nat)
    requires 2 <= n && 0 < modulo
    ensures Inv(Start(n, modulo))
  {
    ResidueSmall(0, n);
  }
}
