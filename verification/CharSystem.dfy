/** The char tenant: one byte ring, many writers behind a spinlock that may sleep on the
    wait queue, and one lock-free reader that is either dev_read or the mmap consumer.
    One shared access per step. */
module CharSystem {
  import opened Words

  type byte = x: int | 0 <= x < 256

  /** dev_write takes a user buffer and waits for room; push_metric takes one frame and
      gives up when the ring is full. */
  datatype Kind = Stream | Metric

  datatype Pc =
    | Loop                        // before taking the lock
    | Locked                      // holds the lock, about to compare the indices
    | RaiseFlag                   // holds the lock, saw a full ring
    | DropLock                    // holds the lock, flag raised
    | TestWr                      // wait condition: about to load wr_idx
    | TestRd(w: nat, p: nat)      // about to load rd_idx; w was loaded when p bytes were in
    | Enqueue                     // about to prepare_to_wait
    | Blocked                     // schedule()
    | Retake                      // condition true, about to lock
    | LowerFlag                   // holds the lock
    | DropLock2                   // holds the lock
    | Copy                        // holds the lock, about to store the byte
    | Advance                     // holds the lock, about to store wr_idx
    | Unlock                      // holds the lock
    | Done(ok: bool)

  /** `queued` and `woken` are the writer's wait-queue entry. History: `c0` is how many bytes
      were consumed when it was queued last, `start` how many were in when it first got
      the lock. */
  datatype Writer = Writer(
    kind: Kind, data: seq<byte>, pos: nat, pc: Pc, queued: bool, woken: bool, c0: nat, start: nat)

  datatype Reader =
    | Away
    | ReadTop(len: nat, got: nat)            // dev_read, loop head
    | ReadCmp(len: nat, got: nat, w: nat, p: nat)
    | ReadAdvance(len: nat, got: nat, b: byte)
    | ReadEnd(got: nat)
    | MapTop                                  // zero_copy_consumer, loop head
    | MapWr(r: nat)
    | MapCmp(r: nat, w: nat, p: nat)
    | MapAdvance(r: nat, b: byte)
    | MapFlag                                 // consumed a byte
    | MapKick
    | MapNext                                 // after the kick
    | MapEmptyFlag                            // saw an empty ring
    | MapEmptyKick
    | MapIdle                                 // end of the empty branch

  /** History: the streams `produced` and `consumed`, `tags` (which writer produced each
      byte), `debt` (a byte was consumed since the queue was last woken), `leak` (a dev_read
      that had consumed bytes left through a fault since then), and `laps` (complete
      iterations of the mmap consumer). */
  datatype Sys = Sys(
    buf: seq<byte>, rd: nat, wr: nat, flag: bool, lock: int, writers: seq<Writer>,
    reader: Reader, kick: nat, modulo: nat,
    produced: seq<byte>, tags: seq<nat>, consumed: seq<byte>, debt: bool, leak: bool, laps: nat)

  datatype Act =
    | Call(kind: Kind, data: seq<byte>)
    | Write(i: nat)          // writer i takes its next step
    | CopyFault(i: nat)      // get_user fails
    | Signal(i: nat)         // wait interrupted
    | ReadCall(len: nat)
    | ReadStep
    | ReadFault              // put_user fails
    | MapBegin
    | MapLeave

  const FRAME: nat := 16
  const FREE: int := -1

  predicate HoldsLock(w: Writer) {
    w.pc in {Locked, RaiseFlag, DropLock, LowerFlag, DropLock2, Copy, Advance, Unlock}
  }

  predicate TakesLock(w: Writer) {
    w.pc == Loop || w.pc == Retake
  }

  predicate DropsLock(w: Writer) {
    w.pc == DropLock || w.pc == DropLock2 || w.pc == Unlock
  }

  function Cells(s: Sys): nat {
    |s.buf|
  }

  predicate Indexed(s: Sys) {
    s.rd < Cells(s) && s.wr < Cells(s)
  }

  function NextIdx(i: nat, n: nat): (r: nat)
    requires 0 < n
    ensures r < n
  {
    Residue(i + 1, n)
  }

  predicate RingFull(s: Sys)
    requires Indexed(s)
  {
    NextIdx(s.wr, Cells(s)) == s.rd
  }

  /** A writer about to store has a byte left, and a reader that saw data has room and a
      valid index. Both hold in every reachable state. */
  predicate WriterShaped(w: Writer) {
    w.pc == Copy || w.pc == Advance ==> w.pos < |w.data|
  }

  predicate ReaderShaped(s: Sys) {
    && 0 < s.modulo
    && (s.reader.ReadCmp? || s.reader.ReadAdvance? ==> 0 < s.reader.len)
    && (s.reader.MapCmp? ==> s.reader.r < Cells(s))
  }

  ghost predicate Enabled(s: Sys, a: Act) {
    Indexed(s) &&
    match a
    case Call(kind, data) => kind == Metric ==> |data| == FRAME
    case Write(i) =>
      && i < |s.writers|
      && var w := s.writers[i];
         && !w.pc.Done?
         && (TakesLock(w) ==> s.lock == FREE)
         && (w.pc == Blocked ==> w.woken)
         && WriterShaped(w)
    case CopyFault(i) => i < |s.writers| && s.writers[i].pc == Copy && s.writers[i].kind == Stream
    case Signal(i) => i < |s.writers| && s.writers[i].pc == Blocked
    case ReadCall(len) => s.reader == Away
    case ReadStep => s.reader != Away && ReaderShaped(s)
    case ReadFault => s.reader.ReadCmp? && s.rd != s.reader.w
    case MapBegin => s.reader == Away
    case MapLeave => s.reader == MapIdle
  }

  /** wake_up_interruptible on the wait queue. */
  function WakeAll(s: Sys): Sys {
    s.(writers := seq(|s.writers|, i requires 0 <= i < |s.writers| =>
                                     if s.writers[i].queued then s.writers[i].(woken := true) else s.writers[i]),
       debt := false, leak := false)
  }

  /** The loop of dev_write: done when every byte went in. */
  function AfterByte(w: Writer): Pc {
    if w.pos == |w.data| then Done(true) else if w.kind == Metric then Done(false) else Loop
  }

  /** Writer w after its step. */
  function NextWriter(s: Sys, w: Writer): Writer
    requires Indexed(s)
  {
    match w.pc
    case Loop => w.(pc := Locked, start := if w.pos == 0 then |s.produced| else w.start)
    case Locked => w.(pc := if !RingFull(s) then Copy else if w.kind == Stream then RaiseFlag else Unlock)
    case RaiseFlag => w.(pc := DropLock)
    case DropLock => w.(pc := TestWr)
    case TestWr => w.(pc := TestRd(s.wr, |s.produced|))
    case TestRd(x, _) =>
      if NextIdx(x, Cells(s)) != s.rd then w.(pc := Retake, queued := false)
      else w.(pc := if w.queued then Blocked else Enqueue)
    case Enqueue => w.(pc := TestWr, queued := true, woken := false, c0 := |s.consumed|)
    case Blocked => w.(pc := Enqueue)
    case Retake => w.(pc := LowerFlag)
    case LowerFlag => w.(pc := DropLock2)
    case DropLock2 => w.(pc := Loop)
    case Copy => w.(pc := Advance)
    case Advance =>
      w.(pos := w.pos + 1, pc := if w.kind == Metric && w.pos + 1 < |w.data| then Locked else Unlock)
    case Unlock => w.(pc := AfterByte(w))
    case Done(_) => w
  }

  /** A step of writer i: besides its own state it changes the lock, the asleep flag, the
      cell it copies to, or the write index it advances. */
  function WriterStep(s: Sys, i: nat): Sys
    requires Indexed(s) && i < |s.writers|
    requires WriterShaped(s.writers[i])
  {
    var w := s.writers[i];
    s.(writers := s.writers[i := NextWriter(s, w)],
       lock := if TakesLock(w) then i else if DropsLock(w) then FREE else s.lock,
       flag := if w.pc == RaiseFlag then true else if w.pc == LowerFlag then false else s.flag,
       buf := if w.pc == Copy then s.buf[s.wr := w.data[w.pos]] else s.buf,
       wr := if w.pc == Advance then NextIdx(s.wr, Cells(s)) else s.wr,
       produced := if w.pc == Advance then s.produced + [w.data[w.pos]] else s.produced,
       tags := if w.pc == Advance then s.tags + [i] else s.tags)
  }

  /** The reader after its step. */
  function NextReader(s: Sys): Reader
    requires Indexed(s) && ReaderShaped(s)
  {
    match s.reader
    case Away => Away
    case ReadTop(len, got) => if len == 0 then ReadEnd(got) else ReadCmp(len, got, s.wr, |s.produced|)
    case ReadCmp(len, got, w, _) => if s.rd == w then ReadEnd(got) else ReadAdvance(len, got, s.buf[s.rd])
    case ReadAdvance(len, got, _) => ReadTop(len - 1, got + 1)
    case ReadEnd(_) => Away
    case MapTop => MapWr(s.rd)
    case MapWr(r) => MapCmp(r, s.wr, |s.produced|)
    case MapCmp(r, w, _) => if r == w then MapEmptyFlag else MapAdvance(r, s.buf[r])
    case MapAdvance(_, _) => MapFlag
    case MapFlag => if s.flag && s.kick == 0 then MapKick else MapTop
    case MapKick => MapNext
    case MapNext => MapTop
    case MapEmptyFlag => if s.flag then MapEmptyKick else MapIdle
    case MapEmptyKick => MapIdle
    case MapIdle => MapTop
  }

  predicate Wakes(r: Reader) {
    (r.ReadEnd? && r.got > 0) || r == MapKick || r == MapEmptyKick
  }

  /** The throttle counter of the mmap consumer. */
  function NextKick(s: Sys): nat
    requires 0 < s.modulo
  {
    if s.reader == MapKick then 1
    else if s.reader == MapFlag && s.flag && s.kick != 0 then Residue(s.kick + 1, s.modulo)
    else s.kick
  }

  function TakeByte(s: Sys): Sys
    requires Indexed(s)
  {
    match s.reader
    case ReadAdvance(_, _, b) =>
      s.(rd := NextIdx(s.rd, Cells(s)), consumed := s.consumed + [b], debt := true)
    case MapAdvance(r, b) =>
      s.(rd := NextIdx(r, Cells(s)), consumed := s.consumed + [b], debt := true)
    case _ => s
  }

  /** A step of the reader: besides its own state it takes a byte out or wakes the queue. */
  function ReaderStep(s: Sys): Sys
    requires Indexed(s) && ReaderShaped(s)
  {
    var s1 := if Wakes(s.reader) then WakeAll(s) else TakeByte(s);
    s1.(reader := NextReader(s), kick := NextKick(s),
        laps := s.laps + if s.reader in {MapNext, MapIdle} || (s.reader == MapFlag && !(s.flag && s.kick == 0))
                         then 1 else 0)
  }

  ghost function Apply(s: Sys, a: Act): Sys
    requires Enabled(s, a)
  {
    match a
    case Call(kind, data) =>
      if kind == Stream && data == [] then WakeAll(s)
      else s.(writers := s.writers + [Writer(kind, data, 0, Loop, false, false, 0, 0)])
    case Write(i) => WriterStep(s, i)
    case CopyFault(i) =>
      var w := s.writers[i];
      s.(buf := s.buf[s.wr := 0], lock := FREE, writers := s.writers[i := w.(pc := Done(false))])
    case Signal(i) => s.(writers := s.writers[i := s.writers[i].(pc := Done(false), queued := false)])
    case ReadCall(len) => s.(reader := ReadTop(len, 0))
    case ReadStep => ReaderStep(s)
    case ReadFault => s.(leak := s.leak || s.reader.got > 0, reader := Away)
    case MapBegin => s.(reader := MapTop, kick := 0)
    case MapLeave => s.(reader := Away)
  }

  function Start(n: nat, modulo: nat): Sys {
    Sys(seq(n, _ => 0), 0, 0, false, FREE, [], Away, 0, modulo, [], [], [], false, false, 0)
  }
}
