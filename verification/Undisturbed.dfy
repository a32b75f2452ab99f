/** The interleaved model and the loops of the client agree: a skip-ahead pass of the model
    that no producer disturbs delivers what the pass means on the unchanging pool. */
module Undisturbed {
  import opened Words
  import opened SlotRing
  import opened Drain
  import opened BlockSystem
  import BlockRuns
  import Recovery
  import SlotClient

  /** The slots that a list of deliveries shows. */
  function Shown(out: seq<Delivery>): (r: seq<Slot>)
    ensures |r| == |out|
  {
    seq(|out|, i requires 0 <= i < |out| => Slot(out[i].fields, out[i].ticket))
  }

  /** Where a pass with hint h that began at ticket e stands at ticket c (and, while it scans
      ahead, at ticket sc). */
  ghost predicate OnCourse(before: seq<Delivery>, s: Sys, e: int, h: u32, c: int, sc: int) {
    Shaped(s.ring) &&
    var slots, z := s.ring.slots, Horizon(e, h);
    && e <= c <= Max(e, z) && s.expected == Wrap(c)
    && Shown(s.out) == Shown(before) + Records(slots, Live(slots, e, c))
    && match s.phase
       case Top(h') =>
         h' == h && Dist(h, s.expected) == z - 1 - c && (c == After(slots, e, c) || (c < z && Holds(slots, c)))
       case Reading(h', _, _, got) =>
         && h' == h && c < z && Dist(h, s.expected) == z - 1 - c && Holds(slots, c)
         && forall j: nat :: j in got ==> j <= s.ring.width && got[j] == Cell(At(slots, c), j)
       case Scanning(h', scan) =>
         && h' == h && c < sc <= z && scan == Wrap(sc) && Dist(h, scan) == z - 1 - sc
         && c == After(slots, e, c) && forall t :: c <= t < sc ==> !Holds(slots, t)
       case Publishing => c == After(slots, e, c) && Live(slots, e, Max(e, z)) == Live(slots, e, c)
       case _ => false
  }

  lemma BeginsOnCourse(s: Sys, e: int)
    requires BlockSystem.Enabled(s, BeginSkip) && s.expected == Wrap(e)
    ensures OnCourse(s.out, BlockSystem.Apply(s, BeginSkip), e, s.ring.wr, e, e)
  {
    assert Live(s.ring.slots, e, e) == [];
  }

  lemma LookOnCourse(before: seq<Delivery>, s: Sys, e: int, h: u32, c: int, sc: int)
    requires OnCourse(before, s, e, h, c, sc) && BlockSystem.Enabled(s, LookTop)
    ensures OnCourse(before, BlockSystem.Apply(s, LookTop), e, h, c, c + 1)
  {
    if Dist(h, s.expected) >= 0 {
      DistStep(h, s.expected);
      SuccIsNext(c);
      assert s.ring.slots[Expects(s)] == At(s.ring.slots, c);
    }
    hide Dist, Wrap, Residue;
  }

  lemma ReadOnCourse(before: seq<Delivery>, s: Sys, e: int, h: u32, c: int, sc: int, j: nat)
    requires OnCourse(before, s, e, h, c, sc) && BlockSystem.Enabled(s, ReadCell(j))
    ensures OnCourse(before, BlockSystem.Apply(s, ReadCell(j)), e, h, c, sc)
  {
    assert s.ring.slots[Expects(s)] == At(s.ring.slots, c);
    hide Dist, Wrap, Residue;
  }

  lemma DeliverOnCourse(before: seq<Delivery>, s: Sys, e: int, h: u32, c: int, sc: int)
    requires OnCourse(before, s, e, h, c, sc) && BlockSystem.Enabled(s, DeliverRead)
    ensures OnCourse(before, BlockSystem.Apply(s, DeliverRead), e, h, c + 1, sc)
  {
    var s', slots := BlockSystem.Apply(s, DeliverRead), s.ring.slots;
    DistStep(h, s.expected);
    SuccIsNext(c);
    LiveAppend(slots, e, c);
    hide Dist, Wrap, Residue, Holds;
    var d := s'.out[|s.out|];
    assert d.fields == At(slots, c).fields && d.ticket == At(slots, c).ticket;
    assert Shown(s'.out) == Shown(s.out) + [At(slots, c)];
    assert Records(slots, Live(slots, e, c) + [c]) == Records(slots, Live(slots, e, c)) + [At(slots, c)];
  }

  lemma ScanOnCourse(before: seq<Delivery>, s: Sys, e: int, h: u32, c: int, sc: int)
    requires OnCourse(before, s, e, h, c, sc) && BlockSystem.Enabled(s, LookScan)
    ensures var s' := BlockSystem.Apply(s, LookScan);
            if s'.phase.Top? then OnCourse(before, s', e, h, sc, sc) else OnCourse(before, s', e, h, c, sc + 1)
  {
    var slots := s.ring.slots;
    NoneLive(slots, c, sc);
    LiveSplit(slots, e, c, sc);
    if Dist(h, s.phase.scan) >= 0 {
      DistStep(h, s.phase.scan);
      SuccIsNext(sc);
      assert slots[Residue(s.phase.scan, |slots|)] == At(slots, sc);
    }
    hide Dist, Wrap, Residue;
  }

  /** Where the pass stands after a step of the consumer. */
  ghost function Stand(s: Sys, a: Act, c: int, sc: int): (int, int)
    requires BlockSystem.Enabled(s, a)
  {
    match a
    case LookTop => (c, c + 1)
    case DeliverRead => (c + 1, sc)
    case LookScan => if BlockSystem.Apply(s, a).phase.Top? then (sc, sc) else (c, sc + 1)
    case _ => (c, sc)
  }

  /** Every step of the consumer keeps the pass on course. */
  lemma StaysOnCourse(before: seq<Delivery>, s: Sys, a: Act, e: int, h: u32, c: int, sc: int)
    requires OnCourse(before, s, e, h, c, sc) && BlockSystem.Enabled(s, a) && !a.Produce? && !a.StoreRdIdx?
    ensures var p := Stand(s, a, c, sc);
            OnCourse(before, BlockSystem.Apply(s, a), e, h, p.0, p.1) && BlockSystem.Apply(s, a).ring == s.ring
  {
    match a
    case LookTop => LookOnCourse(before, s, e, h, c, sc);
    case ReadCell(j) => ReadOnCourse(before, s, e, h, c, sc, j);
    case DeliverRead => DeliverOnCourse(before, s, e, h, c, sc);
    case LookScan => ScanOnCourse(before, s, e, h, c, sc);
    case _ => assert false;
  }

  /** A pass from its first look to the point where it publishes, with only consumer steps
      in between. */
  ghost predicate Pass(tr: seq<Sys>, acts: seq<Act>) {
    && |tr| == |acts| + 1 && |acts| > 0 && acts[0].BeginSkip?
    && (forall n :: 0 <= n < |acts| ==>
          BlockSystem.Enabled(tr[n], acts[n]) && tr[n + 1] == BlockSystem.Apply(tr[n], acts[n]))
    && (forall n :: 0 <= n < |acts| ==> !acts[n].Produce? && !acts[n].StoreRdIdx?)
  }

  lemma {:induction false} PassOnCourse(tr: seq<Sys>, acts: seq<Act>, e: int, n: nat) returns (c: int, sc: int)
    requires Pass(tr, acts) && tr[0].expected == Wrap(e) && 1 <= n < |tr|
    ensures OnCourse(tr[0].out, tr[n], e, tr[0].ring.wr, c, sc) && tr[n].ring == tr[0].ring
  {
    hide OnCourse, BlockSystem.Enabled;
    if n == 1 {
      BeginsOnCourse(tr[0], e);
      c, sc := e, e;
    } else {
      c, sc := PassOnCourse(tr, acts, e, n - 1);
      StaysOnCourse(tr[0].out, tr[n - 1], acts[n - 1], e, tr[0].ring.wr, c, sc);
      var p := Stand(tr[n - 1], acts[n - 1], c, sc);
      c, sc := p.0, p.1;
    }
  }

  /** When the undisturbed pass comes to publish, it has delivered the slots of exactly the
      live tickets up to the hint and stands one past the last of them. */
  lemma UndisturbedPass(tr: seq<Sys>, acts: seq<Act>, e: int)
    requires Pass(tr, acts) && tr[0].expected == Wrap(e) && tr[|acts|].phase == Publishing
    ensures 0 < |tr[0].ring.slots|
    ensures var slots, h := tr[0].ring.slots, tr[0].ring.wr;
            && Shown(tr[|acts|].out) == Shown(tr[0].out) + Records(slots, SkipTickets(slots, e, h))
            && tr[|acts|].expected == Wrap(SkipNext(slots, e, h))
            && StopsAfter(SkipTickets(slots, e, h), e, SkipNext(slots, e, h))
  {
    var c, sc := PassOnCourse(tr, acts, e, |acts|);
    var slots, z := tr[0].ring.slots, Horizon(e, tr[0].ring.wr);
    assert Shaped(tr[0].ring);
    if z < e {
      assert Live(slots, e, z) == [] && Live(slots, e, e) == [];
    }
    hide Dist, Wrap, Residue;
  }

  /** The slots that tickets a, ..., b - 1 should show, each with its own metric and stamp. */
  function Written(log: seq<Metric>, a: nat, b: nat): (r: seq<Slot>)
    requires b <= |log|
    ensures |r| == if a <= b then b - a else 0
  {
    if a <= b then seq(b - a, i requires 0 <= i < b - a => Slot(log[a + i], Wrap(a + i))) else []
  }

  lemma PassSlice(tr: seq<Sys>, acts: seq<Act>, a: nat, b: nat)
    requires a < b <= |acts| && |tr| == |acts| + 1
    requires forall n :: 0 <= n < |acts| ==>
               BlockSystem.Enabled(tr[n], acts[n]) && tr[n + 1] == BlockSystem.Apply(tr[n], acts[n])
    requires acts[a].BeginSkip? && forall n :: a <= n < b ==> !acts[n].Produce? && !acts[n].StoreRdIdx?
    ensures Pass(tr[a..b + 1], acts[a..b])
  {
    hide BlockSystem.Enabled, BlockSystem.Apply;
    var tr', acts' := tr[a..b + 1], acts[a..b];
    forall n | 0 <= n < |acts'|
      ensures BlockSystem.Enabled(tr'[n], acts'[n]) && tr'[n + 1] == BlockSystem.Apply(tr'[n], acts'[n])
      ensures !acts'[n].Produce? && !acts'[n].StoreRdIdx?
    {
      assert acts'[n] == acts[a + n] && tr'[n] == tr[a + n] && tr'[n + 1] == tr[a + n + 1];
    }
  }

  /** Recovery over whole runs: in a lap-free run that is quiet at moment a with n >= 1
      tickets issued, a skip-ahead pass from there that nobody disturbs, started at any
      position e <= n, delivers exactly the last min(k, n - e) tickets, each with the metric
      of its producer, and publishes rd_idx = n = wr_idx. */
  lemma RecoveryInRuns(tr: seq<Sys>, acts: seq<Act>, k: nat, width: nat, a: nat, b: nat, e: nat)
    requires BlockRuns.LapFreeRun(tr, acts, k, width) && a < b < |acts|
    requires acts[a].BeginSkip? && acts[b] == StoreRdIdx
    requires forall n :: a <= n < b ==> !acts[n].Produce? && !acts[n].StoreRdIdx?
    requires tr[a].ring.busy == map[] && 1 <= |tr[a].ring.log| && (WholeLaps(k) || |tr[a].ring.log| < TWO32)
    requires tr[a].expected == Wrap(e) && e <= |tr[a].ring.log| && |tr[a].ring.log| - e < TWO31
    ensures var r, n := tr[a].ring, |tr[a].ring.log|;
            && tr[b + 1].ring == r && tr[b + 1].rd == r.wr == Wrap(n)
            && Shown(tr[b + 1].out) == Shown(tr[a].out) + Written(r.log, Max(e, n - k), n)
  {
    var r, n := tr[a].ring, |tr[a].ring.log|;
    BlockRuns.RunIntact(tr, acts, k, width, a);
    BlockRuns.Geometry(tr, acts, k, width, a);
    StoreEffect(tr[b]);
    PassSlice(tr, acts, a, b);
    assert tr[b + 1] == BlockSystem.Apply(tr[b], acts[b]);
    hide BlockRuns.LapFreeRun, BlockSystem.Apply, BlockSystem.Enabled, Pass, LapFreeInv, PhaseIntact, Wrap, At;
    hide SkipTickets, SkipNext, Written, Shown, Records, Range;
    PassDelivers(tr[a..b + 1], acts[a..b], e);
    WriteIndexCounts(r);
    Recovery.RecoveryAfterOverrun(r, e);
    RecordsWritten(r, Recovery.Oldest(r, e));
  }

  lemma StoreEffect(s: Sys)
    requires BlockSystem.Enabled(s, StoreRdIdx)
    ensures s.phase == Publishing && BlockSystem.Apply(s, StoreRdIdx) == s.(rd := s.expected, phase := Idle)
  {
  }

  /** UndisturbedPass, and the ring is as it was. */
  lemma PassDelivers(tr: seq<Sys>, acts: seq<Act>, e: int)
    requires Pass(tr, acts) && tr[0].expected == Wrap(e) && tr[|acts|].phase == Publishing
    ensures 0 < |tr[0].ring.slots| && tr[|acts|].ring == tr[0].ring
    ensures var slots, h := tr[0].ring.slots, tr[0].ring.wr;
            && Shown(tr[|acts|].out) == Shown(tr[0].out) + Records(slots, SkipTickets(slots, e, h))
            && tr[|acts|].expected == Wrap(SkipNext(slots, e, h))
  {
    UndisturbedPass(tr, acts, e);
    var c, sc := PassOnCourse(tr, acts, e, |acts|);
  }

  lemma RecordsWritten(r: Ring, m: nat)
    requires 0 < |r.slots| && m <= |r.log|
    requires forall t: int :: m <= t < |r.log| ==> At(r.slots, t) == Slot(r.log[t], Wrap(t))
    ensures Records(r.slots, Range(m, |r.log|)) == Written(r.log, m, |r.log|)
  {
    hide At, Wrap;
  }

  // ---------- the producer ----------

  /** The fields `was` after the fields in `done` of metric m were stored. */
  ghost function Mixed(m: Metric, was: Metric, done: set<nat>): (r: Metric)
    requires |m| == |was|
    ensures |r| == |m|
  {
    seq(|m|, j requires 0 <= j < |m| => if j in done then m[j] else was[j])
  }

  /** The ring after a producer reserved its ticket and stored the fields in `done` of m. */
  ghost function Stored(r: Ring, m: Metric, done: set<nat>): Ring
    requires 0 < |r.slots| && |r.slots[Residue(r.wr, |r.slots|)].fields| == |m|
  {
    var i := Residue(r.wr, |r.slots|);
    r.(wr := Succ(r.wr), log := r.log + [m],
       busy := r.busy[|r.log| := Producer(r.wr, m, done)],
       slots := r.slots[i := Slot(Mixed(m, r.slots[i].fields, done), r.slots[i].ticket)])
  }

  lemma ReserveIsFirst(r: Ring, m: Metric)
    requires SlotRing.Enabled(r, Reserve(m))
    ensures SlotRing.Apply(r, Reserve(m)) == Stored(r, m, {})
  {
    var i := Residue(r.wr, |r.slots|);
    assert Mixed(m, r.slots[i].fields, {}) == r.slots[i].fields;
    assert r.slots[i := r.slots[i]] == r.slots;
  }

  lemma StoreIsNext(r: Ring, m: Metric, done: set<nat>, j: nat)
    requires SlotRing.Enabled(r, Reserve(m)) && SlotRing.Enabled(Stored(r, m, done), Store(|r.log|, j))
    ensures j < |m| && j !in done
    ensures SlotRing.Apply(Stored(r, m, done), Store(|r.log|, j)) == Stored(r, m, done + {j})
  {
    hide Residue;
    var s, i := Stored(r, m, done), Residue(r.wr, |r.slots|);
    assert s.slots[i].fields[j := m[j]] == Mixed(m, r.slots[i].fields, done + {j});
    assert SlotRing.Apply(s, Store(|r.log|, j)).slots == Stored(r, m, done + {j}).slots;
    assert SlotRing.Apply(s, Store(|r.log|, j)).busy == Stored(r, m, done + {j}).busy;
  }

  lemma StampIsLast(r: Ring, m: Metric, done: set<nat>)
    requires SlotRing.Enabled(r, Reserve(m)) && |r.log| !in r.busy
    requires SlotRing.Enabled(Stored(r, m, done), Stamp(|r.log|))
    ensures SlotRing.Apply(Stored(r, m, done), Stamp(|r.log|)) == Committed(r, m)
  {
    hide Residue;
    var s, i := Stored(r, m, done), Residue(r.wr, |r.slots|);
    assert Mixed(m, r.slots[i].fields, done) == m;
    assert SlotRing.Apply(s, Stamp(|r.log|)).slots == Committed(r, m).slots;
    assert SlotRing.Apply(s, Stamp(|r.log|)).busy == r.busy;
  }

  /** The ring as one call of SlotLane.CommitMetric leaves it: the next ticket is drawn, its
      slot holds the metric and the ticket, and nothing else changed. */
  function Committed(r: Ring, m: Metric): Ring
    requires 0 < |r.slots|
  {
    r.(wr := Succ(r.wr), log := r.log + [m], slots := r.slots[Residue(r.wr, |r.slots|) := Slot(m, r.wr)])
  }

  /** Steps of one producer only, up to its stamp: it reserves, and then stores its fields in
      whatever order. */
  ghost predicate CommitSteps(tr: seq<Ring>, acts: seq<Step>, m: Metric) {
    && |tr| == |acts| + 1 && |acts| > 0 && acts[0] == Reserve(m)
    && (forall n :: 0 <= n < |acts| ==> SlotRing.Enabled(tr[n], acts[n]) && tr[n + 1] == SlotRing.Apply(tr[n], acts[n]))
    && (forall n :: 0 < n < |acts| ==> acts[n].Store? && acts[n].t == |tr[0].log|)
  }

  lemma {:induction false} CommitUnderWay(tr: seq<Ring>, acts: seq<Step>, m: Metric, n: nat) returns (done: set<nat>)
    requires CommitSteps(tr, acts, m) && 1 <= n < |tr|
    ensures SlotRing.Enabled(tr[0], Reserve(m)) && tr[n] == Stored(tr[0], m, done)
    ensures |done| == n - 1 && forall j :: j in done ==> j < |m|
  {
    hide SlotRing.Enabled, SlotRing.Apply, Stored;
    if n == 1 {
      ReserveIsFirst(tr[0], m);
      done := {};
    } else {
      var was := CommitUnderWay(tr, acts, m, n - 1);
      var j := acts[n - 1].j;
      StoreIsNext(tr[0], m, was, j);
      done := was + {j};
    }
  }

  /** An undisturbed producer commits: its reservation, then its stores in any order, then its
      stamp leave the ring exactly as the one-call commit does, after one store per field. */
  lemma UndisturbedCommit(tr: seq<Ring>, acts: seq<Step>, m: Metric)
    requires CommitSteps(tr, acts, m) && |tr[0].log| !in tr[0].busy
    requires SlotRing.Enabled(tr[|acts|], Stamp(|tr[0].log|))
    ensures 0 < |tr[0].slots| && SlotRing.Apply(tr[|acts|], Stamp(|tr[0].log|)) == Committed(tr[0], m)
    ensures |acts| == 1 + |m|
  {
    var done := CommitUnderWay(tr, acts, m, |acts|);
    StampIsLast(tr[0], m, done);
    StoresAll(tr[0], m, done);
  }

  lemma StoresAll(r: Ring, m: Metric, done: set<nat>)
    requires SlotRing.Enabled(r, Reserve(m)) && SlotRing.Enabled(Stored(r, m, done), Stamp(|r.log|))
    requires forall j :: j in done ==> j < |m|
    ensures |done| == |m|
  {
    assert done == SlotClient.Indices(|m|);
  }

  /** And it can: at every point either some field is missing, and storing it is enabled, or
      the stamp is. */
  lemma CommitGoesOn(r: Ring, m: Metric, done: set<nat>)
    requires SlotRing.Enabled(r, Reserve(m))
    ensures var s := Stored(r, m, done);
            || SlotRing.Enabled(s, Stamp(|r.log|))
            || exists j: nat :: j < |m| && j !in done && SlotRing.Enabled(s, Store(|r.log|, j))
  {
    hide Residue;
    var s := Stored(r, m, done);
    assert Shaped(s);
    if !SlotRing.Enabled(s, Stamp(|r.log|)) {
      var j: nat :| j < s.width && j !in done;
      assert SlotRing.Enabled(s, Store(|r.log|, j));
    }
  }
}
