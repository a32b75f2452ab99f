/** Neither the snapshot copy nor a read in place is atomic. A ticket published while the
    copy runs can be paired with an older payload, and a ticket lapped while it is copied or
    read with a newer one. Lap-free runs show it on rings of any size, the block ring included,
    so SnapshotIntegrity and PayloadIntegrity need their premises; Snapshot.WholeExactly says
    exactly when a delivery is whole. */
module TornSnapshot {
  import opened Words
  import opened SlotRing
  import opened BlockSystem
  import BlockRuns
  import SlotClient

  /** A state that some lap-free run comes to. */
  ghost predicate Reaches(k: nat, width: nat, s: Sys) {
    exists tr: seq<Sys>, acts: seq<Act> :: BlockRuns.LapFreeRun(tr, acts, k, width) && tr[|acts|] == s
  }

  lemma Begin(k: nat, width: nat)
    requires 0 < k < TWO32
    ensures Reaches(k, width, BlockSystem.Start(k, width))
  {
    var s0 := BlockSystem.Start(k, width);
    var none: seq<Act> := [];
    assert BlockRuns.LapFreeRun([s0], none, k, width) && [s0][|none|] == s0;
  }

  lemma Go(k: nat, width: nat, s: Sys, a: Act) returns (s': Sys)
    requires Reaches(k, width, s) && BlockSystem.Enabled(s, a) && |BlockSystem.Apply(s, a).ring.log| <= TWO32
    requires a.Produce? ==> LapFree(s.ring, a.s)
    ensures s' == BlockSystem.Apply(s, a) && Reaches(k, width, s')
  {
    s' := BlockSystem.Apply(s, a);
    hide BlockSystem.Enabled, BlockSystem.Apply, LapFree, WholeLaps;
    var tr: seq<Sys>, acts: seq<Act> :| BlockRuns.LapFreeRun(tr, acts, k, width) && tr[|acts|] == s;
    var tr', acts' := tr + [s'], acts + [a];
    forall m | 0 <= m < |acts'|
      ensures BlockSystem.Enabled(tr'[m], acts'[m]) && tr'[m + 1] == BlockSystem.Apply(tr'[m], acts'[m])
      ensures acts'[m].Produce? ==> LapFree(tr'[m].ring, acts'[m].s)
    {
      if m < |acts| {
        assert tr'[m] == tr[m] && tr'[m + 1] == tr[m + 1] && acts'[m] == acts[m];
      }
    }
    assert BlockRuns.LapFreeRun(tr', acts', k, width) && tr'[|acts'|] == s';
  }

  lemma Facts(k: nat, width: nat, s: Sys)
    requires Reaches(k, width, s)
    ensures LapFreeInv(s.ring) && |s.ring.slots| == k && s.ring.width == width
  {
    var tr: seq<Sys>, acts: seq<Act> :| BlockRuns.LapFreeRun(tr, acts, k, width) && tr[|acts|] == s;
    BlockRuns.RunIntact(tr, acts, k, width, |acts|);
    BlockRuns.Geometry(tr, acts, k, width, |acts|);
  }

  /** The places of a snapshot. */
  ghost function Places(k: nat, width: nat): set<(nat, nat)> {
    set i: nat, j: nat | i in SlotClient.Indices(k) && j in SlotClient.Indices(width + 1) :: (i, j)
  }

  /** The copy takes every word it has not taken yet. */
  lemma {:induction false} CopyRest(k: nat, width: nat, s: Sys) returns (s': Sys)
    requires Reaches(k, width, s) && s.phase.Copying? && |s.ring.log| <= TWO32
    requires |s.ring.slots| == k && s.ring.width == width
    ensures Reaches(k, width, s') && s'.phase.Copying? && s' == s.(phase := s'.phase)
    ensures s'.phase.n0 == s.phase.n0 && s'.phase.busy0 == s.phase.busy0
    ensures forall c :: c in Places(k, width) ==> c in s'.phase.cells
    ensures forall c :: c in s.phase.cells ==> c in s'.phase.cells && s'.phase.cells[c] == s.phase.cells[c]
    ensures forall i: nat, j: nat :: i < k && j <= width && (i, j) !in s.phase.cells ==>
              && Shaped(s.ring) && (i, j) in s'.phase.cells && s'.phase.cells[(i, j)] == Cell(s.ring.slots[i], j)
    decreases Places(k, width) - s.phase.cells.Keys
  {
    Facts(k, width, s);
    hide Reaches;
    s' := s;
    if c :| c in Places(k, width) && c !in s.phase.cells {
      var s1 := Go(k, width, s, CopyCell(c.0, c.1));
      assert c in Places(k, width) - s.phase.cells.Keys && c in s1.phase.cells.Keys;
      s' := CopyRest(k, width, s1);
    } else {
      AllPlaces(k, width, s.phase.cells);
    }
  }

  /** Producer t stores every field it has not stored yet. */
  lemma {:induction false} StoreRest(k: nat, width: nat, s: Sys, t: nat) returns (s': Sys)
    requires Reaches(k, width, s) && t in s.ring.busy && |s.ring.log| <= TWO32 && s.ring.width == width
    ensures Reaches(k, width, s') && s' == s.(ring := s'.ring)
    ensures s'.ring.log == s.ring.log && s'.ring.busy.Keys == s.ring.busy.Keys && s'.ring.width == width
    ensures forall j: nat :: j < width ==> j in s'.ring.busy[t].stored
    decreases SlotClient.Indices(width) - s.ring.busy[t].stored
  {
    Facts(k, width, s);
    hide Reaches, Settled;
    s' := s;
    if j :| j in SlotClient.Indices(width) && j !in s.ring.busy[t].stored {
      var s1 := Go(k, width, s, Produce(Store(t, j)));
      assert s1.ring.busy.Keys == s.ring.busy.Keys;
      assert j in SlotClient.Indices(width) - s.ring.busy[t].stored;
      s' := StoreRest(k, width, s1, t);
    }
  }

  function Ones(width: nat): Metric {
    seq(width, _ => 1)
  }

  /** The copy takes the first field of slot 1 before anything was issued ... */
  lemma CopyEarly(k: nat, width: nat) returns (s: Sys)
    requires 2 <= k < TWO32 && 1 <= width
    ensures Reaches(k, width, s) && s == Sys(ZeroPage(k, width), 0, 0, Copying(0, {}, map[(1, 0) := 0]), [])
  {
    Begin(k, width);
    hide Reaches;
    s := BlockSystem.Start(k, width);
    s := Go(k, width, s, BeginCopy);
    assert s.phase == Copying(0, {}, map[]);
    s := Go(k, width, s, CopyCell(1, 0));
  }

  /** ... and then two tickets are drawn ... */
  lemma DrawTwo(k: nat, width: nat, s: Sys) returns (s': Sys)
    requires Reaches(k, width, s) && 2 <= k < TWO32 && s.ring == ZeroPage(k, width)
    ensures Reaches(k, width, s') && s' == s.(ring := s'.ring) && s'.ring.width == width
    ensures s'.ring.log == [Zeros(width), Ones(width)] && s'.ring.busy.Keys == {0, 1}
  {
    hide Reaches;
    var s1 := Go(k, width, s, Produce(Reserve(Zeros(width))));
    s' := Go(k, width, s1, Produce(Reserve(Ones(width))));
  }

  /** ... and the second is published. */
  lemma PublishDuringCopy(k: nat, width: nat) returns (s: Sys)
    requires 2 <= k < TWO32 && 1 <= width
    ensures Reaches(k, width, s) && s.phase == Copying(0, {}, map[(1, 0) := 0])
    ensures s.ring.log == [Zeros(width), Ones(width)] && s.ring.busy.Keys == {0}
    ensures s.rd == s.expected == 0 && s.out == []
  {
    var s0 := CopyEarly(k, width);
    hide Reaches, ZeroPage;
    var s1 := DrawTwo(k, width, s0);
    var s2 := StoreRest(k, width, s1, 1);
    Facts(k, width, s2);
    hide LapFreeInv;
    s := Go(k, width, s2, Produce(Stamp(1)));
    assert s.ring.busy.Keys == {0};
  }

  /** What the slots show then. */
  lemma SlotsThen(k: nat, r: Ring, width: nat)
    requires LapFreeInv(r) && 2 <= k == |r.slots| && r.width == width
    requires r.log == [Zeros(width), Ones(width)] && r.busy.Keys == {0}
    ensures r.slots[0].ticket == 0 && r.slots[1] == Slot(Ones(width), 1)
    ensures Residue(0, k) == 0 && Residue(1, k) == 1
  {
    ResidueSmall(0, k);
    ResidueSmall(1, k);
    hide Residue;
    assert Settled(r, 0);
    assert Published(r, 1);
    PublishedSlot(r, 1);
  }

  /** Draining the torn snapshot: ticket 0 by its zeroed stamp, then ticket 1. */
  lemma DrainBoth(k: nat, width: nat, s: Sys) returns (s': Sys)
    requires Reaches(k, width, s) && 2 <= k == |s.ring.slots| && 1 <= width == s.ring.width && |s.ring.log| <= TWO32
    requires Shaped(s.ring) && s.phase.Draining? && s.expected == 0 && s.out == []
    requires forall i: nat, j: nat :: i < k && j <= width ==> (i, j) in s.phase.cells
    requires s.phase.cells[(0, width)] == 0 && s.phase.cells[(1, width)] == 1
    ensures Reaches(k, width, s') && s'.ring == s.ring && |s'.out| == 2
    ensures var d := s'.out[1];
            && d.expected == d.ticket == 1 && d.seen == s.phase.seen
            && |d.fields| == width && d.fields[0] == s.phase.cells[(1, 0)]
  {
    ResidueSmall(0, k);
    ResidueSmall(1, k);
    hide Reaches, Residue;
    var s1 := Go(k, width, s, DrainNext);
    assert s1.expected == 1 && s1.phase == s.phase && |s1.out| == 1;
    s' := Go(k, width, s1, DrainNext);
  }

  /** The copy goes on and now takes the new stamp of slot 1. */
  lemma CopyTorn(k: nat, width: nat, s: Sys) returns (s': Sys)
    requires Reaches(k, width, s) && 2 <= k == |s.ring.slots| && 1 <= width == s.ring.width && Shaped(s.ring)
    requires s.phase == Copying(0, {}, map[(1, 0) := 0]) && |s.ring.log| == 2
    requires s.ring.slots[0].ticket == 0 && s.ring.slots[1].ticket == 1
    ensures Reaches(k, width, s') && s' == s.(phase := s'.phase)
    ensures s'.phase.Draining? && s'.phase.seen == Window(0, {}, 2)
    ensures forall i: nat, j: nat :: i < k && j <= width ==> (i, j) in s'.phase.cells
    ensures s'.phase.cells[(0, width)] == 0 && s'.phase.cells[(1, width)] == 1 && s'.phase.cells[(1, 0)] == 0
  {
    hide Reaches;
    var s1 := CopyRest(k, width, s);
    AllPlaces(k, width, s1.phase.cells);
    hide Places;
    s' := Go(k, width, s1, EndCopy);
  }

  /** On every ring of two or more slots there is a lap-free run in which scatter-gather
      delivers ticket 1, published and not lapped, with a field that its producer never
      wrote. */
  lemma TornDelivery(k: nat, width: nat)
    requires 2 <= k < TWO32 && 1 <= width
    ensures exists s :: Reaches(k, width, s) && |s.out| == 2 && |s.ring.log| == 2 && Published(s.ring, 1)
                        && s.out[1].expected == s.out[1].ticket == 1 && s.out[1].seen.n1 == 2
                        && |s.out[1].fields| == |s.ring.log[1]| == width && s.out[1].fields[0] != s.ring.log[1][0]
  {
    var s := PublishDuringCopy(k, width);
    Facts(k, width, s);
    SlotsThen(k, s.ring, width);
    hide Reaches, LapFreeInv, Settled;
    var s2 := CopyTorn(k, width, s);
    var s3 := DrainBoth(k, width, s2);
    assert Published(s3.ring, 1);
  }

  lemma AllPlaces(k: nat, width: nat, cells: map<(nat, nat), u32>)
    requires forall c :: c in Places(k, width) ==> c in cells
    ensures forall i: nat, j: nat :: i < k && j <= width ==> (i, j) in cells
  {
    assert forall i: nat, j: nat :: i < k && j <= width ==> (i, j) in Places(k, width);
  }

  // ---------- lapped ----------

  /** The next ticket is drawn, and all its fields are stored. */
  lemma DrawAndStore(k: nat, width: nat, s: Sys, m: Metric) returns (s': Sys)
    requires Reaches(k, width, s) && s.ring.busy.Keys == {} && |s.ring.log| < TWO32 && |m| == width
    ensures Reaches(k, width, s') && s' == s.(ring := s'.ring)
    ensures s'.ring.log == s.ring.log + [m] && s'.ring.busy.Keys == {|s.ring.log|}
    ensures forall j: nat :: j < width ==> j in s'.ring.busy[|s.ring.log|].stored
  {
    Facts(k, width, s);
    hide Reaches, Settled;
    var s1 := Go(k, width, s, Produce(Reserve(m)));
    assert s1.ring.busy.Keys == {|s.ring.log|};
    s' := StoreRest(k, width, s1, |s.ring.log|);
  }

  /** Tickets are published one after the other until there are c of them. */
  lemma {:induction false} PublishMany(k: nat, width: nat, s: Sys, c: nat) returns (s': Sys)
    requires Reaches(k, width, s) && s.ring.busy.Keys == {} && |s.ring.log| <= c <= TWO32
    requires forall t :: 0 <= t < |s.ring.log| ==> s.ring.log[t] == Zeros(width)
    ensures Reaches(k, width, s') && s' == s.(ring := s'.ring) && s'.ring.busy.Keys == {} && |s'.ring.log| == c
    ensures forall t :: 0 <= t < c ==> s'.ring.log[t] == Zeros(width)
    decreases c - |s.ring.log|
  {
    hide Reaches;
    if |s.ring.log| == c {
      s' := s;
    } else {
      var s1 := DrawAndStore(k, width, s, Zeros(width));
      Facts(k, width, s1);
      hide Settled;
      var s2 := Go(k, width, s1, Produce(Stamp(|s.ring.log|)));
      assert s2.ring.busy.Keys == {};
      s' := PublishMany(k, width, s2, c);
    }
  }

  /** Every slot is published, the consumer at ticket 0. */
  lemma AllPublished(k: nat, width: nat) returns (s: Sys)
    requires 0 < k < TWO32
    ensures Reaches(k, width, s) && s.ring.busy.Keys == {} && |s.ring.log| == k && s.ring.log[0] == Zeros(width)
    ensures s.phase.Idle? && s.expected == 0 && s.out == []
    ensures |s.ring.slots| == k && s.ring.width == width && Residue(0, k) == 0 && s.ring.slots[0].ticket == 0
    ensures Shaped(s.ring) && s.ring.wr == Wrap(k)
  {
    Begin(k, width);
    hide Reaches;
    s := PublishMany(k, width, BlockSystem.Start(k, width), k);
    Facts(k, width, s);
    ResidueSmall(0, k);
    assert Published(s.ring, 0);
    PublishedSlot(s.ring, 0);
    WriteIndexCounts(s.ring);
  }

  /** Ticket k is in flight with all its fields stored: they stand in slot 0 beside the stamp
      of ticket 0. */
  lemma SlotLapped(k: nat, r: Ring, width: nat)
    requires LapFreeInv(r) && 0 < k == |r.slots| && 1 <= width == r.width
    requires |r.log| == k + 1 && r.log[k] == Ones(width) && r.busy.Keys == {k}
    requires forall j: nat :: j < width ==> j in r.busy[k].stored
    ensures r.slots[0].fields[0] == 1
  {
    ResidueOf(k, 1, 0, k);
    hide Residue;
    assert Settled(r, k);
  }

  /** A metric delivered for a ticket that was published when the copy or the read began, with
      a field that its producer never wrote. */
  ghost predicate TornZero(s: Sys, skip: bool) {
    && |s.out| == 1 && 0 < |s.ring.log| && Published(s.ring, 0)
    && var d := s.out[0];
       && d.skip == skip && d.expected == d.ticket == 0 && 0 < d.seen.n0 && 0 !in d.seen.busy0
       && 0 < |d.fields| == |s.ring.log[0]| && d.fields[0] != s.ring.log[0][0]
  }

  /** The copy takes the stamp of slot 0, then the slot is handed out again, and the copy takes
      the new fields. */
  lemma CopyLapped(k: nat, width: nat) returns (s: Sys)
    requires 0 < k < TWO32 && 1 <= width
    ensures Reaches(k, width, s) && s.phase == Copying(k, {}, map[(0, width) := 0])
    ensures s.expected == 0 && s.out == [] && |s.ring.slots| == k && s.ring.width == width && Shaped(s.ring)
    ensures |s.ring.log| == k + 1 && s.ring.log[0] == Zeros(width) && s.ring.busy.Keys == {k}
    ensures s.ring.slots[0].fields[0] == 1 && Residue(0, k) == 0
  {
    var s0 := AllPublished(k, width);
    hide Reaches, Residue;
    var s1 := Go(k, width, s0, BeginCopy);
    var s2 := Go(k, width, s1, CopyCell(0, width));
    s := DrawAndStore(k, width, s2, Ones(width));
    Facts(k, width, s);
    SlotLapped(k, s.ring, width);
  }

  /** On every ring there is a lap-free run in which scatter-gather delivers a ticket that was
      published before the copy began, and lapped before it ended, with a field of the next
      ticket of the slot. */
  lemma LappedSnapshot(k: nat, width: nat)
    requires 0 < k < TWO32 && 1 <= width
    ensures exists s :: Reaches(k, width, s) && TornZero(s, false)
  {
    var s0 := CopyLapped(k, width);
    hide Reaches, Residue;
    var s1 := CopyRest(k, width, s0);
    AllPlaces(k, width, s1.phase.cells);
    hide Places;
    var s2 := Go(k, width, s1, EndCopy);
    hide Reaches;
    DrainZero(k, width, s2);
    var s3 := Go(k, width, s2, DrainNext);
  }

  lemma DrainZero(k: nat, width: nat, s: Sys)
    requires 0 < k == |s.ring.slots| && 1 <= width == s.ring.width && Shaped(s.ring) && Residue(0, k) == 0
    requires s.phase.Draining? && s.expected == 0 && s.out == [] && s.phase.seen == Window(k, {}, k + 1)
    requires forall i: nat, j: nat :: i < k && j <= width ==> (i, j) in s.phase.cells
    requires s.phase.cells[(0, width)] == 0 && s.phase.cells[(0, 0)] == 1
    requires |s.ring.log| == k + 1 && s.ring.log[0] == Zeros(width) && s.ring.busy.Keys == {k}
    ensures BlockSystem.Enabled(s, DrainNext) && |BlockSystem.Apply(s, DrainNext).ring.log| <= k + 1
    ensures TornZero(BlockSystem.Apply(s, DrainNext), false)
  {
    hide Residue;
    var d := BlockSystem.Apply(s, DrainNext).out[0];
    assert d.fields[0] == 1;
  }

  /** The consumer reads every word it has not read yet. */
  lemma {:induction false} ReadRest(k: nat, width: nat, s: Sys) returns (s': Sys)
    requires Reaches(k, width, s) && s.phase.Reading? && |s.ring.log| <= TWO32
    requires |s.ring.slots| == k && s.ring.width == width
    ensures Reaches(k, width, s') && s'.phase.Reading? && s' == s.(phase := s.phase.(got := s'.phase.got))
    ensures forall j: nat :: j <= width ==> j in s'.phase.got
    ensures Shaped(s.ring) && forall j: nat :: j <= width && j !in s.phase.got ==>
              s'.phase.got[j] == Cell(s.ring.slots[Expects(s)], j)
    ensures forall j :: j in s.phase.got ==> j in s'.phase.got && s'.phase.got[j] == s.phase.got[j]
    decreases SlotClient.Indices(width + 1) - s.phase.got.Keys
  {
    Facts(k, width, s);
    hide Reaches;
    s' := s;
    if j: nat :| j in SlotClient.Indices(width + 1) && j !in s.phase.got {
      var s1 := Go(k, width, s, ReadCell(j));
      assert j in SlotClient.Indices(width + 1) - s.phase.got.Keys && j in s1.phase.got.Keys;
      s' := ReadRest(k, width, s1);
    }
  }

  /** Skip-ahead finds ticket 0 published and begins to read its slot. */
  lemma LookAtZero(k: nat, width: nat) returns (s: Sys)
    requires 0 < k < TWO31 && 1 <= width
    ensures Reaches(k, width, s) && s.phase == Reading(k, k, {}, map[]) && s.expected == 0 && s.out == []
    ensures |s.ring.log| == k && s.ring.log[0] == Zeros(width) && s.ring.busy.Keys == {}
    ensures |s.ring.slots| == k && s.ring.width == width && Residue(0, k) == 0
  {
    var s0 := AllPublished(k, width);
    DistIsTrueDistance(k, 0);
    hide Reaches, Residue, Dist;
    var s1 := Go(k, width, s0, BeginSkip);
    assert s1.phase.h == k;
    s := Go(k, width, s1, LookTop);
  }

  /** Skip-ahead reads in place, and the same can happen to it: it found ticket 0 published,
      the slot was handed out again, and it delivers a field of the next ticket. */
  lemma LappedRead(k: nat, width: nat)
    requires 0 < k < TWO31 && 1 <= width
    ensures exists s :: Reaches(k, width, s) && TornZero(s, true)
  {
    var s0 := LookAtZero(k, width);
    hide Reaches, Residue;
    var s1 := DrawAndStore(k, width, s0, Ones(width));
    Facts(k, width, s1);
    SlotLapped(k, s1.ring, width);
    StampStays(k, s1.ring);
    hide LapFreeInv;
    var s2 := ReadRest(k, width, s1);
    var s3 := Go(k, width, s2, DeliverRead);
    assert s3.out[0].fields[0] == 1;
  }

  /** The stamp of ticket 0 stays until that of ticket k. */
  lemma StampStays(k: nat, r: Ring)
    requires LapFreeInv(r) && 0 < k == |r.slots| && |r.log| == k + 1 && k in r.busy
    ensures r.slots[0].ticket == 0
  {
    ResidueOf(k, 1, 0, k);
    hide Residue;
    assert Settled(r, k);
  }
}
