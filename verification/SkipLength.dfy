/** A skip-ahead pass of the step model that no producer disturbs ends, after a bounded number
    of steps. */
module SkipLength {
  import opened Words
  import opened SlotRing
  import opened Drain
  import opened BlockSystem
  import opened Undisturbed
  import SlotClient

  /** d tickets, each at most w steps. */
  function Steps(d: int, w: int): int {
    if d <= 0 then 0 else d * w
  }

  lemma StepsLess(d: int, w: int)
    requires d > 0 && w >= 0
    ensures Steps(d, w) == Steps(d - 1, w) + w && Steps(d - 1, w) >= 0
  {
    assert d * w == (d - 1) * w + w;
    NotNegative(d - 1, w);
  }

  lemma NotNegative(d: nat, w: nat)
    ensures 0 <= d * w
  {
  }

  lemma {:induction false} StepsMonotone(d: int, e: int, w: int)
    requires d <= e && w >= 0
    ensures 0 <= Steps(d, w) <= Steps(e, w)
    decreases e - d
  {
    if 0 < e {
      StepsLess(e, w);
      if d < e {
        StepsMonotone(d, e - 1, w);
      }
    }
  }

  /** What is left of a pass that stands at ticket c and scans at sc, z being one past the
      last ticket that it looks at. */
  function Rank(s: Sys, z: int, c: int, sc: int): int {
    var w := s.ring.width + 3;
    match s.phase
    case Top(_) => Steps(z - c, w) + 1
    case Reading(_, _, _, got) => Steps(z - c - 1, w) + s.ring.width + 3 - |got|
    case Scanning(_, _) => Steps(z - sc, w) + 2
    case _ => 0
  }

  /** The step does not read a word again. */
  predicate ReadsAfresh(s: Sys, a: Act) {
    a.ReadCell? && s.phase.Reading? ==> a.j !in s.phase.got
  }

  lemma GotFits(s: Sys)
    requires s.phase.Reading? && forall j: nat :: j in s.phase.got ==> j <= s.ring.width
    ensures |s.phase.got| <= s.ring.width + 1
  {
    var keys := s.phase.got.Keys;
    assert keys <= SlotClient.Indices(s.ring.width + 1);
    SubsetCount(keys, SlotClient.Indices(s.ring.width + 1));
    assert |keys| == |s.phase.got|;
  }

  lemma {:induction false} SubsetCount(a: set<nat>, b: set<nat>)
    requires a <= b
    ensures |a| <= |b|
    decreases a
  {
    if i :| i in a {
      SubsetCount(a - {i}, b - {i});
    }
  }

  lemma OneMore(got: map<nat, u32>, j: nat, v: u32)
    requires j !in got
    ensures |got[j := v]| == |got| + 1
  {
    assert got[j := v].Keys == got.Keys + {j};
    assert |got[j := v].Keys| == |got[j := v]| && |got.Keys| == |got|;
  }

  lemma LookSinks(before: seq<Delivery>, s: Sys, e: int, h: u32, c: int, sc: int)
    requires OnCourse(before, s, e, h, c, sc) && BlockSystem.Enabled(s, LookTop)
    ensures Rank(BlockSystem.Apply(s, LookTop), Horizon(e, h), c, c + 1) < Rank(s, Horizon(e, h), c, sc)
  {
    var z, w := Horizon(e, h), s.ring.width + 3;
    StepsMonotone(z - c, z - c, w);
    if z - c > 0 {
      StepsLess(z - c, w);
    }
    hide Dist, Wrap, Residue, Horizon, Steps, Shown, Records, Holds, At;
  }

  lemma ReadSinks(before: seq<Delivery>, s: Sys, e: int, h: u32, c: int, sc: int, j: nat)
    requires OnCourse(before, s, e, h, c, sc) && BlockSystem.Enabled(s, ReadCell(j)) && j !in s.phase.got
    ensures Rank(BlockSystem.Apply(s, ReadCell(j)), Horizon(e, h), c, sc) < Rank(s, Horizon(e, h), c, sc)
  {
    OneMore(s.phase.got, j, Cell(s.ring.slots[Expects(s)], j));
    hide Dist, Wrap, Residue, Horizon, Steps, Shown, Records, Holds, At;
  }

  lemma DeliverSinks(before: seq<Delivery>, s: Sys, e: int, h: u32, c: int, sc: int)
    requires OnCourse(before, s, e, h, c, sc) && BlockSystem.Enabled(s, DeliverRead)
    ensures Rank(BlockSystem.Apply(s, DeliverRead), Horizon(e, h), c + 1, sc) < Rank(s, Horizon(e, h), c, sc)
  {
    GotFits(s);
    hide Dist, Wrap, Residue, Horizon, Steps, Shown, Records, Holds, At;
  }

  lemma ScanSinks(before: seq<Delivery>, s: Sys, e: int, h: u32, c: int, sc: int)
    requires OnCourse(before, s, e, h, c, sc) && BlockSystem.Enabled(s, LookScan)
    ensures var s', z := BlockSystem.Apply(s, LookScan), Horizon(e, h);
            if s'.phase.Top? then Rank(s', z, sc, sc) < Rank(s, z, c, sc)
            else Rank(s', z, c, sc + 1) < Rank(s, z, c, sc)
  {
    var z, w := Horizon(e, h), s.ring.width + 3;
    StepsMonotone(z - sc, z - sc, w);
    if z - sc > 0 {
      StepsLess(z - sc, w);
    }
    hide Dist, Wrap, Residue, Horizon, Steps, Shown, Records, Holds, At;
  }

  /** Every step of the consumer that does not read a word again brings the pass closer to its
      end. */
  lemma StepSinks(before: seq<Delivery>, s: Sys, a: Act, e: int, h: u32, c: int, sc: int)
    requires OnCourse(before, s, e, h, c, sc) && BlockSystem.Enabled(s, a) && !a.Produce? && !a.StoreRdIdx?
    requires ReadsAfresh(s, a)
    ensures var p := Stand(s, a, c, sc);
            Rank(BlockSystem.Apply(s, a), Horizon(e, h), p.0, p.1) < Rank(s, Horizon(e, h), c, sc)
  {
    match a
    case LookTop => LookSinks(before, s, e, h, c, sc);
    case ReadCell(j) => ReadSinks(before, s, e, h, c, sc, j);
    case DeliverRead => DeliverSinks(before, s, e, h, c, sc);
    case LookScan => ScanSinks(before, s, e, h, c, sc);
    case _ => assert false;
  }

  lemma RankNotNegative(before: seq<Delivery>, s: Sys, e: int, h: u32, c: int, sc: int)
    requires OnCourse(before, s, e, h, c, sc)
    ensures Rank(s, Horizon(e, h), c, sc) >= 0
  {
    var z, w := Horizon(e, h), s.ring.width + 3;
    StepsMonotone(z - c, z - c, w);
    StepsMonotone(z - sc, z - sc, w);
    StepsMonotone(z - c - 1, z - c - 1, w);
    if s.phase.Reading? {
      GotFits(s);
    }
    hide Dist, Wrap, Residue, Horizon, Steps, Shown, Records, Holds, At;
  }

  lemma {:induction false} PassSinks(tr: seq<Sys>, acts: seq<Act>, e: int, n: nat) returns (c: int, sc: int)
    requires Pass(tr, acts) && tr[0].expected == Wrap(e) && 1 <= n < |tr|
    requires forall m :: 1 <= m < n ==> ReadsAfresh(tr[m], acts[m])
    ensures OnCourse(tr[0].out, tr[n], e, tr[0].ring.wr, c, sc) && tr[n].ring == tr[0].ring
    ensures Rank(tr[n], Horizon(e, tr[0].ring.wr), c, sc) + n
            <= Steps(Horizon(e, tr[0].ring.wr) - e, tr[0].ring.width + 3) + 2
  {
    hide OnCourse, BlockSystem.Enabled, BlockSystem.Apply, Rank, Horizon, Steps;
    StepOf(tr, acts, n - 1);
    if n == 1 {
      BeginsOnCourse(tr[0], e);
      BeginsRank(tr[0], Horizon(e, tr[0].ring.wr), e);
      c, sc := e, e;
    } else {
      c, sc := PassSinks(tr, acts, e, n - 1);
      StaysOnCourse(tr[0].out, tr[n - 1], acts[n - 1], e, tr[0].ring.wr, c, sc);
      StepSinks(tr[0].out, tr[n - 1], acts[n - 1], e, tr[0].ring.wr, c, sc);
      var p := Stand(tr[n - 1], acts[n - 1], c, sc);
      c, sc := p.0, p.1;
    }
  }

  lemma BeginsRank(s: Sys, z: int, e: int)
    requires BlockSystem.Enabled(s, BeginSkip)
    ensures BlockSystem.Apply(s, BeginSkip).ring == s.ring
    ensures Rank(BlockSystem.Apply(s, BeginSkip), z, e, e) == Steps(z - e, s.ring.width + 3) + 1
  {
  }

  lemma StepOf(tr: seq<Sys>, acts: seq<Act>, n: nat)
    requires Pass(tr, acts) && n < |acts|
    ensures BlockSystem.Enabled(tr[n], acts[n]) && tr[n + 1] == BlockSystem.Apply(tr[n], acts[n])
    ensures !acts[n].Produce? && !acts[n].StoreRdIdx?
  {
    hide BlockSystem.Enabled, BlockSystem.Apply;
  }

  /** An undisturbed pass that reads no word of a slot twice takes at most width + 3 steps for
      each ticket up to its hint, and two more. */
  lemma PassEnds(tr: seq<Sys>, acts: seq<Act>, e: int)
    requires Pass(tr, acts) && tr[0].expected == Wrap(e)
    requires forall m :: 1 <= m < |acts| ==> ReadsAfresh(tr[m], acts[m])
    ensures |acts| <= Steps(Horizon(e, tr[0].ring.wr) - e, tr[0].ring.width + 3) + 2
  {
    var c, sc := PassSinks(tr, acts, e, |acts|);
    RankNotNegative(tr[0].out, tr[|acts|], e, tr[0].ring.wr, c, sc);
  }

  /** And until it publishes it can go on, without reading a word again. */
  lemma PassGoesOn(before: seq<Delivery>, s: Sys, e: int, h: u32, c: int, sc: int) returns (a: Act)
    requires OnCourse(before, s, e, h, c, sc) && s.phase != Publishing
    ensures BlockSystem.Enabled(s, a) && !a.Produce? && !a.StoreRdIdx? && ReadsAfresh(s, a)
  {
    hide Dist, Wrap, Residue, Horizon, Steps, Shown, Records, Holds, At;
    match s.phase
    case Top(_) => a := LookTop;
    case Scanning(_, _) => a := LookScan;
    case Reading(_, _, _, got) =>
      a := DeliverRead;
      if j: nat :| j <= s.ring.width && j !in got {
        a := ReadCell(j);
      }
  }
}
