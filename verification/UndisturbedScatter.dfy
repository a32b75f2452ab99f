/** A scatter-gather pass of the step model that no producer disturbs: it delivers exactly the
    maximal run of consecutive tickets, and it ends after a known number of steps. */
module UndisturbedScatter {
  import opened Words
  import opened SlotRing
  import opened Drain
  import opened BlockSystem
  import SlotClient
  import Undisturbed

  /** The words copied so far are those of the slots. */
  ghost predicate Faithful(slots: seq<Slot>, width: nat, cells: map<(nat, nat), u32>) {
    forall c :: c in cells ==>
      c.0 < |slots| && c.1 <= width == |slots[c.0].fields| && cells[c] == Cell(slots[c.0], c.1)
  }

  ghost predicate Complete(s: Sys, cells: map<(nat, nat), u32>) {
    forall i: nat, j: nat :: i < |s.ring.slots| && j <= s.ring.width ==> (i, j) in cells
  }

  /** The first c tickets from e are live and delivered. */
  ghost predicate Delivered(before: seq<Delivery>, s: Sys, e: int, c: nat) {
    && 0 < |s.ring.slots| && s.expected == Wrap(e + c)
    && Undisturbed.Shown(s.out) == Undisturbed.Shown(before) + Records(s.ring.slots, Range(e, e + c))
    && forall t :: e <= t < e + c ==> Holds(s.ring.slots, t)
  }

  /** Where a pass that began at ticket e stands after c deliveries. */
  ghost predicate OnCourse(before: seq<Delivery>, s: Sys, e: int, c: nat) {
    Shaped(s.ring) && Delivered(before, s, e, c) &&
    match s.phase
    case Copying(_, _, cells) => c == 0 && Faithful(s.ring.slots, s.ring.width, cells)
    case Draining(_, cells) => Faithful(s.ring.slots, s.ring.width, cells) && Complete(s, cells)
    case Publishing => !Holds(s.ring.slots, e + c)
    case _ => false
  }

  lemma BeginsOnCourse(s: Sys, e: int)
    requires BlockSystem.Enabled(s, BeginCopy) && s.expected == Wrap(e)
    ensures OnCourse(s.out, BlockSystem.Apply(s, BeginCopy), e, 0)
  {
    assert Range(e, e) == [];
  }

  lemma CopyOnCourse(before: seq<Delivery>, s: Sys, e: int, c: nat, i: nat, j: nat)
    requires OnCourse(before, s, e, c) && BlockSystem.Enabled(s, CopyCell(i, j))
    ensures OnCourse(before, BlockSystem.Apply(s, CopyCell(i, j)), e, c)
  {
    hide Wrap, Holds, Undisturbed.Shown, Records;
  }

  lemma DrainOnCourse(before: seq<Delivery>, s: Sys, e: int, c: nat) returns (c': nat)
    requires OnCourse(before, s, e, c) && BlockSystem.Enabled(s, DrainNext)
    ensures OnCourse(before, BlockSystem.Apply(s, DrainNext), e, c')
    ensures var s' := BlockSystem.Apply(s, DrainNext);
            (s'.phase == s.phase && c' == c + 1) || (s'.phase == Publishing && c' == c)
  {
    var s', slots, i := BlockSystem.Apply(s, DrainNext), s.ring.slots, Expects(s);
    SuccIsNext(e + c);
    assert slots[i] == At(slots, e + c) && s.phase.cells[(i, s.ring.width)] == slots[i].ticket;
    c' := c;
    if slots[i].ticket == s.expected {
      c' := c + 1;
      SlotClient.RunDelivers(slots, e, c, []);
      hide Wrap, Residue, Succ;
      var d := s'.out[|s.out|];
      assert d.fields == slots[i].fields && d.ticket == slots[i].ticket;
      assert Undisturbed.Shown(s'.out) == Undisturbed.Shown(s.out) + [At(slots, e + c)];
      assert Records(slots, Range(e, e + c + 1)) == Records(slots, Range(e, e + c)) + [At(slots, e + c)];
    }
  }

  lemma StaysOnCourse(before: seq<Delivery>, s: Sys, a: Act, e: int, c: nat) returns (c': nat)
    requires OnCourse(before, s, e, c) && BlockSystem.Enabled(s, a) && !a.Produce? && !a.StoreRdIdx?
    ensures OnCourse(before, BlockSystem.Apply(s, a), e, c') && BlockSystem.Apply(s, a).ring == s.ring
    ensures a == DrainNext && BlockSystem.Apply(s, a).phase != Publishing ==> c' == c + 1
    ensures a != DrainNext || BlockSystem.Apply(s, a).phase == Publishing ==> c' == c
  {
    c' := c;
    match a
    case CopyCell(i, j) => CopyOnCourse(before, s, e, c, i, j);
    case DrainNext => c' := DrainOnCourse(before, s, e, c);
    case EndCopy => hide Wrap, Holds, Undisturbed.Shown, Records;
    case _ => assert false;
  }

  /** A pass from its beginning, with only consumer steps up to the moment it publishes. */
  ghost predicate Pass(tr: seq<Sys>, acts: seq<Act>) {
    && |tr| == |acts| + 1 && |acts| > 0 && acts[0].BeginCopy?
    && (forall n :: 0 <= n < |acts| ==>
          BlockSystem.Enabled(tr[n], acts[n]) && tr[n + 1] == BlockSystem.Apply(tr[n], acts[n]))
    && (forall n :: 0 <= n < |acts| ==> !acts[n].Produce? && !acts[n].StoreRdIdx?)
  }

  lemma PassStep(tr: seq<Sys>, acts: seq<Act>, n: nat)
    requires Pass(tr, acts) && n < |acts|
    ensures BlockSystem.Enabled(tr[n], acts[n]) && tr[n + 1] == BlockSystem.Apply(tr[n], acts[n])
    ensures !acts[n].Produce? && !acts[n].StoreRdIdx?
  {
    hide BlockSystem.Enabled, BlockSystem.Apply;
  }

  lemma {:induction false} PassOnCourse(tr: seq<Sys>, acts: seq<Act>, e: int, n: nat) returns (c: nat)
    requires Pass(tr, acts) && tr[0].expected == Wrap(e) && 1 <= n < |tr|
    ensures OnCourse(tr[0].out, tr[n], e, c) && tr[n].ring == tr[0].ring
  {
    hide OnCourse, BlockSystem.Enabled, BlockSystem.Apply;
    PassStep(tr, acts, n - 1);
    if n == 1 {
      BeginsOnCourse(tr[0], e);
      SameRing(tr[0]);
      c := 0;
    } else {
      c := PassOnCourse(tr, acts, e, n - 1);
      c := StaysOnCourse(tr[0].out, tr[n - 1], acts[n - 1], e, c);
    }
  }

  lemma SameRing(s: Sys)
    requires BlockSystem.Enabled(s, BeginCopy)
    ensures BlockSystem.Apply(s, BeginCopy).ring == s.ring
  {
  }

  /** When the undisturbed pass comes to publish it has delivered the slots of exactly the
      maximal run of consecutive tickets from where it began, and stands one past them. */
  lemma UndisturbedPass(tr: seq<Sys>, acts: seq<Act>, e: int) returns (n: nat)
    requires Pass(tr, acts) && tr[0].expected == Wrap(e) && tr[|acts|].phase == Publishing
    ensures 0 < |tr[0].ring.slots| && MaximalRun(tr[0].ring.slots, e, n)
    ensures Undisturbed.Shown(tr[|acts|].out) ==
            Undisturbed.Shown(tr[0].out) + Records(tr[0].ring.slots, Range(e, e + n))
    ensures tr[|acts|].expected == Wrap(e + n)
  {
    n := PassOnCourse(tr, acts, e, |acts|);
  }

  // ---------- how long it takes ----------

  /** The slots that the n tickets from e use. */
  function Used(slots: seq<Slot>, e: int, n: nat): set<nat>
    requires 0 < |slots|
  {
    if n == 0 then {} else Used(slots, e, n - 1) + {SlotOf(e + n - 1, |slots|)}
  }

  lemma {:induction false} UsedCount(slots: seq<Slot>, e: int, n: nat)
    requires 0 < |slots| < TWO32 && n <= |slots| && forall t :: e <= t < e + n ==> Holds(slots, t)
    ensures |Used(slots, e, n)| == n && forall i :: i in Used(slots, e, n) ==> SlotClient.UsedBy(slots, e, n, i)
    ensures forall i :: i in Used(slots, e, n) ==> i < |slots|
  {
    if n > 0 {
      UsedCount(slots, e, n - 1);
      SlotClient.FreshSlot(slots, e, n - 1);
      hide Holds, SlotOf, SlotClient.UsedBy;
    }
  }

  /** A run of live tickets is no longer than the pool. */
  lemma RunFits(slots: seq<Slot>, e: int, n: nat)
    requires 0 < |slots| < TWO32 && forall t :: e <= t < e + n ==> Holds(slots, t)
    ensures n <= |slots|
  {
    var k := |slots|;
    if n > k {
      UsedCount(slots, e, k);
      SlotClient.FreshSlot(slots, e, k);
      hide Holds, SlotClient.UsedBy;
      var used := Used(slots, e, k);
      var i := SlotOf(e + k, k);
      assert i !in used && used + {i} <= SlotClient.Indices(k);
      Subset(used + {i}, SlotClient.Indices(k));
    }
  }

  lemma {:induction false} Subset(a: set<nat>, b: set<nat>)
    requires a <= b
    ensures |a| <= |b|
    decreases a
  {
    if i :| i in a {
      Subset(a - {i}, b - {i});
    }
  }

  /** No word is copied twice. */
  ghost predicate EachOnce(tr: seq<Sys>, acts: seq<Act>) {
    |tr| == |acts| + 1 && forall n :: 0 <= n < |acts| && acts[n].CopyCell? && tr[n].phase.Copying? ==>
      (acts[n].i, acts[n].j) !in tr[n].phase.cells
  }

  /** The places of n words of slot i, and of w words of each of k slots. */
  function Row(i: nat, n: nat): set<(nat, nat)> {
    if n == 0 then {} else Row(i, n - 1) + {(i, n - 1)}
  }

  function Grid(k: nat, w: nat): set<(nat, nat)> {
    if k == 0 then {} else Grid(k - 1, w) + Row(k - 1, w)
  }

  lemma {:induction false} InRow(i: nat, n: nat, c: (nat, nat))
    ensures c in Row(i, n) <==> c.0 == i && c.1 < n
  {
    if n > 0 {
      InRow(i, n - 1, c);
    }
  }

  lemma {:induction false} InGrid(k: nat, w: nat, c: (nat, nat))
    ensures c in Grid(k, w) <==> c.0 < k && c.1 < w
  {
    if k > 0 {
      InGrid(k - 1, w, c);
      InRow(k - 1, w, c);
    }
  }

  lemma {:induction false} RowCount(i: nat, n: nat)
    ensures |Row(i, n)| == n
  {
    if n > 0 {
      RowCount(i, n - 1);
      InRow(i, n - 1, (i, n - 1));
    }
  }

  lemma DisjointCount(a: set<(nat, nat)>, b: set<(nat, nat)>)
    requires a !! b
    ensures |a + b| == |a| + |b|
  {
  }

  lemma GridApart(k: nat, w: nat)
    ensures Grid(k, w) !! Row(k, w)
  {
    forall c | c in Grid(k, w) ensures c !in Row(k, w) {
      InGrid(k, w, c);
      InRow(k, w, c);
    }
  }

  lemma {:induction false} GridCount(k: nat, w: nat)
    ensures |Grid(k, w)| == k * w
  {
    if k > 0 {
      GridCount(k - 1, w);
      GridApart(k - 1, w);
      RowCount(k - 1, w);
      DisjointCount(Grid(k - 1, w), Row(k - 1, w));
      ProductStep(k, w);
    }
  }

  lemma ProductStep(k: int, w: int)
    ensures k * w == (k - 1) * w + w
  {
  }

  /** How many steps a pass has taken that copies each word once. */
  ghost predicate Paced(s: Sys, c: nat, n: nat) {
    match s.phase
    case Copying(_, _, cells) => n == 1 + |cells|
    case Draining(_, cells) => n == 2 + |cells| + c
    case Publishing => n == 3 + |s.ring.slots| * (s.ring.width + 1) + c
    case _ => false
  }

  lemma Inside(s: Sys, cells: map<(nat, nat), u32>)
    requires Faithful(s.ring.slots, s.ring.width, cells)
    ensures cells.Keys <= Grid(|s.ring.slots|, s.ring.width + 1)
  {
    hide Cell;
    forall c | c in cells.Keys ensures c in Grid(|s.ring.slots|, s.ring.width + 1) {
      InGrid(|s.ring.slots|, s.ring.width + 1, c);
    }
  }

  lemma Covers(s: Sys, cells: map<(nat, nat), u32>)
    requires Complete(s, cells)
    ensures Grid(|s.ring.slots|, s.ring.width + 1) <= cells.Keys
  {
    forall c | c in Grid(|s.ring.slots|, s.ring.width + 1) ensures c in cells.Keys {
      InGrid(|s.ring.slots|, s.ring.width + 1, c);
      assert c == (c.0, c.1);
    }
  }

  lemma KeysCount(cells: map<(nat, nat), u32>)
    ensures |cells| == |cells.Keys|
  {
  }

  lemma AllCopied(s: Sys, cells: map<(nat, nat), u32>)
    requires Faithful(s.ring.slots, s.ring.width, cells)
    ensures |cells| <= |s.ring.slots| * (s.ring.width + 1)
    ensures Complete(s, cells) ==> |cells| == |s.ring.slots| * (s.ring.width + 1)
  {
    Inside(s, cells);
    KeysCount(cells);
    if Complete(s, cells) {
      Covers(s, cells);
      hide Complete, Faithful;
      PairSubset(Grid(|s.ring.slots|, s.ring.width + 1), cells.Keys);
    }
    hide Complete, Faithful;
    PairSubset(cells.Keys, Grid(|s.ring.slots|, s.ring.width + 1));
    GridCount(|s.ring.slots|, s.ring.width + 1);
  }

  lemma CopyPaced(s: Sys, i: nat, j: nat, c: nat, n: nat)
    requires BlockSystem.Enabled(s, CopyCell(i, j)) && Paced(s, c, n) && (i, j) !in s.phase.cells
    ensures Paced(BlockSystem.Apply(s, CopyCell(i, j)), c, n + 1)
  {
    OneMore(s.phase.cells, (i, j), Cell(s.ring.slots[i], j));
  }

  lemma OneMore(cells: map<(nat, nat), u32>, c: (nat, nat), v: u32)
    requires c !in cells
    ensures |cells[c := v]| == |cells| + 1
  {
    assert cells[c := v].Keys == cells.Keys + {c};
    assert |cells[c := v].Keys| == |cells[c := v]| && |cells.Keys| == |cells|;
  }

  lemma DrainPaced(before: seq<Delivery>, s: Sys, e: int, c: nat, c': nat, n: nat)
    requires OnCourse(before, s, e, c) && Paced(s, c, n) && BlockSystem.Enabled(s, DrainNext)
    requires BlockSystem.Apply(s, DrainNext).phase != Publishing ==> c' == c + 1
    requires BlockSystem.Apply(s, DrainNext).phase == Publishing ==> c' == c
    ensures Paced(BlockSystem.Apply(s, DrainNext), c', n + 1)
  {
    AllCopied(s, s.phase.cells);
    hide Delivered, Faithful, Complete, Residue, Holds;
  }

  lemma StepPaced(before: seq<Delivery>, s: Sys, a: Act, e: int, c: nat, c': nat, n: nat)
    requires OnCourse(before, s, e, c) && Paced(s, c, n) && BlockSystem.Enabled(s, a)
    requires !a.Produce? && !a.StoreRdIdx? && (a.CopyCell? && s.phase.Copying? ==> (a.i, a.j) !in s.phase.cells)
    requires a == DrainNext && BlockSystem.Apply(s, a).phase != Publishing ==> c' == c + 1
    requires a != DrainNext || BlockSystem.Apply(s, a).phase == Publishing ==> c' == c
    ensures Paced(BlockSystem.Apply(s, a), c', n + 1)
  {
    match a
    case CopyCell(i, j) => CopyPaced(s, i, j, c, n);
    case DrainNext => DrainPaced(before, s, e, c, c', n);
    case EndCopy => hide Delivered, Faithful, Complete, Residue;
    case _ => assert false;
  }

  lemma {:induction false} PassPaced(tr: seq<Sys>, acts: seq<Act>, e: int, n: nat) returns (c: nat)
    requires Pass(tr, acts) && EachOnce(tr, acts) && tr[0].expected == Wrap(e) && 1 <= n < |tr|
    ensures OnCourse(tr[0].out, tr[n], e, c) && tr[n].ring == tr[0].ring && Paced(tr[n], c, n)
  {
    hide OnCourse, BlockSystem.Enabled, BlockSystem.Apply, Paced;
    PassStep(tr, acts, n - 1);
    if n == 1 {
      BeginsOnCourse(tr[0], e);
      SameRing(tr[0]);
      BeginsPaced(tr[0]);
      c := 0;
    } else {
      var was := PassPaced(tr, acts, e, n - 1);
      c := StaysOnCourse(tr[0].out, tr[n - 1], acts[n - 1], e, was);
      StepPaced(tr[0].out, tr[n - 1], acts[n - 1], e, was, c, n - 1);
    }
  }

  lemma BeginsPaced(s: Sys)
    requires BlockSystem.Enabled(s, BeginCopy)
    ensures Paced(BlockSystem.Apply(s, BeginCopy), 0, 1)
  {
  }

  lemma Bounded(before: seq<Delivery>, s: Sys, e: int, c: nat, n: nat)
    requires OnCourse(before, s, e, c) && Paced(s, c, n)
    ensures 0 < |s.ring.slots| && n <= |s.ring.slots| * (s.ring.width + 1) + |s.ring.slots| + 3
    ensures s.phase == Publishing ==> n == |s.ring.slots| * (s.ring.width + 1) + c + 3
  {
    RunFits(s.ring.slots, e, c);
    if s.phase.Copying? || s.phase.Draining? {
      AllCopied(s, s.phase.cells);
    }
    hide Holds, Wrap, Faithful, Undisturbed.Shown, Records;
  }

  lemma {:induction false} PairSubset(a: set<(nat, nat)>, b: set<(nat, nat)>)
    requires a <= b
    ensures |a| <= |b|
    decreases a
  {
    if i :| i in a {
      PairSubset(a - {i}, b - {i});
    }
  }

  /** The pass ends: copying each word once, it takes at most K * (width + 1) + K + 3 steps,
      and exactly K * (width + 1) + n + 3 to the moment it publishes after n deliveries. */
  lemma PassEnds(tr: seq<Sys>, acts: seq<Act>, e: int)
    requires Pass(tr, acts) && EachOnce(tr, acts) && tr[0].expected == Wrap(e)
    ensures var k := |tr[0].ring.slots|; |acts| <= k * (tr[0].ring.width + 1) + k + 3
    ensures forall n: nat ::
              tr[|acts|].phase == Publishing && 0 < |tr[0].ring.slots| && MaximalRun(tr[0].ring.slots, e, n) ==>
              |acts| == |tr[0].ring.slots| * (tr[0].ring.width + 1) + n + 3
  {
    var c := PassPaced(tr, acts, e, |acts|);
    Bounded(tr[0].out, tr[|acts|], e, c, |acts|);
    if tr[|acts|].phase == Publishing {
      assert MaximalRun(tr[0].ring.slots, e, c);
      forall n: nat | MaximalRun(tr[0].ring.slots, e, n) ensures n == c {
        OneRun(tr[0].ring.slots, e, n, c);
      }
    }
  }

  lemma OneRun(slots: seq<Slot>, e: int, n: nat, c: nat)
    requires 0 < |slots| && MaximalRun(slots, e, n) && MaximalRun(slots, e, c)
    ensures n == c
  {
  }

  /** And until it publishes it can go on, without copying a word twice. */
  lemma PassGoesOn(before: seq<Delivery>, s: Sys, e: int, c: nat) returns (a: Act)
    requires OnCourse(before, s, e, c) && s.phase != Publishing
    ensures BlockSystem.Enabled(s, a) && !a.Produce? && !a.StoreRdIdx?
    ensures a.CopyCell? && s.phase.Copying? ==> (a.i, a.j) !in s.phase.cells
  {
    hide Wrap, Holds, Residue, Delivered;
    if s.phase.Draining? {
      a := DrainNext;
    } else {
      a := EndCopy;
      if i: nat, j: nat :| i < |s.ring.slots| && j <= s.ring.width && (i, j) !in s.phase.cells {
        a := CopyCell(i, j);
      }
    }
  }
}
