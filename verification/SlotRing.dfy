/** The ticketed overwriting slot ring, producer side: any number of producers, each
    drawing a ticket by fetch-add, copying its metric into the slot field by field in any
    order, and then stamping the slot with the ticket. */
module SlotRing {
  import opened Words

  type Metric = seq<u32>

  datatype Slot = Slot(fields: Metric, ticket: u32)

  /** A producer between its fetch-add and its stamp. */
  datatype Producer = Producer(ticket: u32, metric: Metric, stored: set<nat>)

  /** `wr` and `slots` are the shared page. `log` and the keys of `busy` are history:
      reservation number t is the t-th fetch-add, and log[t] what its producer carries. */
  datatype Ring = Ring(width: nat, wr: u32, slots: seq<Slot>, log: seq<Metric>, busy: map<nat, Producer>)

  datatype Step =
    | Reserve(m: Metric)
    | Store(t: nat, j: nat)
    | Stamp(t: nat)

  function Zeros(width: nat): Metric {
    seq(width, _ => 0)
  }

  /** The zeroed page. */
  function ZeroPage(k: nat, width: nat): Ring {
    Ring(width, 0, seq(k, _ => Slot(Zeros(width), 0)), [], map[])
  }

  /** Slots and producers have the shapes the layout gives them. */
  ghost predicate Shaped(r: Ring) {
    && 0 < |r.slots| < TWO32
    && (forall i :: 0 <= i < |r.slots| ==> |r.slots[i].fields| == r.width)
    && (forall t :: 0 <= t < |r.log| ==> |r.log[t]| == r.width)
    && (forall t :: t in r.busy ==> |r.busy[t].metric| == r.width)
  }

  ghost predicate Enabled(r: Ring, s: Step) {
    Shaped(r) &&
    match s
    case Reserve(m) => |m| == r.width
    case Store(t, j) => t in r.busy && j < r.width && j !in r.busy[t].stored
    case Stamp(t) => t in r.busy && forall j: nat :: j < r.width ==> j in r.busy[t].stored
  }

  ghost function Apply(r: Ring, s: Step): Ring
    requires Enabled(r, s)
  {
    match s
    case Reserve(m) =>
      r.(wr := Succ(r.wr), log := r.log + [m], busy := r.busy[|r.log| := Producer(r.wr, m, {})])
    case Store(t, j) =>
      var p := r.busy[t];
      var i := Residue(p.ticket, |r.slots|);
      r.(slots := r.slots[i := r.slots[i].(fields := r.slots[i].fields[j := p.metric[j]])],
         busy := r.busy[t := p.(stored := p.stored + {j})])
    case Stamp(t) =>
      var i := Residue(r.busy[t].ticket, |r.slots|);
      r.(slots := r.slots[i := r.slots[i].(ticket := r.busy[t].ticket)], busy := r.busy - {t})
  }

  /** A ticket is reserved only after the ticket one capacity earlier was stamped. */
  ghost predicate LapFree(r: Ring, s: Step) {
    s.Reserve? ==> forall t :: t in r.busy ==> t != |r.log| - |r.slots|
  }

  /** Ticket t has been drawn and stamped. */
  ghost predicate Published(r: Ring, t: int) {
    0 <= t < |r.log| && t !in r.busy
  }

  // ---------- what every step keeps, lapping or not ----------

  /** Slot i carries its initial stamp or that of a published ticket of its own. */
  ghost predicate Sourced(r: Ring, i: nat)
    requires i < |r.slots|
  {
    r.slots[i].ticket == 0 ||
    exists t :: Published(r, t) && Wrap(t) == r.slots[i].ticket && SlotOf(t, |r.slots|) == i
  }

  ghost predicate Inv(r: Ring) {
    && Shaped(r)
    && r.wr == Wrap(|r.log|)
    && (forall t :: t in r.busy ==> t < |r.log| && r.busy[t].ticket == Wrap(t) && r.busy[t].metric == r.log[t])
    && (forall i: nat :: i < |r.slots| ==> Sourced(r, i))
  }

  lemma ZeroPageInv(k: nat, width: nat)
    requires 0 < k < TWO32
    ensures Inv(ZeroPage(k, width))
  {
    var r := ZeroPage(k, width);
    forall i: nat | i < k ensures Sourced(r, i) {
      assert r.slots[i].ticket == 0;
    }
  }

  lemma StepInv(r: Ring, s: Step)
    requires Inv(r) && Enabled(r, s)
    ensures Inv(Apply(r, s))
  {
    SuccIsNext(|r.log|);
    hide Residue, Wrap;
    var r' := Apply(r, s);
    forall i: nat | i < |r.slots| ensures Sourced(r', i) {
      assert Sourced(r, i);
      if s.Stamp? && i == Residue(r.busy[s.t].ticket, |r.slots|) {
        assert Published(r', s.t) && Wrap(s.t) == r'.slots[i].ticket && SlotOf(s.t, |r.slots|) == i;
      } else if r.slots[i].ticket != 0 {
        var t :| Published(r, t) && Wrap(t) == r.slots[i].ticket && SlotOf(t, |r.slots|) == i;
        assert Published(r', t);
      }
    }
  }

  // ---------- the closed form of a lap-free ring ----------

  /** What slot t mod K held before ticket t: an earlier metric or the zeroed page. */
  ghost function Base(r: Ring, t: int): Metric
    requires t < |r.log|
  {
    if t < 0 then Zeros(r.width) else r.log[t]
  }

  ghost function BaseStamp(t: int): u32 {
    if t < 0 then 0 else Wrap(t)
  }

  /** The slot of ticket t, when no later ticket of that slot was drawn, is a function of
      the log and of how far t's producer got. */
  ghost predicate Settled(r: Ring, t: int)
    requires Shaped(r) && t < |r.log|
  {
    var s := r.slots[Residue(t, |r.slots|)];
    && s.ticket == BaseStamp(if t in r.busy then t - |r.slots| else t)
    && forall j :: 0 <= j < r.width ==>
         s.fields[j] == if t in r.busy && j !in r.busy[t].stored
                        then Base(r, t - |r.slots|)[j] else Base(r, t)[j]
  }

  /** The capacity divides 2^32 (block ring), or the counter has not wrapped yet. */
  ghost predicate Aligned(r: Ring)
    requires 0 < |r.slots|
  {
    WholeLaps(|r.slots|) || |r.log| <= TWO32
  }

  ghost predicate LapFreeInv(r: Ring) {
    && Inv(r) && Aligned(r)
    && (forall t :: t in r.busy ==> |r.log| - |r.slots| <= t)
    && (forall t :: |r.log| - |r.slots| <= t < |r.log| ==> Settled(r, t))
  }

  lemma WriteIndexCounts(r: Ring)
    requires Inv(r)
    ensures 0 < |r.slots| && r.wr == Wrap(|r.log|)
  {
  }

  lemma ZeroPageLapFreeInv(k: nat, width: nat)
    requires 0 < k < TWO32
    ensures LapFreeInv(ZeroPage(k, width))
  {
    ZeroPageInv(k, width);
  }

  /** A store or a stamp touches the slot of its own ticket and no other in the window. */
  lemma OtherSlots(r: Ring, t: nat)
    requires Inv(r) && Aligned(r) && t < |r.log|
    ensures SlotOf(t, |r.slots|) == Residue(t, |r.slots|)
    ensures forall u :: |r.log| - |r.slots| <= u < |r.log| && |r.log| - |r.slots| <= t && u != t
                        ==> Residue(u, |r.slots|) != Residue(t, |r.slots|)
  {
    SlotOfPlain(t, |r.slots|);
    forall u | |r.log| - |r.slots| <= u < |r.log| && |r.log| - |r.slots| <= t && u != t
      ensures Residue(u, |r.slots|) != Residue(t, |r.slots|)
    {
      ResidueInjective(u, t, |r.slots|);
    }
  }

  lemma ReserveLapFree(r: Ring, m: Metric)
    requires LapFreeInv(r) && Enabled(r, Reserve(m)) && LapFree(r, Reserve(m))
    requires Aligned(Apply(r, Reserve(m)))
    ensures LapFreeInv(Apply(r, Reserve(m)))
  {
    var r', n, k := Apply(r, Reserve(m)), |r.log|, |r.slots|;
    StepInv(r, Reserve(m));
    forall t | n + 1 - k <= t < n + 1 ensures Settled(r', t) {
      if t == n {
        ResidueShift(n - k, k);
        assert Settled(r, n - k);
      } else {
        assert Settled(r, t);
      }
    }
  }

  lemma StoreLapFree(r: Ring, t: nat, j: nat)
    requires LapFreeInv(r) && Enabled(r, Store(t, j))
    ensures LapFreeInv(Apply(r, Store(t, j)))
  {
    var r' := Apply(r, Store(t, j));
    StepInv(r, Store(t, j));
    OtherSlots(r, t);
    forall u | |r.log| - |r.slots| <= u < |r.log| ensures Settled(r', u) {
      assert Settled(r, u);
    }
  }

  lemma StampLapFree(r: Ring, t: nat)
    requires LapFreeInv(r) && Enabled(r, Stamp(t))
    ensures LapFreeInv(Apply(r, Stamp(t)))
  {
    var r' := Apply(r, Stamp(t));
    StepInv(r, Stamp(t));
    OtherSlots(r, t);
    forall u | |r.log| - |r.slots| <= u < |r.log| ensures Settled(r', u) {
      assert Settled(r, u);
    }
  }

  lemma StepLapFree(r: Ring, s: Step)
    requires LapFreeInv(r) && Enabled(r, s) && LapFree(r, s) && Aligned(Apply(r, s))
    ensures LapFreeInv(Apply(r, s))
  {
    match s
    case Reserve(m) => ReserveLapFree(r, m);
    case Store(t, j) => StoreLapFree(r, t, j);
    case Stamp(t) => StampLapFree(r, t);
  }

  // ---------- consequences ----------

  /** At most one in-flight producer targets each slot. */
  lemma OneOwnerPerSlot(r: Ring, t: nat, u: nat)
    requires LapFreeInv(r) && t in r.busy && u in r.busy && t != u
    ensures Residue(r.busy[t].ticket, |r.slots|) != Residue(r.busy[u].ticket, |r.slots|)
  {
    OtherSlots(r, t);
    OtherSlots(r, u);
  }

  lemma OlderStampDiffers(t: int, k: nat)
    requires 0 < k < TWO32 && 1 <= t
    ensures BaseStamp(t - k) != BaseStamp(t)
  {
  }

  lemma PublishedSlot(r: Ring, t: nat)
    requires LapFreeInv(r) && |r.log| - |r.slots| <= t && Published(r, t)
    ensures r.slots[SlotOf(t, |r.slots|)] == Slot(r.log[t], Wrap(t))
  {
    SlotOfPlain(t, |r.slots|);
    assert Settled(r, t);
    var s := r.slots[Residue(t, |r.slots|)];
    assert |s.fields| == |r.log[t]| == r.width;
    assert s.fields == r.log[t];
  }

  /** The slot of ticket t shows t's stamp exactly when t is published (ticket 0 aside:
      the zeroed page shows it from the start), and then it holds t's metric whole. */
  lemma StampMeansPublished(r: Ring, t: nat)
    requires LapFreeInv(r) && |r.log| - |r.slots| <= t < |r.log|
    ensures 1 <= t ==> (r.slots[SlotOf(t, |r.slots|)].ticket == Wrap(t) <==> Published(r, t))
    ensures Published(r, t) ==> r.slots[SlotOf(t, |r.slots|)] == Slot(r.log[t], Wrap(t))
  {
    if Published(r, t) {
      PublishedSlot(r, t);
    } else if 1 <= t {
      SlotOfPlain(t, |r.slots|);
      assert Settled(r, t);
      OlderStampDiffers(t, |r.slots|);
    }
  }

  /** The ticket whose stamp slot i shows, as an unbounded number: the newest ticket drawn
      for the slot, or the one before it while the newest is in flight. */
  ghost predicate Shows(r: Ring, i: nat, t: int) {
    && 0 < |r.slots|
    && exists u ::
         && |r.log| - |r.slots| <= u < |r.log| && Residue(u, |r.slots|) == i
         && t == if u in r.busy then u - |r.slots| else u
  }

  lemma ShowsStamp(r: Ring, i: nat, t: int)
    requires LapFreeInv(r) && i < |r.slots| && Shows(r, i, t)
    ensures r.slots[i].ticket == BaseStamp(t)
  {
    var u :| |r.log| - |r.slots| <= u < |r.log| && Residue(u, |r.slots|) == i
             && t == if u in r.busy then u - |r.slots| else u;
    assert Settled(r, u);
  }

  /** Slot tickets only grow in a lap-free run. */
  lemma SlotTicketsGrow(r: Ring, s: Step, i: nat, t: int, t': int)
    requires LapFreeInv(r) && Enabled(r, s) && LapFree(r, s) && i < |r.slots|
    requires Shows(r, i, t) && Shows(Apply(r, s), i, t')
    ensures t <= t'
    ensures t < t' ==> s.Stamp? && t' == s.t
  {
    hide Residue, Settled, Sourced;
    var r', k := Apply(r, s), |r.slots|;
    var u :| |r.log| - k <= u < |r.log| && Residue(u, k) == i && t == if u in r.busy then u - k else u;
    var u' :| |r'.log| - k <= u' < |r'.log| && Residue(u', k) == i && t' == if u' in r'.busy then u' - k else u';
    if u' == |r.log| {
      ResidueShift(u', k);
      ResidueInjective(u, u' - k, k);
    } else {
      ResidueInjective(u, u', k);
    }
  }

  /** Within the first 2^32 reservations each slot shows the initial 0 or a published
      ticket congruent to its index, lapping or not. */
  lemma SlotShowsIssuedTicket(r: Ring, i: nat)
    requires Inv(r) && |r.log| < TWO32 && i < |r.slots|
    ensures r.slots[i].ticket == 0 ||
            (Published(r, r.slots[i].ticket) && Residue(r.slots[i].ticket, |r.slots|) == i)
  {
    assert Sourced(r, i);
    if r.slots[i].ticket != 0 {
      var t :| Published(r, t) && Wrap(t) == r.slots[i].ticket && SlotOf(t, |r.slots|) == i;
      assert Wrap(t) == t;
    }
  }

  // ---------- whole runs from the zeroed page ----------

  ghost predicate Run(tr: seq<Ring>, acts: seq<Step>) {
    && |tr| == |acts| + 1
    && (exists k: nat, width: nat :: k < TWO32 && 0 < k && tr[0] == ZeroPage(k, width))
    && forall n :: 0 <= n < |acts| ==> Enabled(tr[n], acts[n]) && tr[n + 1] == Apply(tr[n], acts[n])
  }

  ghost predicate LapFreeRun(tr: seq<Ring>, acts: seq<Step>) {
    && Run(tr, acts)
    && (forall n :: 0 <= n < |acts| ==> LapFree(tr[n], acts[n]))
    && (forall n :: 0 <= n < |tr| ==> 0 < |tr[n].slots| && Aligned(tr[n]))
  }

  lemma {:induction false} RunInv(tr: seq<Ring>, acts: seq<Step>, n: nat)
    requires Run(tr, acts) && n < |tr|
    ensures Inv(tr[n])
  {
    if n == 0 {
      var k: nat, width: nat :| k < TWO32 && 0 < k && tr[0] == ZeroPage(k, width);
      ZeroPageInv(k, width);
    } else {
      RunInv(tr, acts, n - 1);
      StepInv(tr[n - 1], acts[n - 1]);
    }
  }

  lemma StepKeepsLog(r: Ring, s: Step)
    requires Enabled(r, s)
    ensures Apply(r, s).log == if s.Reserve? then r.log + [s.m] else r.log
  {
  }

  lemma {:induction false} LogGrows(tr: seq<Ring>, acts: seq<Step>, a: nat, b: nat)
    requires Run(tr, acts) && a <= b < |tr|
    ensures |tr[a].log| <= |tr[b].log|
    ensures a < b && acts[a].Reserve? ==> |tr[a].log| < |tr[b].log|
    decreases b - a
  {
    if a < b {
      StepKeepsLog(tr[a], acts[a]);
      LogGrows(tr, acts, a + 1, b);
    }
  }

  /** The fetch-add that made reservation number t. */
  lemma {:induction false} Drawing(tr: seq<Ring>, acts: seq<Step>, n: nat, t: nat) returns (m: nat)
    requires Run(tr, acts) && n < |tr| && t < |tr[n].log|
    ensures m < n && acts[m].Reserve? && |tr[m].log| == t && acts[m].m == tr[n].log[t]
  {
    StepKeepsLog(tr[n - 1], acts[n - 1]);
    if t < |tr[n - 1].log| {
      m := Drawing(tr, acts, n - 1, t);
    } else {
      m := n - 1;
    }
  }

  /** Tickets are dense and unique within the first 2^32 reservations of any run, lapping or
      not: each word t below the number of reservations was drawn by exactly one fetch-add,
      and that producer carries the t-th metric. */
  lemma TicketsDenseAndUnique(tr: seq<Ring>, acts: seq<Step>, n: nat, t: u32) returns (m: nat)
    requires Run(tr, acts) && n < |tr| && t < |tr[n].log| <= TWO32
    ensures m < n && acts[m] == Reserve(tr[n].log[t]) && tr[m].wr == t
    ensures forall m' :: 0 <= m' < n && m' != m && acts[m'].Reserve? ==> tr[m'].wr != t
  {
    m := Drawing(tr, acts, n, t);
    RunInv(tr, acts, m);
    forall m' | 0 <= m' < n && m' != m && acts[m'].Reserve? ensures tr[m'].wr != t {
      RunInv(tr, acts, m');
      LogGrows(tr, acts, m', n);
      if m' < m {
        LogGrows(tr, acts, m', m);
      } else {
        LogGrows(tr, acts, m, m');
      }
    }
  }

  lemma {:induction false} LapFreeRunInv(tr: seq<Ring>, acts: seq<Step>, n: nat)
    requires LapFreeRun(tr, acts) && n < |tr|
    ensures LapFreeInv(tr[n])
  {
    if n == 0 {
      var k: nat, width: nat :| k < TWO32 && 0 < k && tr[0] == ZeroPage(k, width);
      ZeroPageLapFreeInv(k, width);
    } else {
      LapFreeRunInv(tr, acts, n - 1);
      assert tr[n - 1 + 1] == Apply(tr[n - 1], acts[n - 1]);
      StepLapFree(tr[n - 1], acts[n - 1]);
    }
  }

  /** Slot ownership over whole lap-free runs: at any moment no two in-flight producers
      share a slot, and between any two moments the ticket whose stamp a slot shows never
      goes back. */
  lemma {:induction false} SlotOwnership(tr: seq<Ring>, acts: seq<Step>, a: nat, b: nat, i: nat, t: int, t': int)
    requires LapFreeRun(tr, acts) && a <= b < |tr| && i < |tr[a].slots|
    requires Shows(tr[a], i, t) && Shows(tr[b], i, t')
    ensures t <= t' && tr[a].slots[i].ticket == BaseStamp(t)
    ensures forall u, v :: u in tr[b].busy && v in tr[b].busy && u != v ==>
              Residue(tr[b].busy[u].ticket, |tr[b].slots|) != Residue(tr[b].busy[v].ticket, |tr[b].slots|)
    decreases b - a
  {
    LapFreeRunInv(tr, acts, a);
    LapFreeRunInv(tr, acts, b);
    forall u, v | u in tr[b].busy && v in tr[b].busy && u != v
      ensures Residue(tr[b].busy[u].ticket, |tr[b].slots|) != Residue(tr[b].busy[v].ticket, |tr[b].slots|)
    {
      OneOwnerPerSlot(tr[b], u, v);
    }
    ShowsStamp(tr[a], i, t);
    if a == b {
      ShowsOnce(tr[a], i, t, t');
    } else {
      LapFreeRunInv(tr, acts, a + 1);
      var t1 := ShowsSome(tr[a + 1], i);
      SlotTicketsGrow(tr[a], acts[a], i, t, t1);
      SlotOwnership(tr, acts, a + 1, b, i, t1, t');
    }
  }

  lemma ShowsOnce(r: Ring, i: nat, t: int, t': int)
    requires Shaped(r) && Shows(r, i, t) && Shows(r, i, t')
    ensures t == t'
  {
    var u :| |r.log| - |r.slots| <= u < |r.log| && Residue(u, |r.slots|) == i
             && t == if u in r.busy then u - |r.slots| else u;
    var u' :| |r.log| - |r.slots| <= u' < |r.log| && Residue(u', |r.slots|) == i
              && t' == if u' in r.busy then u' - |r.slots| else u';
    ResidueInjective(u, u', |r.slots|);
  }

  lemma ShowsSome(r: Ring, i: nat) returns (t: int)
    requires Shaped(r) && i < |r.slots|
    ensures Shows(r, i, t)
  {
    var u := ResidueInWindow(|r.log|, |r.slots|, i);
    t := if u in r.busy then u - |r.slots| else u;
  }
}
