/** What a drain pass over an unchanging pool of slots means. Tickets are numbered without
    wrap here; number t stands for the word Wrap(t). */
module Drain {
  import opened Words
  import opened SlotRing

  /** The slot that ticket t uses. */
  function At(slots: seq<Slot>, t: int): Slot
    requires 0 < |slots|
  {
    slots[SlotOf(t, |slots|)]
  }

  predicate Holds(slots: seq<Slot>, t: int)
    requires 0 < |slots|
  {
    At(slots, t).ticket == Wrap(t)
  }

  /** The live tickets from `a` up to, not including, `b`. */
  function Live(slots: seq<Slot>, a: int, b: int): seq<int>
    requires 0 < |slots|
    decreases b - a
  {
    if b <= a then [] else (if Holds(slots, a) then [a] else []) + Live(slots, a + 1, b)
  }

  function Records(slots: seq<Slot>, ts: seq<int>): (r: seq<Slot>)
    requires 0 < |slots|
    ensures |r| == |ts|
  {
    seq(|ts|, i requires 0 <= i < |ts| => At(slots, ts[i]))
  }

  /** A pass that began at ticket e and delivered the tickets ts stands at x: where it began,
      or one past a ticket that it delivered, and past all of these. */
  ghost predicate StopsAfter(ts: seq<int>, e: int, x: int) {
    && e <= x && (x == e || x - 1 in ts)
    && forall t :: t in ts ==> t < x
  }

  /** Where the expected ticket stands after the live tickets of [a, b) were delivered. */
  function After(slots: seq<Slot>, a: int, b: int): (x: int)
    requires 0 < |slots|
    ensures StopsAfter(Live(slots, a, b), a, x)
  {
    var ts := Live(slots, a, b);
    LiveIsExact(slots, a, b);
    if ts == [] then a else
      LastIsHighest(ts);
      ts[|ts| - 1] + 1
  }

  lemma LastIsHighest(ts: seq<int>)
    requires ts != [] && forall i, j :: 0 <= i < j < |ts| ==> ts[i] < ts[j]
    ensures ts[|ts| - 1] in ts && forall t :: t in ts ==> t <= ts[|ts| - 1]
  {
    forall t | t in ts ensures t <= ts[|ts| - 1] {
      var i :| 0 <= i < |ts| && ts[i] == t;
      assert i == |ts| - 1 || ts[i] < ts[|ts| - 1];
    }
  }

  /** Live holds exactly the tickets of the range whose slot shows them, in ascending order,
      once each. */
  lemma {:induction false} LiveIsExact(slots: seq<Slot>, a: int, b: int)
    requires 0 < |slots|
    ensures forall t :: t in Live(slots, a, b) <==> a <= t < b && Holds(slots, t)
    ensures forall i, j :: 0 <= i < j < |Live(slots, a, b)| ==> Live(slots, a, b)[i] < Live(slots, a, b)[j]
    decreases b - a
  {
    if a < b {
      LiveIsExact(slots, a + 1, b);
      var rest := Live(slots, a + 1, b);
      assert forall i :: 0 <= i < |rest| ==> rest[i] in rest;
    }
  }

  lemma {:induction false} LiveSplit(slots: seq<Slot>, a: int, m: int, b: int)
    requires 0 < |slots| && a <= m <= b
    ensures Live(slots, a, b) == Live(slots, a, m) + Live(slots, m, b)
    decreases m - a
  {
    if a < m {
      LiveSplit(slots, a + 1, m, b);
    }
  }

  lemma {:induction false} NoneLive(slots: seq<Slot>, a: int, b: int)
    requires 0 < |slots|
    requires forall t :: a <= t < b ==> !Holds(slots, t)
    ensures Live(slots, a, b) == []
    decreases b - a
  {
    if a < b {
      NoneLive(slots, a + 1, b);
    }
  }

  /** One live ticket more at the end. */
  lemma LiveAppend(slots: seq<Slot>, a: int, t: int)
    requires 0 < |slots| && a <= t && Holds(slots, t)
    ensures Live(slots, a, t + 1) == Live(slots, a, t) + [t]
    ensures After(slots, a, t + 1) == t + 1
  {
    LiveSplit(slots, a, t, t + 1);
    assert Live(slots, t, t + 1) == [t] + Live(slots, t + 1, t + 1);
  }

  function Range(a: int, b: int): (s: seq<int>)
    ensures |s| == if a <= b then b - a else 0
  {
    if a <= b then seq(b - a, i => a + i) else []
  }

  lemma {:induction false} AllLive(slots: seq<Slot>, a: int, b: int)
    requires 0 < |slots| && a <= b
    requires forall t :: a <= t < b ==> Holds(slots, t)
    ensures Live(slots, a, b) == Range(a, b)
    ensures After(slots, a, b) == b
    decreases b - a
  {
    if a < b {
      AllLive(slots, a + 1, b);
      assert Range(a, b) == [a] + Range(a + 1, b);
    }
  }

  // ---------- the consecutive run that scatter-gather takes ----------

  /** n tickets in a row from `a` are live and the next one is not. */
  ghost predicate MaximalRun(slots: seq<Slot>, a: int, n: nat)
    requires 0 < |slots|
  {
    && (forall t :: a <= t < a + n ==> Holds(slots, t))
    && !Holds(slots, a + n)
  }

  /** A pool of k slots can show at most one ticket each, so fewer than 2^32 live tickets
      in a row use different slots. */
  lemma LiveTicketsUseOwnSlots(slots: seq<Slot>, t: int, u: int)
    requires 0 < |slots|
    requires Holds(slots, t) && Holds(slots, u) && t < u < t + TWO32
    ensures SlotOf(t, |slots|) != SlotOf(u, |slots|)
  {
  }

  // ---------- the skip-ahead pass ----------

  /** One past the highest ticket that a skip-ahead pass from e with hint h looks at. */
  function Horizon(e: int, h: u32): int {
    e + Dist(h, Wrap(e)) + 1
  }

  lemma HorizonOf(e: int, n: int)
    requires -TWO31 <= n - e < TWO31
    ensures Horizon(e, Wrap(n)) == n + 1
  {
    DistIsTrueDistance(n, e);
  }

  function SkipTickets(slots: seq<Slot>, e: int, h: u32): seq<int>
    requires 0 < |slots|
  {
    Live(slots, e, Horizon(e, h))
  }

  function SkipNext(slots: seq<Slot>, e: int, h: u32): (x: int)
    requires 0 < |slots|
    ensures StopsAfter(SkipTickets(slots, e, h), e, x)
  {
    After(slots, e, Horizon(e, h))
  }

  /** A pass stops where it began if and only if nothing from there to the hint is live, and
      otherwise one past the last ticket of that range that is. What follows it and is not
      live is not passed over. */
  lemma SkipStops(slots: seq<Slot>, e: int, h: u32, x: int)
    requires 0 < |slots|
    ensures x == SkipNext(slots, e, h) <==>
            && e <= x && (x == e || (x <= Horizon(e, h) && Holds(slots, x - 1)))
            && forall t :: x <= t < Horizon(e, h) ==> !Holds(slots, t)
  {
    LiveIsExact(slots, e, Horizon(e, h));
    hide Horizon, Holds;
    var next := SkipNext(slots, e, h);
    if e <= x < next {
      assert next - 1 in SkipTickets(slots, e, h);
    }
  }

  /** When the live tickets of [e, n] are those of [m, n), a pass up to n delivers these. */
  lemma WindowLive(slots: seq<Slot>, e: int, m: int, n: int)
    requires 0 < |slots| && e <= m <= n && (m == n ==> e == n)
    requires forall t :: e <= t <= n ==> (Holds(slots, t) <==> m <= t < n)
    ensures Live(slots, e, n + 1) == Range(m, n) && After(slots, e, n + 1) == n
  {
    hide Holds;
    NoneLive(slots, e, m);
    AllLive(slots, m, n);
    NoneLive(slots, n, n + 1);
    LiveSplit(slots, e, m, n + 1);
    LiveSplit(slots, m, n, n + 1);
    assert Live(slots, e, n + 1) == Range(m, n);
  }

  lemma PrefixMember(a: seq<int>, b: seq<int>, i: nat)
    requires a <= b && i < |a|
    ensures a[i] in b
  {
    assert b[i] == a[i];
  }

  /** Both engines agree on an unchanging pool, whatever it holds: scatter-gather's tickets
      are the first that skip-ahead delivers if and only if its run does not pass the hint. */
  lemma EnginesAgree(slots: seq<Slot>, e: int, h: u32, n: nat)
    requires 0 < |slots| && MaximalRun(slots, e, n)
    ensures Range(e, e + n) <= SkipTickets(slots, e, h) <==> e + n <= Max(e, Horizon(e, h))
  {
    var z, run := Horizon(e, h), Range(e, e + n);
    hide Horizon, Holds;
    if e + n <= Max(e, z) {
      AllLive(slots, e, e + n);
      if e <= z {
        LiveSplit(slots, e, e + n, z);
      }
    } else if run <= SkipTickets(slots, e, h) {
      LiveIsExact(slots, e, z);
      PrefixMember(run, SkipTickets(slots, e, h), n - 1);
      assert false;
    }
  }
}
