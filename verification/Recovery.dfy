/** What a drain pass delivers from a ring that producers have filled. */
module Recovery {
  import opened Words
  import opened SlotRing
  import opened Drain

  /** In a quiet lap-free ring the live tickets behind the write index are the last k. */
  lemma QuietHolds(r: Ring, t: nat)
    requires LapFreeInv(r) && r.busy == map[] && 1 <= |r.log|
    requires t <= |r.log| && |r.log| - t < TWO31
    requires WholeLaps(|r.slots|) || |r.log| < TWO32
    ensures Holds(r.slots, t) <==> |r.log| - |r.slots| <= t < |r.log|
    ensures Holds(r.slots, t) ==> At(r.slots, t) == Slot(r.log[t], Wrap(t))
  {
    hide Residue, WholeLaps;
    var n, k := |r.log|, |r.slots|;
    if n - k <= t < n {
      assert Published(r, t);
      PublishedSlot(r, t);
    } else {
      SlotOfPlain(t, k);
      var u := ResidueInWindow(n, k, Residue(t, k));
      assert Settled(r, u);
      if t == n {
        ResidueShift(n, k);
        ResidueInjective(u, n - k, k);
        OlderStampDiffers(n, k);
      } else {
        assert 0 <= u && 0 < u - t < TWO32;
      }
    }
  }

  lemma QuietWindow(r: Ring, e: nat)
    requires LapFreeInv(r) && r.busy == map[] && 1 <= |r.log|
    requires e <= |r.log| && |r.log| - e < TWO31
    requires WholeLaps(|r.slots|) || |r.log| < TWO32
    ensures forall t: int :: e <= t <= |r.log| ==> (Holds(r.slots, t) <==> Oldest(r, e) <= t < |r.log|)
    ensures forall t: int :: Oldest(r, e) <= t < |r.log| ==> At(r.slots, t) == Slot(r.log[t], Wrap(t))
  {
    WriteIndexCounts(r);
    hide LapFreeInv, Inv, Holds, At, Wrap, WholeLaps;
    forall t: int | e <= t <= |r.log|
      ensures Holds(r.slots, t) <==> Oldest(r, e) <= t < |r.log|
      ensures Holds(r.slots, t) ==> At(r.slots, t) == Slot(r.log[t], Wrap(t))
    {
      QuietHolds(r, t);
    }
  }

  /** The oldest ticket not yet passed by the consumer that the ring still has. */
  function Oldest(r: Ring, e: nat): (m: nat)
    ensures m == Max(e, |r.log| - |r.slots|)
  {
    Max(e, |r.log| - |r.slots|)
  }

  /** Recovery after overrun: once a lap-free run is quiet with n >= 1 tickets issued, one
      skip-ahead pass from any e <= n delivers exactly the last min(k, n - e) tickets, each
      with its own producer's metric, and moves to n, however far behind it was. */
  lemma RecoveryAfterOverrun(r: Ring, e: nat)
    requires LapFreeInv(r) && r.busy == map[] && 1 <= |r.log|
    requires e <= |r.log| && |r.log| - e < TWO31
    requires WholeLaps(|r.slots|) || |r.log| < TWO32
    ensures SkipTickets(r.slots, e, r.wr) == Range(Oldest(r, e), |r.log|)
    ensures SkipNext(r.slots, e, r.wr) == |r.log|
    ensures forall t: int :: Oldest(r, e) <= t < |r.log| ==> At(r.slots, t) == Slot(r.log[t], Wrap(t))
  {
    WriteIndexCounts(r);
    QuietWindow(r, e);
    HorizonOf(e, |r.log|);
    hide Holds, At, Wrap, Horizon, Inv, LapFreeInv;
    WindowLive(r.slots, e, Oldest(r, e), |r.log|);
  }

  // ---------- phantoms ----------

  /** The next ticket to be drawn never shows in a lap-free ring that has issued some. */
  lemma UndrawnIsDead(r: Ring)
    requires LapFreeInv(r) && 1 <= |r.log| && |r.slots| < TWO31
    requires WholeLaps(|r.slots|) || |r.log| < TWO32
    ensures !Holds(r.slots, |r.log|)
  {
    var n, k := |r.log|, |r.slots|;
    SlotOfPlain(n, k);
    hide Residue, WholeLaps;
    ResidueShift(n, k);
    SettledStamp(r, n - k);
    OlderStampDiffers(n, k);
    OlderStampDiffers(n, 2 * k);
    hide LapFreeInv, BaseStamp, Wrap;
  }

  /** The stamp in the slot of a ticket of the newest window. */
  lemma SettledStamp(r: Ring, u: int)
    requires LapFreeInv(r) && |r.log| - |r.slots| <= u < |r.log|
    ensures 0 < |r.slots|
    ensures r.slots[Residue(u, |r.slots|)].ticket == BaseStamp(if u in r.busy then u - |r.slots| else u)
  {
    hide Residue;
    assert Settled(r, u);
  }

  /** Until ticket 0 is stamped its slot shows it all the same: the page starts zeroed. */
  lemma ZeroShows(r: Ring)
    requires LapFreeInv(r) && !Published(r, 0)
    ensures Holds(r.slots, 0)
  {
    hide Residue;
    var k := |r.slots|;
    SlotOfPlain(0, k);
    ResidueShift(0, k);
    assert Settled(r, if |r.log| == 0 then -k else 0);
  }

  /** In a ring left alone a slot shows an unpublished ticket that a consumer can be at
      exactly when that ticket is 0. */
  lemma UnpublishedShows(r: Ring, t: nat)
    requires LapFreeInv(r) && |r.slots| < TWO31 && (WholeLaps(|r.slots|) || |r.log| < TWO32)
    requires !Published(r, t) && (t <= |r.log| || (t == 1 && |r.log| == 0))
    ensures Holds(r.slots, t) <==> t == 0
  {
    if t == 0 {
      ZeroShows(r);
    } else if |r.log| == 0 {
      assert Sourced(r, SlotOf(1, |r.slots|));
    } else if t == |r.log| {
      UndrawnIsDead(r);
    } else {
      StampMeansPublished(r, t);
    }
  }

  /** Skip-ahead on a lap-free ring left alone delivers a ticket that nobody published if
      and only if it starts at 0 while ticket 0 is not stamped: not drawn yet, or drawn and
      in flight. Ticket 0 is then passed for good. */
  lemma SkipPhantomExactly(r: Ring, e: nat)
    requires LapFreeInv(r) && |r.slots| < TWO31 && (WholeLaps(|r.slots|) || |r.log| < TWO32)
    requires (e <= |r.log| && |r.log| - e < TWO31) || (e == 1 && |r.log| == 0)
    ensures (exists t :: t in SkipTickets(r.slots, e, r.wr) && !Published(r, t)) <==> e == 0 && !Published(r, 0)
    ensures e == 0 && !Published(r, 0) ==> 0 in SkipTickets(r.slots, e, r.wr) && SkipNext(r.slots, e, r.wr) >= 1
  {
    WriteIndexCounts(r);
    HorizonOf(e, |r.log|);
    var ts := SkipTickets(r.slots, e, r.wr);
    LiveIsExact(r.slots, e, Horizon(e, r.wr));
    hide LapFreeInv, Inv, Holds, Horizon;
    if e == 0 && !Published(r, 0) {
      UnpublishedShows(r, 0);
      assert 0 in ts;
      assert ts[|ts| - 1] in ts;
    } else if t :| t in ts && !Published(r, t) {
      UnpublishedShows(r, t);
      assert false;
    }
  }

  /** Scatter-gather, likewise. */
  lemma ScatterPhantomExactly(r: Ring, e: nat, n: nat)
    requires LapFreeInv(r) && |r.slots| < TWO31 && (WholeLaps(|r.slots|) || |r.log| < TWO32)
    requires e <= |r.log| || (e == 1 && |r.log| == 0)
    requires MaximalRun(r.slots, e, n)
    ensures (exists t :: e <= t < e + n && !Published(r, t)) <==> e == 0 && !Published(r, 0)
    ensures e == 0 && !Published(r, 0) ==> n >= 1
  {
    hide LapFreeInv, Inv, Holds;
    if e == 0 && !Published(r, 0) {
      UnpublishedShows(r, 0);
      assert n >= 1;
      assert 0 <= 0 < 0 + n && !Published(r, 0);
    } else if t :| e <= t < e + n && !Published(r, t) {
      var first := if t <= Max(|r.log|, 1) then t else Max(|r.log|, 1);
      assert e <= first < e + n && !Published(r, first);
      UnpublishedShows(r, first);
      assert false;
    }
  }

  /** On the page before any ticket was issued both engines deliver one phantom, ticket 0,
      and run past the write index. */
  lemma ZeroPagePhantom(k: nat, width: nat)
    requires 0 < k < TWO32
    ensures var r := ZeroPage(k, width);
            SkipTickets(r.slots, 0, r.wr) == [0] && SkipNext(r.slots, 0, r.wr) == 1 && |r.log| == 0
    ensures MaximalRun(ZeroPage(k, width).slots, 0, 1)
  {
    var r := ZeroPage(k, width);
    ResidueSmall(0, k);
    hide Residue;
    assert Holds(r.slots, 0) && !Holds(r.slots, 1);
    assert Live(r.slots, 1, 1) == [];
  }

  // ---------- the two engines ----------

  /** A maximal run from a reachable position ends at or before the write index. */
  lemma RunStaysBehind(r: Ring, e: nat, n: nat)
    requires Inv(r) && |r.log| < TWO32 && MaximalRun(r.slots, e, n)
    requires e <= |r.log| || (e == 1 && |r.log| == 0)
    ensures e + n <= |r.log| || (e + n == 1 && |r.log| == 0)
  {
    var u := Max(|r.log|, 1);
    if e <= u < e + n {
      assert Holds(r.slots, u);
      SlotShowsIssuedTicket(r, SlotOf(u, |r.slots|));
      assert false;
    }
  }

  /** On any reachable ring left alone, lapped or not and at any age, scatter-gather's output
      from e is a prefix of skip-ahead's if and only if it does not pass the hint; before the
      counter wraps it never does. */
  lemma EnginesAgreeOnReachable(r: Ring, e: nat, n: nat)
    requires Inv(r) && MaximalRun(r.slots, e, n)
    requires (e <= |r.log| && |r.log| - e < TWO31) || (e == 1 && |r.log| == 0)
    ensures Range(e, e + n) <= SkipTickets(r.slots, e, r.wr) <==> e + n <= |r.log| + 1
    ensures |r.log| < TWO32 ==> e + n <= |r.log| + 1
  {
    WriteIndexCounts(r);
    HorizonOf(e, |r.log|);
    if |r.log| < TWO32 {
      RunStaysBehind(r, e, n);
    }
    hide Holds, Inv, Wrap, Horizon;
    EnginesAgree(r.slots, e, r.wr, n);
  }

  /** When every ticket from e up to the write index is live, both engines deliver exactly
      those and publish the write index, if and only if the slot of the next ticket does not
      seem to show it; before the counter wraps it never does. */
  lemma EnginesDeliverAll(r: Ring, e: nat, n: nat)
    requires Inv(r) && 1 <= |r.log| && e <= |r.log| && |r.log| - e < TWO31 && MaximalRun(r.slots, e, n)
    requires forall t :: e <= t < |r.log| ==> Holds(r.slots, t)
    ensures (e + n == |r.log|
             && SkipTickets(r.slots, e, r.wr) == Range(e, |r.log|)
             && SkipNext(r.slots, e, r.wr) == |r.log|) <==> !Holds(r.slots, |r.log|)
    ensures |r.log| < TWO32 ==> !Holds(r.slots, |r.log|)
  {
    WriteIndexCounts(r);
    HorizonOf(e, |r.log|);
    if |r.log| < TWO32 {
      RunStaysBehind(r, e, n);
    }
    hide Horizon, Holds, Wrap, Inv;
    if !Holds(r.slots, |r.log|) {
      WindowLive(r.slots, e, e, |r.log|);
    }
  }

  lemma RunEndsBehind(r: Ring, e: nat, n: nat)
    requires LapFreeInv(r) && 1 <= |r.log| && |r.slots| < TWO31
    requires WholeLaps(|r.slots|) || |r.log| < TWO32
    requires e <= |r.log| && MaximalRun(r.slots, e, n)
    ensures e + n <= |r.log|
  {
    UndrawnIsDead(r);
  }

  /** The same at any age of a lap-free ring, counter wraps included: scatter-gather's
      output is a prefix of skip-ahead's. */
  lemma EnginesAgreeAtAnyAge(r: Ring, e: nat, n: nat)
    requires LapFreeInv(r) && 1 <= |r.log| && |r.slots| < TWO31
    requires WholeLaps(|r.slots|) || |r.log| < TWO32
    requires e <= |r.log| && |r.log| - e < TWO31 && MaximalRun(r.slots, e, n)
    ensures Range(e, e + n) <= SkipTickets(r.slots, e, r.wr)
  {
    WriteIndexCounts(r);
    HorizonOf(e, |r.log|);
    RunEndsBehind(r, e, n);
    hide Horizon, Holds, Wrap, LapFreeInv;
    EnginesAgree(r.slots, e, r.wr, n);
  }

  lemma EnginesDeliverAllAtAnyAge(r: Ring, e: nat, n: nat)
    requires LapFreeInv(r) && 1 <= |r.log| && |r.slots| < TWO31
    requires WholeLaps(|r.slots|) || |r.log| < TWO32
    requires e <= |r.log| && |r.log| - e < TWO31 && MaximalRun(r.slots, e, n)
    requires forall t :: e <= t < |r.log| ==> Holds(r.slots, t)
    ensures e + n == |r.log|
    ensures SkipTickets(r.slots, e, r.wr) == Range(e, |r.log|)
    ensures SkipNext(r.slots, e, r.wr) == |r.log|
  {
    WriteIndexCounts(r);
    HorizonOf(e, |r.log|);
    RunEndsBehind(r, e, n);
    hide Horizon, Holds, Wrap, Inv, LapFreeInv;
    WindowLive(r.slots, e, e, |r.log|);
  }
}
