/** The skip-ahead pass while producers keep changing the slots: `load(n, i)` is what the
    n-th ticket load of the pass would find in slot i, and nothing is assumed about it. */
module SkipCost {
  import opened Words

  /** How far ticket t lies ahead of the start of the pass. */
  function Ahead(start: u32, t: u32): u32 {
    Wrap(t - start)
  }

  lemma AheadStep(start: u32, t: u32)
    requires Ahead(start, t) < TWO32 - 1
    ensures Ahead(start, Succ(t)) == Ahead(start, t) + 1
  {
  }

  lemma AheadOfDist(hint: u32, start: u32, t: u32)
    requires Dist(hint, start) >= 0 && Ahead(start, t) <= Dist(hint, start) + 1
    ensures Dist(hint, t) == Dist(hint, start) - Ahead(start, t)
  {
    WrapOfDifference(hint - start, t - start);
    SignedOfWrap(Dist(hint, start) - Ahead(start, t));
    hide Wrap;
    assert (hint - start) - (t - start) == hint - t;
  }

  lemma AheadInjective(start: u32, t: u32, u: u32)
    requires Ahead(start, t) == Ahead(start, u)
    ensures t == u
  {
  }

  /** One of the loads that the pass made, the n-th of which was made for ticket looked[n],
      found ticket t in its slot, or failed to. */
  ghost predicate Seen(load: (nat, nat) -> u32, k: nat, looked: seq<u32>, t: u32)
    requires 0 < k
  {
    exists n: nat :: n < |looked| && looked[n] == t && load(n, Residue(t, k)) == t
  }

  ghost predicate Missed(load: (nat, nat) -> u32, k: nat, looked: seq<u32>, t: u32)
    requires 0 < k
  {
    exists n: nat :: n < |looked| && looked[n] == t && load(n, Residue(t, k)) != t
  }

  /** Every ticket before the `b`-th from start was delivered, or a load missed it. */
  ghost predicate Accounted(load: (nat, nat) -> u32, k: nat, looked: seq<u32>, start: u32, b: int, delivered: seq<u32>)
    requires 0 < k
  {
    forall x: u32 :: Ahead(start, x) < b ==> x in delivered || Missed(load, k, looked, x)
  }

  ghost predicate AllSeen(load: (nat, nat) -> u32, k: nat, looked: seq<u32>, delivered: seq<u32>)
    requires 0 < k
  {
    forall t :: t in delivered ==> Seen(load, k, looked, t)
  }

  /** No load looked beyond the ticket d ahead of the start. */
  ghost predicate LooksWithin(start: u32, d: int, looked: seq<u32>) {
    forall i :: 0 <= i < |looked| ==> Ahead(start, looked[i]) <= d
  }

  lemma LookWithin(start: u32, d: int, looked: seq<u32>, t: u32)
    requires LooksWithin(start, d, looked) && Ahead(start, t) <= d
    ensures LooksWithin(start, d, looked + [t])
  {
    hide Ahead;
  }

  lemma DeliverOne(load: (nat, nat) -> u32, k: nat, looked: seq<u32>, delivered: seq<u32>, t: u32)
    requires 0 < k && AllSeen(load, k, looked, delivered) && Seen(load, k, looked, t)
    ensures AllSeen(load, k, looked, delivered + [t])
  {
    hide Seen;
  }

  /** A ticket that a pass can stand at: its start, one past its last delivery, or one that a
      load found. */
  ghost predicate StandsAt(load: (nat, nat) -> u32, k: nat, looked: seq<u32>, start: u32, delivered: seq<u32>, t: u32)
    requires 0 < k
  {
    || t == start || Seen(load, k, looked, t)
    || (delivered != [] && t == Succ(delivered[|delivered| - 1]))
  }

  lemma StandsOn(load: (nat, nat) -> u32, k: nat, looked: seq<u32>, start: u32, delivered: seq<u32>, t: u32, u: u32)
    requires 0 < k && StandsAt(load, k, looked, start, delivered, t)
    ensures StandsAt(load, k, looked + [u], start, delivered, t)
  {
    hide Residue, Succ;
    if Seen(load, k, looked, t) {
      var n: nat :| n < |looked| && looked[n] == t && load(n, Residue(t, k)) == t;
      assert (looked + [u])[n] == t;
    }
  }

  lemma StandsAfter(load: (nat, nat) -> u32, k: nat, looked: seq<u32>, start: u32, delivered: seq<u32>, t: u32)
    requires 0 < k
    ensures StandsAt(load, k, looked, start, delivered + [t], Succ(t))
    ensures Seen(load, k, looked, t) ==> StandsAt(load, k, looked, start, delivered, t)
    ensures StandsAt(load, k, looked, start, delivered, start)
  {
  }

  /** One load more, for ticket t. */
  lemma LookOnce(load: (nat, nat) -> u32, k: nat, looked: seq<u32>, t: u32, start: u32, b: int, delivered: seq<u32>)
    requires 0 < k && Accounted(load, k, looked, start, b, delivered) && AllSeen(load, k, looked, delivered)
    ensures var now := looked + [t];
            && Accounted(load, k, now, start, b, delivered) && AllSeen(load, k, now, delivered)
            && if load(|looked|, Residue(t, k)) == t then Seen(load, k, now, t) else Missed(load, k, now, t)
  {
    hide Ahead, Residue;
    var now := looked + [t];
    assert now[|looked|] == t;
    forall x: u32 | Missed(load, k, looked, x) ensures Missed(load, k, now, x) {
      var n: nat :| n < |looked| && looked[n] == x && load(n, Residue(x, k)) != x;
      assert now[n] == x;
    }
    forall x: u32 | Seen(load, k, looked, x) ensures Seen(load, k, now, x) {
      var n: nat :| n < |looked| && looked[n] == x && load(n, Residue(x, k)) == x;
      assert now[n] == x;
    }
  }

  lemma AccountOne(load: (nat, nat) -> u32, k: nat, looked: seq<u32>, start: u32, t: u32, was: seq<u32>, now: seq<u32>)
    requires 0 < k && was <= now
    requires Accounted(load, k, looked, start, Ahead(start, t), was)
    requires t in now || Missed(load, k, looked, t)
    ensures Accounted(load, k, looked, start, Ahead(start, t) + 1, now)
  {
    hide Ahead, Residue, Missed;
    forall x: u32 | Ahead(start, x) < Ahead(start, t) + 1
      ensures x in now || Missed(load, k, looked, x)
    {
      if Ahead(start, x) == Ahead(start, t) {
        AheadInjective(start, x, t);
      } else if x in was {
        var i :| 0 <= i < |was| && was[i] == x;
        assert now[i] == x;
      }
    }
  }

  /** Whatever the slots do, a pass with d tickets up to the hint ends after at most d + 1
      turns of the outer loop and d tests of the inner one in total, one load for each, and
      delivers tickets in strictly ascending order, none beyond the hint, and never moves
      backwards. It ends where it began, one past its last delivery, or at a ticket that one of
      its loads found. It delivers only what one of its loads found in the ticket's slot, and for
      each ticket up to the hint that it did not deliver it made a load that missed it. */
  method SkipAhead(k: nat, hint: u32, start: u32, load: (nat, nat) -> u32)
    returns (expected: u32, delivered: seq<u32>, outer: nat, tests: nat, looked: seq<u32>)
    requires 0 < k
    ensures outer <= Max(Dist(hint, start) + 1, 0) && tests <= Max(Dist(hint, start), 0) && |looked| == outer + tests
    ensures LooksWithin(start, Dist(hint, start), looked)
    ensures Ahead(start, expected) <= Max(Dist(hint, start) + 1, 0)
    ensures forall i, j :: 0 <= i < j < |delivered| ==> Ahead(start, delivered[i]) < Ahead(start, delivered[j])
    ensures forall i :: 0 <= i < |delivered| ==>
              Ahead(start, delivered[i]) <= Dist(hint, start) && Ahead(start, delivered[i]) < Ahead(start, expected)
    ensures AllSeen(load, k, looked, delivered)
    ensures StandsAt(load, k, looked, start, delivered, expected)
    ensures Accounted(load, k, looked, start, Dist(hint, start) + 1, delivered)
  {
    hide Wrap, Succ, Signed, Ahead, Residue, Dist, Accounted, Missed, Seen, AllSeen, LooksWithin, StandsAt;
    expected, delivered, outer, tests, looked := start, [], 0, 0, [];
    ghost var d := Dist(hint, start);
    NothingAccounted(load, k, start, d);
    StandsAfter(load, k, looked, start, delivered, start);
    while Dist(hint, expected) >= 0
      invariant d < 0 ==> expected == start
      invariant Ahead(start, expected) <= Max(d + 1, 0)
      invariant d >= 0 ==> Dist(hint, expected) == d - Ahead(start, expected)
      invariant outer <= Ahead(start, expected) && tests <= Ahead(start, expected) && tests <= Max(d, 0)
      invariant forall i, j :: 0 <= i < j < |delivered| ==> Ahead(start, delivered[i]) < Ahead(start, delivered[j])
      invariant forall i :: 0 <= i < |delivered| ==>
                  Ahead(start, delivered[i]) <= d && Ahead(start, delivered[i]) < Ahead(start, expected)
      invariant |looked| == outer + tests && LooksWithin(start, d, looked)
      invariant AllSeen(load, k, looked, delivered) && StandsAt(load, k, looked, start, delivered, expected)
      invariant Accounted(load, k, looked, start, Ahead(start, expected), delivered)
      decreases d - Ahead(start, expected)
    {
      outer := outer + 1;
      StepsAhead(hint, start, expected);
      var found := load(|looked|, Residue(expected, k));
      LookOnce(load, k, looked, expected, start, Ahead(start, expected), delivered);
      LookWithin(start, d, looked, expected);
      StandsOn(load, k, looked, start, delivered, expected, expected);
      looked := looked + [expected];
      if found == expected {
        AccountOne(load, k, looked, start, expected, delivered, delivered + [expected]);
        DeliverOne(load, k, looked, delivered, expected);
        StandsAfter(load, k, looked, start, delivered, expected);
        delivered := delivered + [expected];
        expected := Succ(expected);
        continue;
      }
      AccountOne(load, k, looked, start, expected, delivered, delivered);
      var scan := Succ(expected);
      var healed := false;
      ghost var before := tests;
      while Dist(hint, scan) >= 0
        invariant !healed
        invariant Ahead(start, expected) < Ahead(start, scan) <= d + 1
        invariant Dist(hint, scan) == d - Ahead(start, scan)
        invariant tests == before + (Ahead(start, scan) - Ahead(start, expected) - 1)
        invariant |looked| == outer + tests && LooksWithin(start, d, looked)
        invariant AllSeen(load, k, looked, delivered) && StandsAt(load, k, looked, start, delivered, expected)
        invariant Accounted(load, k, looked, start, Ahead(start, scan), delivered)
        decreases d - Ahead(start, scan)
      {
        StepsAhead(hint, start, scan);
        found := load(|looked|, Residue(scan, k));
        LookOnce(load, k, looked, scan, start, Ahead(start, scan), delivered);
        LookWithin(start, d, looked, scan);
        StandsOn(load, k, looked, start, delivered, expected, scan);
        looked, tests := looked + [scan], tests + 1;
        if found == scan {
          StandsAfter(load, k, looked, start, delivered, scan);
          healed := true;
          break;
        }
        AccountOne(load, k, looked, start, scan, delivered, delivered);
        scan := Succ(scan);
      }
      if !healed {
        AccountBelow(load, k, looked, start, Ahead(start, scan), d + 1, delivered);
        return;
      }
      expected := scan;
    }
    AccountBelow(load, k, looked, start, Ahead(start, expected), d + 1, delivered);
  }

  lemma NothingAccounted(load: (nat, nat) -> u32, k: nat, start: u32, d: int)
    requires 0 < k
    ensures Ahead(start, start) == 0 && Accounted(load, k, [], start, 0, [])
    ensures AllSeen(load, k, [], []) && LooksWithin(start, d, [])
  {
  }

  lemma AccountBelow(load: (nat, nat) -> u32, k: nat, looked: seq<u32>, start: u32, b: int, c: int, delivered: seq<u32>)
    requires 0 < k && Accounted(load, k, looked, start, b, delivered)
    ensures c <= b || c <= 0 ==> Accounted(load, k, looked, start, c, delivered)
  {
  }

  lemma StepsAhead(hint: u32, start: u32, t: u32)
    requires Dist(hint, start) >= 0 && Ahead(start, t) <= Dist(hint, start)
    ensures Ahead(start, Succ(t)) == Ahead(start, t) + 1
    ensures Dist(hint, Succ(t)) == Dist(hint, start) - Ahead(start, Succ(t))
  {
    AheadStep(start, t);
    AheadOfDist(hint, start, Succ(t));
  }
}
