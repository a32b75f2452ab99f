/** Which windows of consecutive 32-bit tickets are sure to fall into distinct slots,
    counter wrap included. */
module Windows {
  import opened Words

  const BLOCK_SLOTS: nat := 8
  const NET_SLOTS: nat := 24

  /** Every `w` consecutive tickets, wherever the window starts, use `w` different slots. */
  ghost predicate DistinctWindows(k: nat, w: nat)
    requires 0 < k
  {
    forall a: int, b: int :: a < b < a + w ==> SlotOf(a, k) != SlotOf(b, k)
  }

  /** The remainder of 2^32 is where a capacity loses slots at the wrap. */
  function SafeWindow(k: nat): nat
    requires 0 < k
  {
    if WholeLaps(k) then k else TWO32 % k
  }

  lemma AcrossWrap(a: int, b: int, k: nat)
    requires 0 < k < TWO32
    requires a < b < a + SafeWindow(k)
    ensures SlotOf(a, k) != SlotOf(b, k)
  {
    var x, y, r := Wrap(a), Wrap(b), TWO32 % k;
    assert SafeWindow(k) <= k;
    if x < y {
      assert y - x == b - a;
      ResidueInjective(x, y, k);
    } else {
      assert y + TWO32 - x == b - a;
      assert TWO32 == (TWO32 / k) * k + r;
      if Residue(y, k) == Residue(x, k) {
        // y - x is a multiple of k, and so is (y - x) + (TWO32 - r)
        assert (b - a) - r == (y / k - x / k + TWO32 / k) * k;
        SmallMultiple(y / k - x / k + TWO32 / k, k);
      }
    }
  }

  /** One ticket further and a window can start at a multiple of k whose last ticket
      shares slot 0 with it: 0 and k, or the last multiple of k before the wrap and 2^32. */
  lemma CollisionBeyond(k: nat) returns (a: int, b: int)
    requires 0 < k < TWO32
    ensures b == a + SafeWindow(k) && SlotOf(a, k) == SlotOf(b, k)
    ensures SafeWindow(k) > 0
  {
    if WholeLaps(k) {
      a, b := 0, k;
      ResidueOf(k, 1, 0, k);
      assert Wrap(b) == k;
    } else {
      a, b := TWO32 - TWO32 % k, TWO32;
      ResidueOf(a, TWO32 / k, 0, k);
      assert Wrap(a) == a && Wrap(b) == 0;
    }
  }

  /** Exactly the windows of up to SafeWindow(k) tickets are collision-free. */
  lemma SafeWindowIsExact(k: nat, w: nat)
    requires 0 < k < TWO32
    ensures DistinctWindows(k, w) <==> w <= SafeWindow(k)
  {
    if w <= SafeWindow(k) {
      forall a: int, b: int | a < b < a + w
        ensures SlotOf(a, k) != SlotOf(b, k)
      {
        AcrossWrap(a, b, k);
      }
    } else {
      var a, b := CollisionBeyond(k);
      assert a < b < a + w;
    }
  }

  /** The two rings: the block ring never loses a slot; the net ring keeps only windows
      of 16 apart once the counter wraps, although away from the wrap 24 are safe. */
  lemma RingWindows(w: nat)
    ensures DistinctWindows(BLOCK_SLOTS, w) <==> w <= 8
    ensures DistinctWindows(NET_SLOTS, w) <==> w <= 16
    ensures forall a: int, b: int :: 0 <= a < b < TWO32 && b < a + 24 ==> SlotOf(a, NET_SLOTS) != SlotOf(b, NET_SLOTS)
  {
    SafeWindowIsExact(BLOCK_SLOTS, w);
    SafeWindowIsExact(NET_SLOTS, w);
  }
}
