/** 32-bit words as the shared page uses them: unsigned wrap-around, the cast to a
    signed distance, and the slot index of a ticket. */
module Words {

  const TWO31: int := 0x8000_0000
  const TWO32: int := 0x1_0000_0000

  type u32 = x: int | 0 <= x < 0x1_0000_0000

  function Wrap(x: int): u32 {
    x % 0x1_0000_0000
  }

  /** `t++` on a u32. */
  function Succ(t: u32): u32 {
    if t == 0xFFFF_FFFF then 0 else t + 1
  }

  lemma SuccIsNext(t: int)
    ensures Succ(Wrap(t)) == Wrap(t + 1)
  {
  }

  /** The cast of a u32 to telemetry_s32. */
  function Signed(x: u32): int {
    if x < 0x8000_0000 then x else x - 0x1_0000_0000
  }

  /** `(telemetry_s32)(a - b)`: the cyclic distance from b up to a. */
  function Dist(a: u32, b: u32): int {
    Signed(Wrap(a - b))
  }

  function Max(a: int, b: int): int {
    if a < b then b else a
  }

  function Min(a: int, b: int): int {
    if a < b then a else b
  }

  lemma WrapOfDifference(a: int, b: int)
    ensures Wrap(Wrap(a) - Wrap(b)) == Wrap(a - b)
  {
  }

  /** The signed 32-bit distance is the true distance of two unbounded ticket numbers
      exactly when that distance fits a signed word. */
  lemma DistIsTrueDistance(a: int, b: int)
    ensures Dist(Wrap(a), Wrap(b)) == a - b <==> -TWO31 <= a - b < TWO31
  {
    WrapOfDifference(a, b);
    SignedOfWrap(a - b);
  }

  lemma SignedOfWrap(x: int)
    ensures Signed(Wrap(x)) == x <==> -TWO31 <= x < TWO31
  {
  }

  /** While the distance to the hint is not negative, one ticket on is one step closer. */
  lemma DistStep(hint: u32, t: u32)
    requires Dist(hint, t) >= 0
    ensures Dist(hint, Succ(t)) == Dist(hint, t) - 1
  {
  }

  // ---------- remainders by a variable modulus ----------

  /** `a % m`. Named, so that proofs can hide the division and use the lemmas below. */
  function Residue(a: int, m: nat): (i: nat)
    requires 0 < m
    ensures i < m
  {
    a % m
  }

  lemma SmallMultiple(d: int, m: int)
    requires 0 < m && -m < d * m < m
    ensures d == 0
  {
  }

  lemma ResidueOf(a: int, q: int, r: int, m: nat)
    requires 0 <= r < m && a == q * m + r
    ensures Residue(a, m) == r
  {
    assert (q - a / m) * m == a % m - r;
    SmallMultiple(q - a / m, m);
  }

  lemma ResidueShift(a: int, m: nat)
    requires 0 < m
    ensures Residue(a + m, m) == Residue(a, m) == Residue(a - m, m)
  {
    var q, r := a / m, a % m;
    assert a + m == (q + 1) * m + r;
    ResidueOf(a + m, q + 1, r, m);
    assert a - m == (q - 1) * m + r;
    ResidueOf(a - m, q - 1, r, m);
  }

  lemma ResidueSmall(a: nat, m: nat)
    requires a < m
    ensures Residue(a, m) == a
  {
    ResidueOf(a, 0, a, m);
  }

  /** Within a window of m numbers, equal remainders mean equal numbers. */
  lemma ResidueInjective(a: int, b: int, m: nat)
    requires 0 < m && a < b + m && b < a + m
    ensures Residue(a, m) == Residue(b, m) ==> a == b
  {
    if a % m == b % m {
      assert b - a == (b / m - a / m) * m;
      SmallMultiple(b / m - a / m, m);
    }
  }

  lemma ResidueSucc(a: int, m: nat)
    requires 0 < m
    ensures Residue(Residue(a, m) + 1, m) == Residue(a + 1, m)
  {
    var q, r := a / m, a % m;
    if r + 1 < m {
      assert a + 1 == q * m + (r + 1);
      ResidueOf(a + 1, q, r + 1, m);
      ResidueSmall(r + 1, m);
    } else {
      assert a + 1 == (q + 1) * m + 0;
      ResidueOf(a + 1, q + 1, 0, m);
      ResidueOf(m, 1, 0, m);
    }
  }

  /** Every residue has a number in the m numbers below n. */
  lemma ResidueInWindow(n: int, m: nat, i: nat) returns (u: int)
    requires i < m
    ensures n - m <= u < n && Residue(u, m) == i
  {
    u := n - 1 - (n - 1 - i) % m;
    ResidueOf(u, (n - 1 - i) / m, i, m);
  }

  // ---------- slot indices ----------

  /** `ticket % CAPACITY` for the reservation number t, whose ticket is the word Wrap(t). */
  function SlotOf(t: int, k: nat): (i: nat)
    requires 0 < k
    ensures i < k
  {
    Residue(Wrap(t), k)
  }

  /** The capacity divides 2^32, so that slot numbering continues smoothly over the wrap. */
  predicate WholeLaps(k: nat)
    requires 0 < k
  {
    Residue(TWO32, k) == 0
  }

  /** Slot indices do not notice the word width when the capacity divides 2^32, or before
      the ticket counter wraps. */
  lemma SlotOfPlain(t: int, k: nat)
    requires 0 < k
    requires WholeLaps(k) || 0 <= t < TWO32
    ensures SlotOf(t, k) == Residue(t, k)
  {
    if !(0 <= t < TWO32) {
      var q, r := t / TWO32, t % TWO32;
      var c := TWO32 / k;
      assert TWO32 == c * k;
      var q', r' := r / k, r % k;
      assert t == q * (c * k) + (q' * k + r');
      assert q * (c * k) == (q * c) * k;
      assert t == (q * c + q') * k + r';
      assert Residue(r, k) == r';
      ResidueOf(t, q * c + q', r', k);
    }
  }
}
