/** The net tenant's hook as one undivided call, with the other hooks' hint updates that
    land between its loads and its swaps as an argument. */
module NetLane {
  import opened Words
  import opened SlotRing
  import NetHook

  /** What the hint held before the i-th swap: what the hook saw first, or what the swap
      before it met. */
  function Seen(cur: u32, others: seq<u32>, i: nat): u32
    requires i <= |others|
  {
    if i == 0 then cur else others[i - 1]
  }

  /** The first c swaps each met a hint that had changed since the hook's last look, and the
      next one, if anybody meddles with it at all, does not. */
  ghost predicate FirstRepeat(cur: u32, others: seq<u32>, c: nat) {
    && c <= |others|
    && (forall j: nat :: j < c ==> others[j] != Seen(cur, others, j))
    && (c < |others| ==> others[c] == Seen(cur, others, c))
  }

  lemma OneRepeat(cur: u32, others: seq<u32>, c: nat)
    requires others != [] && others[0] != cur && FirstRepeat(others[0], others[1..], c)
    ensures FirstRepeat(cur, others, c + 1)
  {
    forall j: nat | j < c + 1 ensures others[j] != Seen(cur, others, j) {
      if j > 0 {
        assert others[1..][j - 1] != Seen(others[0], others[1..], j - 1);
      }
    }
  }

  /** How often a hook that last saw `cur` fails, when the i-th of `others` is what the hint
      holds at its i-th swap: as long as each differs from the one it saw before. */
  function Collisions(cur: u32, others: seq<u32>): (c: nat)
    ensures FirstRepeat(cur, others, c)
    decreases |others|
  {
    if others == [] || others[0] == cur then 0 else
      OneRepeat(cur, others, Collisions(others[0], others[1..]));
      1 + Collisions(others[0], others[1..])
  }

  class Lane {
    var wrIdx: u32
    var dispenser: u32
    const slots: array<Slot>

    constructor (width: nat)
      ensures fresh(slots) && slots[..] == ZeroPage(NetHook.CAPACITY, width).slots && wrIdx == dispenser == 0
    {
      wrIdx, dispenser := 0, 0;
      slots := new Slot[NetHook.CAPACITY](_ => Slot(Zeros(width), 0));
    }

    /** The hook draws a ticket, fills and stamps its slot, and leaves the hint at one plus
        its slot index; it fails exactly as often as others changed the hint under it. */
    method PacketHook(metric: Metric, others: seq<u32>) returns (ticket: u32, fails: nat)
      requires slots.Length == NetHook.CAPACITY
      modifies this`wrIdx, this`dispenser, slots
      ensures ticket == old(dispenser) && dispenser == Succ(ticket)
      ensures slots[..] == old(slots[..])[NetHook.SlotIndex(ticket) := Slot(metric, ticket)]
      ensures wrIdx == NetHook.SlotIndex(ticket) + 1
      ensures fails == Collisions(old(wrIdx), others) && FirstRepeat(old(wrIdx), others, fails)
    {
      ticket := dispenser;
      dispenser := Succ(dispenser);
      var slot := NetHook.SlotIndex(ticket);
      ghost var pool := slots[..];
      slots[slot] := slots[slot].(fields := metric);
      slots[slot] := slots[slot].(ticket := ticket);
      assert slots[..] == pool[slot := Slot(metric, ticket)];
      var currentWr := wrIdx;
      var n := 0;
      fails := 0;
      while NetHook.GuardValue(slot, currentWr) >= 0
        invariant slots[..] == pool[slot := Slot(metric, ticket)] && dispenser == Succ(ticket)
        invariant currentWr == wrIdx && n <= |others|
        invariant fails + Collisions(currentWr, others[n..]) == Collisions(old(wrIdx), others)
        decreases |others| - n
      {
        var expectedVal := currentWr;
        if n < |others| {
          wrIdx := others[n];
          assert others[n..][1..] == others[n + 1..];
          n := n + 1;
        }
        currentWr := wrIdx;
        if wrIdx == expectedVal {
          wrIdx := slot + 1;
        }
        if currentWr == expectedVal {
          break;
        }
        fails := fails + 1;
      }
    }
  }
}
