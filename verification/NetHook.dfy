/** The net tenant's hook: ticket dispenser, and the compare-and-swap loop that moves the
    write-index hint. Hooks arrive at any time and run interleaved, one shared access per
    step. */
module NetHook {
  import opened Words
  import Windows

  const CAPACITY: nat := Windows.NET_SLOTS

  datatype Pc = Arrived | Drawn | Trying | Succeeded

  /** `cur` is current_wr. History: `fails` counts this hook's failed swaps, `seen` is how
      many swaps had succeeded at its last look at the hint, `rank` how many before its own. */
  datatype Hook = Hook(pc: Pc, ticket: u32, cur: u32, fails: nat, seen: nat, rank: nat)

  /** History: `wins` counts successful swaps, `last` is the ticket of the latest one, and
      `exits` counts hooks that left the loop by its guard. */
  datatype Lane = Lane(dispenser: u32, wrIdx: u32, hooks: seq<Hook>, wins: nat, last: u32, exits: int)

  datatype Act = Arrive | Draw(i: nat) | Load(i: nat) | Attempt(i: nat) | Leave(i: nat)

  function SlotIndex(ticket: u32): (i: u32)
    ensures i < CAPACITY
  {
    Residue(ticket, CAPACITY)
  }

  /** The left side of the loop guard: u32 difference, widened to 64 bits for the addition,
      cut to s32, and widened again to the unsigned 64-bit modulus. */
  function GuardValue(slot: u32, cur: u32): int {
    var sum := Wrap(slot - cur) + CAPACITY;
    (Signed(Wrap(sum)) % 0x1_0000_0000_0000_0000) % CAPACITY
  }

  predicate Enabled(l: Lane, a: Act) {
    a.Arrive? ||
    (a.i < |l.hooks| &&
     var h := l.hooks[a.i];
     match a
     case Draw(i) => h.pc == Arrived
     case Load(i) => h.pc == Drawn
     case Attempt(i) => h.pc == Trying && GuardValue(SlotIndex(h.ticket), h.cur) >= 0
     case Leave(i) => h.pc == Trying && GuardValue(SlotIndex(h.ticket), h.cur) < 0)
  }

  const NEWCOMER := Hook(Arrived, 0, 0, 0, 0, 0)

  function Apply(l: Lane, a: Act): Lane
    requires Enabled(l, a)
  {
    match a
    case Arrive =>
      l.(hooks := l.hooks + [NEWCOMER])
    case Draw(i) =>
      l.(dispenser := Succ(l.dispenser), hooks := l.hooks[i := l.hooks[i].(pc := Drawn, ticket := l.dispenser)])
    case Load(i) =>
      l.(hooks := l.hooks[i := l.hooks[i].(pc := Trying, cur := l.wrIdx, seen := l.wins)])
    case Attempt(i) =>
      var h := l.hooks[i];
      if l.wrIdx == h.cur then
        l.(wrIdx := SlotIndex(h.ticket) + 1, wins := l.wins + 1, last := h.ticket,
           hooks := l.hooks[i := h.(pc := Succeeded, rank := l.wins)])
      else
        l.(hooks := l.hooks[i := h.(cur := l.wrIdx, fails := h.fails + 1, seen := l.wins)])
    case Leave(i) =>
      l.(exits := l.exits + 1)
  }

  /** The zeroed page, before any hook. */
  const START := Lane(0, 0, [], 0, 0, 0)

  ghost predicate Run(tr: seq<Lane>, acts: seq<Act>) {
    && |tr| == |acts| + 1 && tr[0] == START
    && forall m :: 0 <= m < |acts| ==> Enabled(tr[m], acts[m]) && tr[m + 1] == Apply(tr[m], acts[m])
  }

  // ---------- invariants ----------

  ghost predicate HookInv(l: Lane, h: Hook) {
    && h.fails <= h.seen <= l.wins
    && (h.pc == Arrived || h.pc == Drawn ==> h.fails == 0)
    && (h.pc == Trying && h.seen == l.wins ==> h.cur == l.wrIdx)
    && (h.pc == Succeeded ==> h.seen <= h.rank < l.wins)
  }

  ghost predicate HasRank(l: Lane, r: int) {
    exists i :: 0 <= i < |l.hooks| && l.hooks[i].pc == Succeeded && l.hooks[i].rank == r
  }

  /** Each success has its own rank. */
  ghost predicate Ranked(l: Lane) {
    && (forall i, j :: 0 <= i < j < |l.hooks| && l.hooks[i].pc == Succeeded && l.hooks[j].pc == Succeeded ==>
          l.hooks[i].rank != l.hooks[j].rank)
    && forall r: nat :: r < l.wins ==> HasRank(l, r)
  }

  ghost predicate Inv(l: Lane) {
    && (forall i :: 0 <= i < |l.hooks| ==> HookInv(l, l.hooks[i]))
    && Ranked(l)
    && l.exits == 0
    && l.wrIdx == if l.wins == 0 then 0 else SlotIndex(l.last) + 1
  }

  /** The loop guard never lets a hook leave: it compares an unsigned value with zero. */
  lemma GuardAlwaysHolds(slot: u32, cur: u32)
    ensures GuardValue(slot, cur) >= 0
  {
  }

  lemma StepInv(l: Lane, a: Act)
    requires Inv(l) && Enabled(l, a)
    ensures Inv(Apply(l, a)) && l.wins <= Apply(l, a).wins && |l.hooks| <= |Apply(l, a).hooks|
  {
    var l' := Apply(l, a);
    if !a.Arrive? {
      GuardAlwaysHolds(SlotIndex(l.hooks[a.i].ticket), l.hooks[a.i].cur);
      assert HookInv(l, l.hooks[a.i]);
    }
    hide GuardValue, SlotIndex;
    forall r: nat | r < l'.wins ensures HasRank(l', r) {
      if r < l.wins {
        assert HasRank(l, r);
        var i :| 0 <= i < |l.hooks| && l.hooks[i].pc == Succeeded && l.hooks[i].rank == r;
        assert l'.hooks[i] == l.hooks[i];
      } else {
        assert l'.hooks[a.i].pc == Succeeded && l'.hooks[a.i].rank == r;
      }
    }
  }

  lemma {:induction false} RunInv(tr: seq<Lane>, acts: seq<Act>, m: nat)
    requires Run(tr, acts) && m < |tr|
    ensures Inv(tr[m])
  {
    if m > 0 {
      RunInv(tr, acts, m - 1);
      StepInv(tr[m - 1], acts[m - 1]);
    }
  }

  // ---------- lock-freedom ----------

  /** A failed swap means that some other hook succeeded since this one's last look. */
  lemma FailureMeansProgress(l: Lane, i: nat) returns (j: nat)
    requires Inv(l) && Enabled(l, Attempt(i))
    requires Apply(l, Attempt(i)).hooks[i].fails > l.hooks[i].fails
    ensures j != i && j < |l.hooks| && l.hooks[j].pc == Succeeded && l.hooks[i].seen <= l.hooks[j].rank
  {
    var r := l.hooks[i].seen;
    assert HookInv(l, l.hooks[i]) && HasRank(l, r);
    j :| 0 <= j < |l.hooks| && l.hooks[j].pc == Succeeded && l.hooks[j].rank == r;
  }

  /** How many swaps had succeeded before the hook's own, or so far. */
  function Before(l: Lane, h: Hook): nat {
    if h.pc == Succeeded then h.rank else l.wins
  }

  predicate InLoop(h: Hook) {
    h.pc == Trying || h.pc == Succeeded
  }

  /** Every step keeps a hook's failures within the swaps it saw succeed since w. */
  lemma FailsWithinSeen(l: Lane, a: Act, i: nat, w: nat)
    requires Inv(l) && Enabled(l, a) && i < |l.hooks| && InLoop(l.hooks[i]) && w + l.hooks[i].fails <= l.hooks[i].seen
    ensures i < |Apply(l, a).hooks|
    ensures var h := Apply(l, a).hooks[i]; InLoop(h) && w + h.fails <= h.seen
  {
    assert HookInv(l, l.hooks[i]);
    hide GuardValue, SlotIndex;
  }

  lemma {:induction false} SeenSinceLoad(tr: seq<Lane>, acts: seq<Act>, a: nat, m: nat, i: nat)
    requires Run(tr, acts) && a < m < |tr| && acts[a] == Load(i)
    ensures i < |tr[m].hooks| && InLoop(tr[m].hooks[i]) && tr[a].wins + tr[m].hooks[i].fails <= tr[m].hooks[i].seen
    decreases m
  {
    RunInv(tr, acts, m - 1);
    if a == m - 1 {
      assert HookInv(tr[a], tr[a].hooks[i]);
    } else {
      SeenSinceLoad(tr, acts, a, m - 1, i);
      FailsWithinSeen(tr[m - 1], acts[m - 1], i, tr[a].wins);
    }
  }

  /** In any run a hook fails at most as often as others succeeded between its own load of
      the hint and its own success, or between its load and now. */
  lemma FailuresSinceLoad(tr: seq<Lane>, acts: seq<Act>, a: nat, m: nat, i: nat)
    requires Run(tr, acts) && a < m < |tr| && acts[a] == Load(i)
    ensures i < |tr[m].hooks|
    ensures tr[m].hooks[i].fails <= Before(tr[m], tr[m].hooks[i]) - tr[a].wins
    ensures tr[m].hooks[i].pc == Succeeded ==> tr[m].hooks[i].rank < tr[m].wins
  {
    SeenSinceLoad(tr, acts, a, m, i);
    RunInv(tr, acts, m);
    assert HookInv(tr[m], tr[m].hooks[i]);
  }

  // ---------- when a swap succeeds ----------

  /** Moment l is hook i's last look at the hint before moment m: its load, or a swap. */
  ghost predicate LastLook(acts: seq<Act>, l: nat, m: nat, i: nat) {
    && l < m <= |acts| && (acts[l] == Load(i) || acts[l] == Attempt(i))
    && forall x :: l < x < m ==> acts[x] != Load(i) && acts[x] != Attempt(i)
  }

  lemma LookStep(l: Lane, a: Act, i: nat)
    requires Enabled(l, a) && i < |Apply(l, a).hooks| && Apply(l, a).hooks[i].pc == Trying
    ensures if a == Load(i) || a == Attempt(i) then Apply(l, a).hooks[i].cur == l.wrIdx
            else i < |l.hooks| && l.hooks[i].pc == Trying && Apply(l, a).hooks[i].cur == l.hooks[i].cur
  {
    hide GuardValue, SlotIndex;
  }

  lemma {:induction false} LooksBack(tr: seq<Lane>, acts: seq<Act>, m: nat, i: nat) returns (l: nat)
    requires Run(tr, acts) && m < |tr| && i < |tr[m].hooks| && tr[m].hooks[i].pc == Trying
    ensures LastLook(acts, l, m, i) && tr[m].hooks[i].cur == tr[l].wrIdx
  {
    LookStep(tr[m - 1], acts[m - 1], i);
    hide Enabled, Apply;
    if acts[m - 1] == Load(i) || acts[m - 1] == Attempt(i) {
      l := m - 1;
    } else {
      l := LooksBack(tr, acts, m - 1, i);
    }
  }

  lemma AttemptOutcome(l: Lane, i: nat)
    requires Enabled(l, Attempt(i))
    ensures var h, l' := l.hooks[i], Apply(l, Attempt(i));
            && h.pc == Trying && |l'.hooks| == |l.hooks|
            && (l'.hooks[i].pc == Succeeded <==> l.wrIdx == h.cur)
            && (l'.hooks[i].pc == Succeeded ==>
                  l'.wrIdx == h.ticket % 24 + 1 && l'.wins == l.wins + 1 && l'.hooks[i].fails == h.fails)
            && (l'.hooks[i].pc != Succeeded ==>
                  l'.wrIdx == l.wrIdx && l'.wins == l.wins && l'.hooks[i].fails == h.fails + 1)
  {
    hide GuardValue;
  }

  /** A swap succeeds if and only if the hint holds what it held at this hook's last look; it
      then leaves one plus the slot of the hook's ticket there, and otherwise the hint is left
      alone and the failure counted. */
  lemma SwapExactly(tr: seq<Lane>, acts: seq<Act>, m: nat, i: nat) returns (l: nat)
    requires Run(tr, acts) && m < |acts| && acts[m] == Attempt(i)
    ensures LastLook(acts, l, m, i) && i < |tr[m].hooks| == |tr[m + 1].hooks|
    ensures tr[m + 1].hooks[i].pc == Succeeded <==> tr[m].wrIdx == tr[l].wrIdx
    ensures tr[m].wrIdx == tr[l].wrIdx ==>
              tr[m + 1].wrIdx == tr[m].hooks[i].ticket % 24 + 1 && tr[m + 1].hooks[i].fails == tr[m].hooks[i].fails
    ensures tr[m].wrIdx != tr[l].wrIdx ==>
              tr[m + 1].wrIdx == tr[m].wrIdx && tr[m + 1].hooks[i].fails == tr[m].hooks[i].fails + 1
  {
    assert Enabled(tr[m], acts[m]) && tr[m + 1] == Apply(tr[m], acts[m]);
    AttemptOutcome(tr[m], i);
    hide Enabled, Apply;
    l := LooksBack(tr, acts, m, i);
  }

  lemma TicketStep(l: Lane, a: Act, i: nat)
    requires Enabled(l, a) && i < |Apply(l, a).hooks| && Apply(l, a).hooks[i].pc != Arrived
    ensures if a == Draw(i) then Apply(l, a).hooks[i].ticket == l.dispenser
            else i < |l.hooks| && l.hooks[i].pc != Arrived && Apply(l, a).hooks[i].ticket == l.hooks[i].ticket
  {
    hide GuardValue, SlotIndex;
  }

  /** A hook's ticket is what the dispenser held when it drew. */
  lemma {:induction false} TicketDrawn(tr: seq<Lane>, acts: seq<Act>, m: nat, i: nat) returns (d: nat)
    requires Run(tr, acts) && m < |tr| && i < |tr[m].hooks| && tr[m].hooks[i].pc != Arrived
    ensures d < m && acts[d] == Draw(i) && tr[m].hooks[i].ticket == tr[d].dispenser
  {
    TicketStep(tr[m - 1], acts[m - 1], i);
    hide Enabled, Apply;
    if acts[m - 1] == Draw(i) {
      d := m - 1;
    } else {
      d := TicketDrawn(tr, acts, m - 1, i);
    }
  }

  // ---------- a batch ----------

  /** No hook is under way. */
  ghost predicate Quiet(l: Lane) {
    forall i :: 0 <= i < |l.hooks| ==> l.hooks[i].pc == Succeeded
  }

  function Fails(hs: seq<Hook>): nat {
    if hs == [] then 0 else hs[0].fails + Fails(hs[1..])
  }

  /** The swaps that count against a hook of a batch that began after w of them. */
  function Budgets(l: Lane, w: nat, hs: seq<Hook>): int {
    if hs == [] then 0 else Before(l, hs[0]) - w + Budgets(l, w, hs[1..])
  }

  lemma {:induction false} FailsWithinBudget(l: Lane, w: nat, hs: seq<Hook>)
    requires forall i :: 0 <= i < |hs| ==> hs[i].fails <= Before(l, hs[i]) - w
    ensures Fails(hs) <= Budgets(l, w, hs)
  {
    if hs != [] {
      FailsWithinBudget(l, w, hs[1..]);
    }
  }

  /** One hook changed: the sum changes by that hook's difference. */
  lemma {:induction false} BudgetsUpdate(l: Lane, w: nat, hs: seq<Hook>, i: nat, h: Hook)
    requires i < |hs|
    ensures Budgets(l, w, hs[i := h]) == Budgets(l, w, hs) - Before(l, hs[i]) + Before(l, h)
  {
    if i == 0 {
      assert hs[i := h][1..] == hs[1..];
    } else {
      BudgetsUpdate(l, w, hs[1..], i - 1, h);
      assert hs[i := h][1..] == hs[1..][i - 1 := h];
    }
  }

  lemma {:induction false} BudgetsAppend(l: Lane, w: nat, hs: seq<Hook>, h: Hook)
    ensures Budgets(l, w, hs + [h]) == Budgets(l, w, hs) + Before(l, h) - w
  {
    if hs == [] {
      assert Budgets(l, w, [h]) == Before(l, h) - w + Budgets(l, w, []);
    } else {
      BudgetsAppend(l, w, hs[1..], h);
      assert (hs + [h])[1..] == hs[1..] + [h];
    }
  }

  function Pending(hs: seq<Hook>): nat {
    if hs == [] then 0 else (if hs[0].pc == Succeeded then 0 else 1) + Pending(hs[1..])
  }

  lemma {:induction false} PendingUpdate(hs: seq<Hook>, i: nat, h: Hook)
    requires i < |hs|
    ensures Pending(hs[i := h]) == Pending(hs) - (if hs[i].pc == Succeeded then 0 else 1)
                                   + (if h.pc == Succeeded then 0 else 1)
  {
    if i == 0 {
      assert hs[i := h][1..] == hs[1..];
    } else {
      PendingUpdate(hs[1..], i - 1, h);
      assert hs[i := h][1..] == hs[1..][i - 1 := h];
    }
  }

  lemma {:induction false} PendingAppend(hs: seq<Hook>, h: Hook)
    ensures Pending(hs + [h]) == Pending(hs) + if h.pc == Succeeded then 0 else 1
  {
    if hs == [] {
      assert Pending([h]) == (if h.pc == Succeeded then 0 else 1) + Pending([]);
    } else {
      PendingAppend(hs[1..], h);
      assert (hs + [h])[1..] == hs[1..] + [h];
    }
  }

  /** One more success raises the budget of every hook still pending. */
  lemma {:induction false} BudgetsWin(l: Lane, l': Lane, w: nat, hs: seq<Hook>)
    ensures l'.wins == l.wins + 1 ==> Budgets(l', w, hs) == Budgets(l, w, hs) + Pending(hs)
    ensures l'.wins == l.wins ==> Budgets(l', w, hs) == Budgets(l, w, hs)
  {
    if hs != [] {
      BudgetsWin(l, l', w, hs[1..]);
    }
  }

  /** 0 + 1 + ... + (w-1), and w for each of the n - w others. */
  function Total(n: int, w: int): int {
    w * (w - 1) / 2 + (n - w) * w
  }

  lemma SpreadStep(n: int, w: int)
    ensures Total(n, w + 1) == Total(n, w) + n - w - 1
    ensures Total(n + 1, w) == Total(n, w) + w
  {
    assert (w + 1) * w == w * (w - 1) + 2 * w;
    assert (n - (w + 1)) * (w + 1) == (n - w) * w + (n - w) - w - 1;
    assert (n + 1 - w) * w == (n - w) * w + w;
  }

  lemma SpreadBound(n: int, w: nat)
    requires w <= n
    ensures Total(n, w) <= n * (n - 1) / 2
  {
    assert n * (n - 1) - (w * (w - 1) + 2 * ((n - w) * w)) == (n - w) * (n - w - 1);
    NonNegativeProduct(n - w);
  }

  lemma NonNegativeProduct(d: nat)
    ensures d * (d - 1) >= 0
  {
  }

  /** The hooks from number q on are a batch that began when w swaps had succeeded and all
      hooks before it were done: how far they have failed, and what their budgets add up to. */
  ghost predicate Batch(l: Lane, q: nat, w: nat) {
    && q <= |l.hooks| && w <= l.wins
    && (forall i :: 0 <= i < q ==> l.hooks[i].pc == Succeeded)
    && (forall i :: q <= i < |l.hooks| && InLoop(l.hooks[i]) ==> w + l.hooks[i].fails <= l.hooks[i].seen)
  }

  ghost predicate Spread(l: Lane, q: nat, w: nat)
    requires q <= |l.hooks|
  {
    var hs := l.hooks[q..];
    Sums(l, w, hs, |hs| - (l.wins - w), Total(|hs|, l.wins - w))
  }

  lemma BatchStep(l: Lane, a: Act, q: nat, w: nat)
    requires Inv(l) && Batch(l, q, w) && Enabled(l, a)
    ensures Batch(Apply(l, a), q, w)
  {
    var l' := Apply(l, a);
    StepInv(l, a);
    hide Inv, GuardValue, SlotIndex;
    forall i | q <= i < |l'.hooks| && InLoop(l'.hooks[i]) ensures w + l'.hooks[i].fails <= l'.hooks[i].seen {
      if i < |l.hooks| && InLoop(l.hooks[i]) {
        FailsWithinSeen(l, a, i, w);
      } else {
        JustLoaded(l, a, i);
      }
    }
  }

  lemma JustLoaded(l: Lane, a: Act, i: nat)
    requires Inv(l) && Enabled(l, a) && i < |Apply(l, a).hooks| && InLoop(Apply(l, a).hooks[i])
    requires i < |l.hooks| ==> !InLoop(l.hooks[i])
    ensures Apply(l, a).hooks[i].fails == 0 && Apply(l, a).hooks[i].seen == l.wins
  {
    assert i < |l.hooks|;
    assert HookInv(l, l.hooks[i]);
  }

  lemma SumsAppend(l: Lane, l': Lane, w: nat, hs: seq<Hook>, p: int, b: int)
    requires l'.wins == l.wins && Sums(l, w, hs, p, b)
    ensures Sums(l', w, hs + [NEWCOMER], p + 1, b + l.wins - w)
  {
    PendingAppend(hs, NEWCOMER);
    BudgetsAppend(l', w, hs, NEWCOMER);
    BudgetsWin(l, l', w, hs);
  }

  lemma SpreadArrive(l: Lane, q: nat, w: nat)
    requires Batch(l, q, w) && Spread(l, q, w)
    ensures Spread(Apply(l, Arrive), q, w)
  {
    var l', hs, x := Apply(l, Arrive), l.hooks[q..], l.wins - w;
    assert l'.hooks[q..] == hs + [NEWCOMER];
    SumsAppend(l, l', w, hs, |hs| - x, Total(|hs|, x));
    SpreadStep(|hs|, x);
    hide Total, Sums, Batch;
  }

  /** What a step of hook i means to the counts: it is still pending and no swap succeeded,
      or its own did. */
  lemma MoveCounts(l: Lane, a: Act)
    requires Inv(l) && Enabled(l, a) && !a.Arrive?
    ensures a.i < |l.hooks| && l.hooks[a.i].pc != Succeeded
    ensures var l' := Apply(l, a);
            && a.i < |l'.hooks| && l'.hooks == l.hooks[a.i := l'.hooks[a.i]]
            && if l'.hooks[a.i].pc == Succeeded then l'.wins == l.wins + 1 && l'.hooks[a.i].rank == l.wins
               else l'.wins == l.wins
  {
    GuardAlwaysHolds(SlotIndex(l.hooks[a.i].ticket), l.hooks[a.i].cur);
    hide GuardValue, SlotIndex, Inv;
  }

  /** p of the hooks are pending, and their budgets add up to b. */
  ghost predicate Sums(l: Lane, w: nat, hs: seq<Hook>, p: int, b: int) {
    Pending(hs) == p && Budgets(l, w, hs) == b
  }

  lemma SumsUpdate(l: Lane, l': Lane, w: nat, hs: seq<Hook>, i: nat, h: Hook, p: int, b: int)
    requires i < |hs| && hs[i].pc != Succeeded && Sums(l, w, hs, p, b)
    requires if h.pc == Succeeded then l'.wins == l.wins + 1 && h.rank == l.wins else l'.wins == l.wins
    ensures if h.pc == Succeeded then Sums(l', w, hs[i := h], p - 1, b + p - 1) else Sums(l', w, hs[i := h], p, b)
  {
    PendingUpdate(hs, i, h);
    BudgetsUpdate(l', w, hs, i, h);
    BudgetsWin(l, l', w, hs);
  }

  lemma SpreadUpdate(l: Lane, l': Lane, w: nat, hs: seq<Hook>, i: nat, h: Hook)
    requires i < |hs| && hs[i].pc != Succeeded && w <= l.wins
    requires if h.pc == Succeeded then l'.wins == l.wins + 1 && h.rank == l.wins else l'.wins == l.wins
    requires Sums(l, w, hs, |hs| - (l.wins - w), Total(|hs|, l.wins - w))
    ensures Sums(l', w, hs[i := h], |hs| - (l'.wins - w), Total(|hs|, l'.wins - w))
  {
    var n, x := |hs|, l.wins - w;
    SumsUpdate(l, l', w, hs, i, h, n - x, Total(n, x));
    SpreadStep(n, x);
    hide Sums, Total;
    assert l'.wins - w == if h.pc == Succeeded then x + 1 else x;
  }

  lemma BatchPlace(l: Lane, q: nat, w: nat, i: nat)
    requires Batch(l, q, w) && i < |l.hooks| && l.hooks[i].pc != Succeeded
    ensures q <= i && w <= l.wins
  {
  }

  lemma SpreadMove(l: Lane, a: Act, q: nat, w: nat)
    requires Inv(l) && Batch(l, q, w) && Spread(l, q, w) && Enabled(l, a) && !a.Arrive?
    ensures Spread(Apply(l, a), q, w)
  {
    MoveCounts(l, a);
    BatchPlace(l, q, w, a.i);
    hide Inv, Apply, Enabled, Total, Batch, Sums;
    var l', hs := Apply(l, a), l.hooks[q..];
    var h' := l'.hooks[a.i];
    assert hs[a.i - q] == l.hooks[a.i];
    assert l'.hooks[q..] == hs[a.i - q := h'];
    SpreadUpdate(l, l', w, hs, a.i - q, h');
  }

  lemma {:induction false} RunBatch(tr: seq<Lane>, acts: seq<Act>, a: nat, m: nat)
    requires Run(tr, acts) && a <= m < |tr| && Quiet(tr[a])
    ensures Inv(tr[m]) && Batch(tr[m], |tr[a].hooks|, tr[a].wins) && Spread(tr[m], |tr[a].hooks|, tr[a].wins)
    decreases m
  {
    hide Inv, Batch, Spread, Enabled, Apply;
    RunInv(tr, acts, m);
    if a == m {
      BatchBegins(tr[a]);
    } else {
      RunBatch(tr, acts, a, m - 1);
      var q, w := |tr[a].hooks|, tr[a].wins;
      BatchStep(tr[m - 1], acts[m - 1], q, w);
      BatchSize(tr[m], q, w);
      if acts[m - 1].Arrive? {
        SpreadArrive(tr[m - 1], q, w);
      } else {
        SpreadMove(tr[m - 1], acts[m - 1], q, w);
      }
    }
  }

  lemma BatchBegins(l: Lane)
    requires Quiet(l)
    ensures Batch(l, |l.hooks|, l.wins) && Spread(l, |l.hooks|, l.wins)
  {
    assert l.hooks[|l.hooks|..] == [];
  }

  lemma BatchSize(l: Lane, q: nat, w: nat)
    requires Batch(l, q, w)
    ensures q <= |l.hooks|
  {
  }

  lemma BatchHook(l: Lane, q: nat, w: nat, i: nat)
    requires Inv(l) && Batch(l, q, w) && q <= i < |l.hooks|
    ensures l.hooks[i].fails <= Before(l, l.hooks[i]) - w
  {
    assert HookInv(l, l.hooks[i]);
  }

  lemma {:induction false} SomePending(hs: seq<Hook>, i: nat)
    requires i < |hs| && hs[i].pc != Succeeded
    ensures Pending(hs) >= 1
  {
    if i > 0 {
      SomePending(hs[1..], i - 1);
    }
  }

  /** A batch of n hooks that starts on any quiet lane: the hook that succeeds after r others
      of the batch has failed at most r times, r < n; and one that has not succeeded yet at
      most once per success in the batch so far, which are fewer than n. */
  lemma FailuresPerHook(tr: seq<Lane>, acts: seq<Act>, a: nat, m: nat, i: nat)
    requires Run(tr, acts) && a <= m < |tr| && Quiet(tr[a]) && |tr[a].hooks| <= i < |tr[m].hooks|
    ensures tr[m].hooks[i].fails <= Before(tr[m], tr[m].hooks[i]) - tr[a].wins < |tr[m].hooks| - |tr[a].hooks|
  {
    var l, q, w := tr[m], |tr[a].hooks|, tr[a].wins;
    RunBatch(tr, acts, a, m);
    BatchHook(l, q, w, i);
    assert HookInv(l, l.hooks[i]);
    if l.hooks[i].pc != Succeeded {
      assert l.hooks[q..][i - q] == l.hooks[i];
      SomePending(l.hooks[q..], i - q);
    }
  }

  lemma HooksWithinBudget(l: Lane, q: nat, w: nat)
    requires Inv(l) && Batch(l, q, w)
    ensures Fails(l.hooks[q..]) <= Budgets(l, w, l.hooks[q..])
  {
    forall i | 0 <= i < |l.hooks[q..]| ensures l.hooks[q..][i].fails <= Before(l, l.hooks[q..][i]) - w {
      BatchHook(l, q, w, q + i);
    }
    FailsWithinBudget(l, w, l.hooks[q..]);
  }

  lemma BudgetTotal(l: Lane, q: nat, w: nat)
    requires Batch(l, q, w) && Spread(l, q, w)
    ensures var n := |l.hooks| - q; Budgets(l, w, l.hooks[q..]) <= n * (n - 1) / 2
  {
    var hs := l.hooks[q..];
    assert Pending(hs) >= 0;
    SpreadBound(|hs|, l.wins - w);
  }

  /** At no time have the n hooks of a batch failed more than n(n-1)/2 times in total. */
  lemma TotalFailures(tr: seq<Lane>, acts: seq<Act>, a: nat, m: nat)
    requires Run(tr, acts) && a <= m < |tr| && Quiet(tr[a])
    ensures |tr[a].hooks| <= |tr[m].hooks|
    ensures var n := |tr[m].hooks| - |tr[a].hooks|; Fails(tr[m].hooks[|tr[a].hooks|..]) <= n * (n - 1) / 2
  {
    var q, w := |tr[a].hooks|, tr[a].wins;
    RunBatch(tr, acts, a, m);
    BatchSize(tr[m], q, w);
    hide Run, Quiet, Inv, Batch, Spread;
    HooksWithinBudget(tr[m], q, w);
    BudgetTotal(tr[m], q, w);
  }

  /** Over every run the hint is 0 or one plus the slot of the last successful swap, hence
      within 0..24. */
  lemma HintInRange(tr: seq<Lane>, acts: seq<Act>, m: nat)
    requires Run(tr, acts) && m < |tr|
    ensures tr[m].wrIdx == (if tr[m].wins == 0 then 0 else tr[m].last % 24 + 1)
    ensures tr[m].wrIdx <= 24
  {
    RunInv(tr, acts, m);
  }

  // ---------- tickets ----------

  function Undrawn(hs: seq<Hook>): (c: nat)
    ensures c <= |hs|
  {
    if hs == [] then 0 else (if hs[0].pc == Arrived then 1 else 0) + Undrawn(hs[1..])
  }

  lemma {:induction false} UndrawnUpdate(hs: seq<Hook>, i: nat, h: Hook)
    requires i < |hs|
    ensures Undrawn(hs[i := h]) == Undrawn(hs) - (if hs[i].pc == Arrived then 1 else 0)
                                   + (if h.pc == Arrived then 1 else 0)
  {
    if i == 0 {
      assert hs[i := h][1..] == hs[1..];
    } else {
      UndrawnUpdate(hs[1..], i - 1, h);
      assert hs[i := h][1..] == hs[1..][i - 1 := h];
    }
  }

  ghost predicate Tickets(l: Lane) {
    && l.dispenser + Undrawn(l.hooks) == |l.hooks|
    && (forall i :: 0 <= i < |l.hooks| && l.hooks[i].pc != Arrived ==> l.hooks[i].ticket < l.dispenser)
    && forall i, j :: 0 <= i < j < |l.hooks| && l.hooks[i].pc != Arrived && l.hooks[j].pc != Arrived ==>
         l.hooks[i].ticket != l.hooks[j].ticket
  }

  lemma {:induction false} UndrawnAppend(hs: seq<Hook>)
    ensures Undrawn(hs + [NEWCOMER]) == Undrawn(hs) + 1
  {
    if hs == [] {
      assert Undrawn([NEWCOMER]) == 1 + Undrawn([]);
    } else {
      UndrawnAppend(hs[1..]);
      assert (hs + [NEWCOMER])[1..] == hs[1..] + [NEWCOMER];
    }
  }

  lemma StepTickets(l: Lane, a: Act)
    requires Tickets(l) && Enabled(l, a) && |Apply(l, a).hooks| < TWO32
    ensures Tickets(Apply(l, a))
  {
    hide GuardValue, SlotIndex;
    var l' := Apply(l, a);
    if a.Arrive? {
      UndrawnAppend(l.hooks);
    } else if !a.Leave? {
      UndrawnUpdate(l.hooks, a.i, l'.hooks[a.i]);
    }
  }

  /** As long as fewer than 2^32 hooks have come no two have drawn the same ticket, and the
      tickets drawn are dense: the dispenser counts them. */
  lemma {:induction false} TicketsAreUnique(tr: seq<Lane>, acts: seq<Act>, m: nat)
    requires Run(tr, acts) && m < |tr| && |tr[m].hooks| < TWO32
    ensures Tickets(tr[m])
  {
    if m > 0 {
      RunInv(tr, acts, m - 1);
      StepInv(tr[m - 1], acts[m - 1]);
      TicketsAreUnique(tr, acts, m - 1);
      StepTickets(tr[m - 1], acts[m - 1]);
    }
  }
}
