/** The char ring and the calls on it as each runs when nobody interferes; what the reader
    does while dev_write sleeps, and the wakes a call issues, are arguments and results. */
module CharStream {
  import opened Words
  import opened CharSystem
  import CharFifo

  /** What the reader takes in its first j reads of a full ring of cap bytes. */
  function TakenBy(extra: nat -> nat, cap: nat, j: nat): nat {
    if j == 0 then 0 else TakenBy(extra, cap, j - 1) + Min(1 + extra(j - 1), cap)
  }

  /** A writer that found `have` bytes in a ring for cap, and gets as far as its byte number
      `last`, meets a full ring once more after j sleeps. */
  predicate MeetsFull(extra: nat -> nat, cap: nat, have: nat, last: int, j: nat) {
    cap + TakenBy(extra, cap, j) <= have + last
  }

  /** It slept that often, each time on a full ring, and the reader took that much. */
  ghost predicate Slept(extra: nat -> nat, cap: nat, have: nat, last: int, sleeps: nat, taken: nat) {
    taken == TakenBy(extra, cap, sleeps) && forall j: nat :: j < sleeps ==> MeetsFull(extra, cap, have, last, j)
  }

  lemma SleptMore(extra: nat -> nat, cap: nat, have: nat, last: int, sleeps: nat, taken: nat, written: nat)
    requires Slept(extra, cap, have, last, sleeps, taken) && taken + cap == have + written && written <= last
    ensures MeetsFull(extra, cap, have, last, sleeps)
    ensures Slept(extra, cap, have, last, sleeps + 1, taken + Min(1 + extra(sleeps), cap))
  {
  }

  lemma FirstSleep(extra: nat -> nat, cap: nat, have: nat, last: int, sleeps: nat, taken: nat)
    requires Slept(extra, cap, have, last, sleeps, taken)
    ensures sleeps > 0 || MeetsFull(extra, cap, have, last, sleeps) <==> cap <= have + last
  {
    assert TakenBy(extra, cap, 0) == 0;
    if sleeps > 0 {
      assert MeetsFull(extra, cap, have, last, 0);
    }
  }

  lemma Takes(taken: seq<byte>, bytes: seq<byte>, rest: seq<byte>, before: seq<byte>, all: seq<byte>)
    requires bytes + rest == before && taken + before == all
    ensures (taken + bytes) + rest == all && |bytes| + |rest| == |before|
  {
  }

  lemma Puts(taken: seq<byte>, now: seq<byte>, before: seq<byte>, data: seq<byte>, p: nat)
    requires p < |data| && taken + now == before + data[..p]
    ensures taken + (now + [data[p]]) == before + data[..p + 1]
  {
    assert taken + (now + [data[p]]) == (taken + now) + [data[p]];
    assert data[..p + 1] == data[..p] + [data[p]];
  }

  lemma NeverSlept(extra: nat -> nat, cap: nat, have: nat, last: int)
    ensures Slept(extra, cap, have, last, 0, 0)
  {
  }

  lemma SleptEnough(extra: nat -> nat, cap: nat, have: nat, last: int, sleeps: nat, taken: nat, now: nat, written: nat)
    requires Slept(extra, cap, have, last, sleeps, taken) && taken + now == have + written
    ensures now < cap && last <= written ==> !MeetsFull(extra, cap, have, last, sleeps)
    ensures now <= cap && last < written ==> !MeetsFull(extra, cap, have, last, sleeps)
  {
  }

  class CharRing {
    const buffer: array<byte>
    var rdIdx: nat
    var wrIdx: nat
    var asleep: bool
    /** All bytes ever put in, and all ever taken out. */
    ghost var produced: seq<byte>
    ghost var consumed: seq<byte>

    /** The ring as a state of the step model in which nobody is inside a call. */
    ghost function State(): Sys
      reads this, buffer
    {
      Sys(buffer[..], rdIdx, wrIdx, asleep, FREE, [], Away, 0, 1, produced, [], consumed, false, false, 0)
    }

    ghost predicate Valid()
      reads this, buffer
    {
      CharFifo.Queue(State())
    }

    /** The bytes in the ring, oldest first. */
    ghost function Contents(): seq<byte>
      requires Valid()
      reads this, buffer
    {
      produced[|consumed|..]
    }

    constructor (n: nat)
      requires 2 <= n
      ensures Valid() && fresh(buffer) && buffer.Length == n && !asleep && Contents() == []
    {
      buffer := new byte[n](_ => 0);
      rdIdx, wrIdx, asleep, produced, consumed := 0, 0, false, [], [];
      new;
      ResidueSmall(0, n);
    }

    /** The full test that every writer makes. */
    method IsFull() returns (full: bool)
      requires Valid()
      ensures full <==> |Contents()| == buffer.Length - 1
    {
      CharFifo.FullMeans(State());
      full := NextIdx(wrIdx, buffer.Length) == rdIdx;
    }

    /** One byte into a ring that is not full. */
    method Put(b: byte)
      requires Valid() && |Contents()| < buffer.Length - 1
      modifies this`wrIdx, this`produced, buffer
      ensures Valid() && Contents() == old(Contents()) + [b]
    {
      ghost var s := State();
      CharFifo.PutQueue(s, b);
      buffer[wrIdx] := b;
      assert buffer[..] == s.buf[s.wr := b];
      wrIdx := NextIdx(wrIdx, buffer.Length);
      produced := produced + [b];
    }

    /** The oldest byte out of a ring that is not empty. */
    method Take() returns (b: byte)
      requires Valid() && Contents() != []
      modifies this`rdIdx, this`consumed
      ensures Valid() && old(Contents()) == [b] + Contents()
    {
      CharFifo.NextCell(State());
      b := buffer[rdIdx];
      CharFifo.TakeQueue(State(), b);
      rdIdx := NextIdx(rdIdx, buffer.Length);
      consumed := consumed + [b];
    }

    lemma EmptyMeans()
      requires Valid()
      ensures rdIdx == wrIdx <==> Contents() == []
      ensures |Contents()| <= buffer.Length - 1 && 2 <= buffer.Length
    {
      CharFifo.IndexMeans(State(), |produced|);
    }

    /** The asleep flag of the lane. */
    method SetAsleep(value: bool)
      requires Valid()
      modifies this`asleep
      ensures Valid() && asleep == value && Contents() == old(Contents())
    {
      asleep := value;
    }

    /** Up to `len` bytes, oldest first, as many as there are; the queue is woken exactly
        when a byte came out. */
    method DevRead(len: nat) returns (bytes: seq<byte>, woke: bool)
      requires Valid()
      modifies this`rdIdx, this`consumed
      ensures Valid() && bytes + Contents() == old(Contents())
      ensures |bytes| == Min(len, |old(Contents())|)
      ensures woke <==> bytes != []
    {
      hide CharFifo.Queue, Residue, NextIdx, State;
      bytes, woke := [], false;
      var left := len;
      while left > 0
        invariant Valid() && bytes + Contents() == old(Contents()) && 0 <= left == len - |bytes|
        invariant woke <==> bytes != []
        decreases left
      {
        var snapshot := wrIdx;
        EmptyMeans();
        if rdIdx == snapshot {
          break;
        }
        var b := Take();
        bytes := bytes + [b];
        left := left - 1;
        woke := true;
      }
      assert |old(Contents())| == |bytes| + |Contents()|;
    }

    /** One frame under the lock: whole if it fits, and otherwise the part that fits. */
    method PushMetric(frame: seq<byte>) returns (ok: bool)
      requires Valid() && |frame| == FRAME
      modifies this`wrIdx, this`produced, buffer
      ensures Valid()
      ensures ok <==> |old(Contents())| + FRAME <= buffer.Length - 1
      ensures Contents() == old(Contents()) + frame[..Min(FRAME, buffer.Length - 1 - |old(Contents())|)]
    {
      hide CharFifo.Queue, Residue, NextIdx, State;
      EmptyMeans();
      var i := 0;
      while i < FRAME
        invariant 0 <= i <= FRAME && Valid() && Contents() == old(Contents()) + frame[..i]
        invariant |old(Contents())| + i <= buffer.Length - 1
      {
        var full := IsFull();
        if full {
          return false;
        }
        Put(frame[i]);
        assert frame[..i + 1] == frame[..i] + [frame[i]];
        i := i + 1;
      }
      assert frame[..FRAME] == frame;
      return true;
    }

    /** What get_user leaves when it faults: a zero in the cell that is next to be written. */
    method Spoil()
      requires Valid()
      modifies buffer
      ensures Valid() && Contents() == old(Contents())
    {
      ghost var s := State();
      CharFifo.CopyQueue(s, 0);
      buffer[wrIdx] := 0;
      assert buffer[..] == s.buf[s.wr := 0];
    }

    /** The reader takes up to `want` bytes while the writer sleeps; the writer lowers the flag
        when it goes on. */
    method SleepWhileRead(want: nat) returns (bytes: seq<byte>)
      requires Valid()
      modifies this`rdIdx, this`consumed, this`asleep
      ensures Valid() && bytes + Contents() == old(Contents()) && |bytes| == Min(want, |old(Contents())|) && !asleep
    {
      hide CharFifo.Queue, Residue, NextIdx, State;
      var woke;
      bytes, woke := DevRead(want);
      SetAsleep(false);
    }

    /** dev_write by the only writer. The reader asks for 1 + extra(j) bytes during the j-th
        sleep, unless a signal interrupts that sleep; get_user faults at byte faultAt, if the
        call gets there. What the reader took and what the ring holds is the old contents
        followed by the data that was published: all of it, or the part before the fault or
        the signal. The call meets a full ring exactly if there is no room for a byte that it
        gets to, and so the number of its sleeps is known: the (j+1)-th comes, on a full ring,
        at the byte that the room found and the bytes taken in j sleeps make the next; the
        asleep flag is down again when it returns from a sleep, and up when a
        signal ends one. */
    method DevWrite(data: seq<byte>, extra: nat -> nat, signals: nat -> bool, faultAt: nat)
      returns (end: WriteEnd, written: nat, taken: seq<byte>, sleeps: nat, kick: bool)
      requires Valid()
      modifies this, buffer
      ensures Valid() && written <= |data| && taken + Contents() == old(Contents()) + data[..written]
      ensures kick <==> data == []
      ensures end == Finished ==> written == |data| <= faultAt || data == []
      ensures end == Faulted ==> written == faultAt < |data|
      ensures end == Interrupted ==>
                signals(sleeps) && written < |data| && written <= faultAt && |Contents()| == buffer.Length - 1
      ensures forall j :: 0 <= j < sleeps ==> !signals(j)
      ensures sleeps > 0 || end == Interrupted <==>
              |old(Contents())| + Min(|data| - 1, faultAt) >= buffer.Length - 1 && data != []
      ensures var have, last := |old(Contents())|, Min(|data| - 1, faultAt);
              && Slept(extra, buffer.Length - 1, have, last, sleeps, |taken|)
              && (data != [] ==> (end == Interrupted <==> MeetsFull(extra, buffer.Length - 1, have, last, sleeps)))
      ensures asleep == (end == Interrupted || (old(asleep) && sleeps == 0))
    {
      hide CharFifo.Queue, Residue, NextIdx, State, Slept, MeetsFull;
      EmptyMeans();
      ghost var have := |Contents()|;
      NeverSlept(extra, buffer.Length - 1, have, Min(|data| - 1, faultAt));
      end, written, taken, sleeps, kick := Finished, 0, [], 0, false;
      if data == [] {
        kick := true;
        return;
      }
      while written < |data|
        invariant written <= |data| && written <= faultAt && Valid() && end == Finished && !kick
        invariant taken + Contents() == old(Contents()) + data[..written]
        invariant |taken| + |Contents()| == have + written
        invariant Slept(extra, buffer.Length - 1, have, Min(|data| - 1, faultAt), sleeps, |taken|)
        invariant forall j :: 0 <= j < sleeps ==> !signals(j)
        invariant asleep == (old(asleep) && sleeps == 0)
        decreases |data| - written, |Contents()|
      {
        EmptyMeans();
        var full := IsFull();
        if full {
          SetAsleep(true);
          SleptMore(extra, buffer.Length - 1, have, Min(|data| - 1, faultAt), sleeps, |taken|, written);
          FirstSleep(extra, buffer.Length - 1, have, Min(|data| - 1, faultAt), sleeps, |taken|);
          if signals(sleeps) {
            end := Interrupted;
            return;
          }
          ghost var before := Contents();
          var bytes := SleepWhileRead(1 + extra(sleeps));
          Takes(taken, bytes, Contents(), before, old(Contents()) + data[..written]);
          taken := taken + bytes;
          sleeps := sleeps + 1;
          continue;
        }
        SleptEnough(extra, buffer.Length - 1, have, Min(|data| - 1, faultAt), sleeps, |taken|, |Contents()|, written);
        if written == faultAt {
          FirstSleep(extra, buffer.Length - 1, have, Min(|data| - 1, faultAt), sleeps, |taken|);
          Spoil();
          end := Faulted;
          return;
        }
        Puts(taken, Contents(), old(Contents()), data, written);
        Put(data[written]);
        written := written + 1;
      }
      EmptyMeans();
      SleptEnough(extra, buffer.Length - 1, have, Min(|data| - 1, faultAt), sleeps, |taken|, |Contents()|, written);
      FirstSleep(extra, buffer.Length - 1, have, Min(|data| - 1, faultAt), sleeps, |taken|);
    }
  }

  /** How dev_write returns: with its count, with -EFAULT, or with -ERESTARTSYS. */
  datatype WriteEnd = Finished | Faulted | Interrupted
}
