/** The byte stream that goes into the char ring is an order-preserving merge of what the
    writers were given, and a metric frame stays in one piece. */
module CharMerge {
  import opened CharSystem
  import CharFifo

  /** The bytes of `bs` that carry tag i, in order. */
  function Project(bs: seq<byte>, tags: seq<nat>, i: nat): seq<byte>
    requires |bs| == |tags|
  {
    if bs == [] then [] else
      var n := |bs| - 1;
      Project(bs[..n], tags[..n], i) + if tags[n] == i then [bs[n]] else []
  }

  lemma ProjectAppend(bs: seq<byte>, tags: seq<nat>, b: byte, j: nat, i: nat)
    requires |bs| == |tags|
    ensures Project(bs + [b], tags + [j], i) == Project(bs, tags, i) + if j == i then [b] else []
  {
    assert (bs + [b])[..|bs|] == bs && (tags + [j])[..|tags|] == tags;
  }

  lemma {:induction false} ProjectNone(bs: seq<byte>, tags: seq<nat>, i: nat)
    requires |bs| == |tags| && forall k :: 0 <= k < |tags| ==> tags[k] != i
    ensures Project(bs, tags, i) == []
  {
    if bs != [] {
      ProjectNone(bs[..|bs| - 1], tags[..|bs| - 1], i);
    }
  }

  /** Writer i's part of the stream is a prefix of its data, so far as it got. */
  ghost predicate Merged(s: Sys, i: nat)
    requires i < |s.writers| && |s.tags| == |s.produced|
  {
    var w := s.writers[i];
    w.pos <= |w.data| && Project(s.produced, s.tags, i) == w.data[..w.pos]
  }

  /** The bytes of a metric frame lie side by side from its start. */
  ghost predicate Contiguous(s: Sys, i: nat)
    requires i < |s.writers| && |s.tags| == |s.produced|
  {
    var w := s.writers[i];
    w.kind == Metric ==>
      && (w.pos == 0 || w.start + w.pos <= |s.tags|)
      && (HoldsLock(w) ==> w.start + w.pos == |s.tags|)
      && (w.pc == Loop ==> w.pos == 0)
      && (forall k :: 0 <= k < |s.tags| ==> (s.tags[k] == i <==> w.start <= k < w.start + w.pos))
      && (w.pc in {Loop, Locked, Copy, Advance, Unlock} || w.pc.Done?)
      && (w.pc.Done? ==> w.pc.ok == (w.pos == |w.data|))
      && |w.data| == FRAME
  }

  ghost predicate Inv(s: Sys) {
    && |s.tags| == |s.produced|
    && (forall k :: 0 <= k < |s.tags| ==> s.tags[k] < |s.writers|)
    && (forall i :: 0 <= i < |s.writers| ==> Merged(s, i) && Contiguous(s, i))
  }

  /** A step of writer i that moves no byte keeps writer i's bookkeeping. */
  lemma OwnQuiet(s: Sys, i: nat)
    requires CharFifo.Inv(s) && Inv(s) && Enabled(s, Write(i)) && s.writers[i].pc != Advance
    ensures var s' := WriterStep(s, i);
            |s'.tags| == |s'.produced| && Merged(s', i) && Contiguous(s', i)
  {
    assert Merged(s, i) && Contiguous(s, i) && CharFifo.WriterInv(s, s.writers[i]);
    hide NextIdx, RingFull, Project;
  }

  /** Byte b of writer i is appended to the stream. */
  ghost predicate Appends(s: Sys, s': Sys, i: nat, b: byte) {
    && s'.tags == s.tags + [i] && s'.produced == s.produced + [b]
    && |s'.writers| == |s.writers| && forall j :: 0 <= j < |s.writers| && j != i ==> s'.writers[j] == s.writers[j]
  }

  lemma AdvanceShape(s: Sys, i: nat)
    requires Enabled(s, Write(i)) && s.writers[i].pc == Advance
    ensures var s', w := WriterStep(s, i), s.writers[i];
            && Appends(s, s', i, w.data[w.pos])
            && s'.writers[i] == w.(pos := w.pos + 1,
                                   pc := if w.kind == Metric && w.pos + 1 < |w.data| then Locked else Unlock)
  {
    hide NextIdx, RingFull;
  }

  lemma MergedAppend(s: Sys, s': Sys, i: nat, j: nat, b: byte)
    requires |s.tags| == |s.produced| && j < |s.writers| && Merged(s, j) && Appends(s, s', i, b)
    requires j == i ==> s'.writers[i].data == s.writers[i].data && s'.writers[i].pos == s.writers[i].pos + 1
    requires j == i ==> s.writers[i].pos < |s.writers[i].data| && s.writers[i].data[s.writers[i].pos] == b
    ensures |s'.tags| == |s'.produced| && Merged(s', j)
  {
    ProjectAppend(s.produced, s.tags, b, i, j);
    hide Project;
    var w := s.writers[j];
    if j == i {
      assert w.data[..w.pos + 1] == w.data[..w.pos] + [b];
    }
  }

  lemma OwnAdvance(s: Sys, i: nat)
    requires CharFifo.Inv(s) && Inv(s) && Enabled(s, Write(i)) && s.writers[i].pc == Advance
    ensures var s' := WriterStep(s, i);
            |s'.tags| == |s'.produced| && Merged(s', i) && Contiguous(s', i)
  {
    var w := s.writers[i];
    assert Merged(s, i) && Contiguous(s, i) && CharFifo.WriterInv(s, w);
    AdvanceShape(s, i);
    hide WriterStep, Enabled, CharFifo.Inv, Inv;
    MergedAppend(s, WriterStep(s, i), i, i, w.data[w.pos]);
    hide Merged;
  }

  lemma OtherShape(s: Sys, i: nat, j: nat)
    requires Enabled(s, Write(i)) && j < |s.writers| && j != i
    ensures var s', w := WriterStep(s, i), s.writers[i];
            && |s'.writers| == |s.writers| && s'.writers[j] == s.writers[j]
            && if w.pc == Advance then s'.tags == s.tags + [i] && s'.produced == s.produced + [w.data[w.pos]]
               else s'.tags == s.tags && s'.produced == s.produced
  {
    hide NextIdx, RingFull, NextWriter;
  }

  lemma OtherWriter(s: Sys, i: nat, j: nat)
    requires CharFifo.Inv(s) && Inv(s) && Enabled(s, Write(i)) && j < |s.writers| && j != i
    ensures var s' := WriterStep(s, i);
            |s'.tags| == |s'.produced| && Merged(s', j) && Contiguous(s', j)
  {
    var w := s.writers[i];
    OtherShape(s, i, j);
    assert Merged(s, j) && Contiguous(s, j);
    assert HoldsLock(w) ==> !HoldsLock(s.writers[j]);
    if w.pc == Advance {
      AdvanceShape(s, i);
      hide WriterStep, Enabled, CharFifo.Inv, Inv;
      MergedAppend(s, WriterStep(s, i), i, j, w.data[w.pos]);
      hide Merged;
    } else {
      hide WriterStep, Enabled, CharFifo.Inv, Inv, Project;
    }
  }

  lemma WriteInv(s: Sys, i: nat)
    requires CharFifo.Inv(s) && Inv(s) && Enabled(s, Write(i))
    ensures Inv(WriterStep(s, i))
  {
    var s' := WriterStep(s, i);
    if s.writers[i].pc == Advance {
      OwnAdvance(s, i);
    } else {
      OwnQuiet(s, i);
    }
    hide NextIdx, NextWriter, Merged, Contiguous;
    forall j | 0 <= j < |s'.writers| ensures Merged(s', j) && Contiguous(s', j) {
      if j != i {
        OtherWriter(s, i, j);
      }
    }
  }

  /** Writers that keep their place in the stream keep their bookkeeping. */
  lemma SamePlace(s: Sys, s': Sys, j: nat)
    requires Inv(s) && s'.tags == s.tags && s'.produced == s.produced
    requires j < |s.writers| <= |s'.writers|
    requires var w, w' := s.writers[j], s'.writers[j];
             && w'.kind == w.kind && w'.data == w.data && w'.pos == w.pos && w'.start == w.start
             && (w'.pc == w.pc || (w.kind == Stream && !HoldsLock(w')))
    ensures Merged(s', j) && Contiguous(s', j)
  {
    assert Merged(s, j) && Contiguous(s, j);
    hide Project;
  }

  lemma StepInv(s: Sys, a: Act)
    requires CharFifo.Inv(s) && Inv(s) && Enabled(s, a)
    ensures Inv(Apply(s, a))
  {
    var s' := Apply(s, a);
    if a.Write? {
      WriteInv(s, a.i);
    } else {
      OtherPlaces(s, a);
      hide Merged, Contiguous;
      forall j | 0 <= j < |s'.writers| ensures Merged(s', j) && Contiguous(s', j) {
        if j < |s.writers| {
          SamePlace(s, s', j);
        } else {
          NewWriter(s, a);
        }
      }
    }
  }

  /** Step from s to s' adds no byte, at most one writer, and moves no writer in the stream. */
  ghost predicate KeepsPlaces(s: Sys, s': Sys) {
    && s'.tags == s.tags && s'.produced == s.produced && |s.writers| <= |s'.writers| <= |s.writers| + 1
    && forall j :: 0 <= j < |s.writers| ==>
         var w, w' := s.writers[j], s'.writers[j];
         && w'.kind == w.kind && w'.data == w.data && w'.pos == w.pos && w'.start == w.start
         && (w'.pc == w.pc || (w.kind == Stream && !HoldsLock(w')))
  }

  lemma SignalPlaces(s: Sys, i: nat)
    requires Inv(s) && Enabled(s, Signal(i))
    ensures KeepsPlaces(s, Apply(s, Signal(i)))
  {
    assert Contiguous(s, i);
    hide NextIdx, Merged, Contiguous;
  }

  lemma ReadPlaces(s: Sys)
    requires Enabled(s, ReadStep)
    ensures KeepsPlaces(s, Apply(s, ReadStep)) && |Apply(s, ReadStep).writers| == |s.writers|
  {
    hide NextIdx, NextReader, NextKick;
  }

  lemma OtherPlaces(s: Sys, a: Act)
    requires Inv(s) && Enabled(s, a) && !a.Write?
    ensures KeepsPlaces(s, Apply(s, a))
    ensures |s.writers| < |Apply(s, a).writers| ==> a.Call?
  {
    if a.Signal? {
      SignalPlaces(s, a.i);
    } else if a.ReadStep? {
      ReadPlaces(s);
    }
    hide NextIdx, NextReader, NextKick, Inv;
  }

  lemma NewWriter(s: Sys, a: Act)
    requires Inv(s) && Enabled(s, a) && a.Call? && |Apply(s, a).writers| > |s.writers|
    ensures var s' := Apply(s, a);
            |s'.tags| == |s'.produced| && Merged(s', |s.writers|) && Contiguous(s', |s.writers|)
  {
    ProjectNone(s.produced, s.tags, |s.writers|);
  }

  lemma {:induction false} ProjectBlock(bs: seq<byte>, tags: seq<nat>, i: nat, a: nat, b: nat)
    requires |bs| == |tags| && a <= b <= |bs|
    requires forall k :: 0 <= k < |tags| ==> (tags[k] == i <==> a <= k < b)
    ensures Project(bs, tags, i) == bs[a..b]
  {
    if bs != [] {
      var n := |bs| - 1;
      if b == n + 1 && a < b {
        ProjectBlock(bs[..n], tags[..n], i, a, n);
        assert bs[..n][a..n] + [bs[n]] == bs[a..b];
      } else if b == n + 1 {
        ProjectNone(bs, tags, i);
      } else {
        ProjectBlock(bs[..n], tags[..n], i, a, b);
        assert bs[..n][a..b] == bs[a..b];
      }
    }
  }
}
