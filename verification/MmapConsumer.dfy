/** The polling loop of the zero-copy consumer, with its throttled wake kicks, as it runs
    when nobody writes meanwhile: the situation of a sleeping single writer. */
module MmapConsumer {
  import opened Words
  import opened CharSystem
  import opened CharThrottle
  import opened CharStream

  class Consumer {
    const ring: CharRing
    const modulo: nat
    var kickCount: nat
    var readerCount: nat

    ghost predicate Valid()
      reads this, ring, ring.buffer
    {
      ring.Valid() && 0 < modulo && kickCount < Max(modulo, 2)
    }

    constructor (ring: CharRing, modulo: nat)
      requires ring.Valid() && 0 < modulo
      ensures Valid() && this.ring == ring && this.modulo == modulo && kickCount == readerCount == 0
    {
      this.ring, this.modulo, kickCount, readerCount := ring, modulo, 0, 0;
    }

    /** One turn of the loop: a byte if there is one; the queue is kicked when the writer
        sleeps and the ring is empty or the throttle is at zero. */
    method Iterate() returns (bytes: seq<byte>, kicked: bool)
      requires Valid()
      modifies this, ring`rdIdx, ring`consumed
      ensures Valid() && bytes + ring.Contents() == old(ring.Contents())
      ensures |bytes| == Min(1, |old(ring.Contents())|) && readerCount == old(readerCount) + |bytes|
      ensures kicked <==> ring.asleep && (bytes == [] || old(kickCount) == 0)
      ensures kickCount == if !ring.asleep || bytes == [] then old(kickCount)
                           else if kicked then 1 else Residue(old(kickCount) + 1, modulo)
    {
      hide CharFifo.Queue, CharRing.State, Residue, NextIdx;
      bytes, kicked := [], false;
      var currentRead, currentWrite := ring.rdIdx, ring.wrIdx;
      ring.EmptyMeans();
      if currentRead != currentWrite {
        var b := ring.Take();
        bytes := [b];
        readerCount := readerCount + 1;
        if ring.asleep {
          if kickCount == 0 {
            kicked := true;
            kickCount := 1;
          } else {
            kickCount := Residue(kickCount + 1, modulo);
          }
        }
      } else {
        if ring.asleep {
          kicked := true;
        }
      }
    }

    /** With a writer asleep on o bytes, the kick comes in exactly the iteration numbered
        min(o, KicksOff) + 1, and by then there is room. */
    method RunUntilKick() returns (bytes: seq<byte>, iterations: nat)
      requires Valid() && ring.asleep
      modifies this, ring`rdIdx, ring`consumed
      ensures Valid() && bytes + ring.Contents() == old(ring.Contents())
      ensures iterations == Min(|old(ring.Contents())|, KicksOff(old(kickCount), modulo)) + 1
      ensures |bytes| == Min(|old(ring.Contents())|, iterations)
      ensures |ring.Contents()| < ring.buffer.Length - 1
    {
      hide CharFifo.Queue, CharRing.State, Residue, NextIdx;
      bytes, iterations := [], 0;
      ring.EmptyMeans();
      var kicked := false;
      while !kicked
        invariant Valid() && ring.asleep && bytes + ring.Contents() == old(ring.Contents())
        invariant !kicked ==> |bytes| == iterations
        invariant !kicked ==> iterations + Min(|ring.Contents()|, KicksOff(kickCount, modulo))
                              == Min(|old(ring.Contents())|, KicksOff(old(kickCount), modulo))
        invariant kicked ==> iterations == Min(|old(ring.Contents())|, KicksOff(old(kickCount), modulo)) + 1
        invariant kicked ==> |bytes| == Min(|old(ring.Contents())|, iterations)
        invariant kicked ==> |ring.Contents()| < ring.buffer.Length - 1
        decreases !kicked, |ring.Contents()|
      {
        ring.EmptyMeans();
        if kickCount != 0 {
          KickStep(kickCount, modulo);
        }
        var b;
        b, kicked := Iterate();
        assert (bytes + b) + ring.Contents() == bytes + (b + ring.Contents());
        assert |old(ring.Contents())| == |bytes| + |b| + |ring.Contents()|;
        bytes := bytes + b;
        iterations := iterations + 1;
      }
    }
  }
}
