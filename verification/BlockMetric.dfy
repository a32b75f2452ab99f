/** How the block tenant packs a bio into the eight words of a metric, and how the client
    puts the 64-bit sector back together. */
module BlockMetric {
  import opened Words
  import opened SlotRing

  const FIELDS: nat := 8
  const TWO64: int := TWO32 * TWO32

  type u64 = x: int | 0 <= x < 0x1_0000_0000_0000_0000

  /** What telemetry reads from a bio and its device number. */
  datatype Bio = Bio(major: u32, minor: u32, sector: u64, size: u32, op: u32, opf: u32)

  function Encode(b: Bio): (m: Metric)
    ensures |m| == FIELDS
  {
    [b.major, b.minor, b.sector % TWO32, b.sector / TWO32, b.size / 512, b.size, b.op, b.opf]
  }

  /** `(sector_high << 32) | sector_low`; the halves share no bit, so the or is a sum. */
  function SectorOf(m: Metric): u64
    requires |m| == FIELDS
  {
    m[3] * TWO32 + m[2]
  }

  /** The line that process_block_metric prints, without the ticket. */
  datatype Line = Line(major: u32, minor: u32, sector: u64, sectors: u32, bytes: u32, op: u32, flags: u32)

  function Printed(m: Metric): Line
    requires |m| == FIELDS
  {
    Line(m[0], m[1], SectorOf(m), m[4], m[5], m[6], m[7])
  }

  /** The line shows the bio: its device, its sector, its size in bytes and in whole blocks of
      512, its operation and its flags. */
  predicate ShowsBio(line: Line, b: Bio) {
    && line.major == b.major && line.minor == b.minor && line.sector == b.sector
    && line.bytes == b.size && line.sectors * 512 <= b.size < (line.sectors + 1) * 512
    && line.op == b.op && line.flags == b.opf
  }

  /** What is printed of a metric shows the bio that it was made from, whatever the bio. */
  lemma PrintShowsBio(b: Bio)
    ensures ShowsBio(Printed(Encode(b)), b)
  {
    EncodeRoundTrip(b, b);
  }

  lemma OrOfHalvesIsSum(high: bv64, low: bv64)
    requires low < 0x1_0000_0000
    ensures (high << 32) | low == (high << 32) + low
  {
  }

  /** The halves reassemble to the bio's own sector and nothing of the bio is lost. */
  lemma EncodeRoundTrip(b: Bio, c: Bio)
    ensures SectorOf(Encode(b)) == b.sector
    ensures Encode(b) == Encode(c) ==> b == c
  {
    assert SectorOf(Encode(b)) == b.sector;
    assert SectorOf(Encode(c)) == c.sector;
    assert Encode(b)[0] == b.major && Encode(b)[1] == b.minor && Encode(b)[5] == b.size;
    assert Encode(b)[6] == b.op && Encode(b)[7] == b.opf;
  }
}
