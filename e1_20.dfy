/** Types and constants of ANSI E1.20 (RDM) that the simulated responder uses:
    the unique identifier of a device and the few protocol constants it needs. */
module E120 {
  import opened Bits

  type u16 = x: int | 0 <= x < 0x1_0000
  type u32 = x: int | 0 <= x < 0x1_0000_0000

  datatype Option<+T> = None | Some(value: T)

  // Table A-1: command classes
  const DISCOVERY_COMMAND_RESPONSE: u8 := 0x11
  // Table A-2: response types
  const RESPONSE_TYPE_ACK: u8 := 0x00
  // Table A-3: parameter ids, network management category
  const DISC_UNIQUE_BRANCH: u16 := 0x0001
  const DISC_MUTE: u16 := 0x0002

  /** A device identifier: 16-bit manufacturer id and 32-bit device id. */
  datatype Uid = Uid(mfg: u16, dev: u32)

  /** The identifier read as one 48-bit number, manufacturer id in the high bits. */
  function Combined(u: Uid): (n: nat)
    ensures n < 0x1_0000_0000_0000
    ensures n / 0x1_0000_0000 == u.mfg && n % 0x1_0000_0000 == u.dev
  {
    u.mfg * 0x1_0000_0000 + u.dev
  }

  /** The ordering of identifiers: manufacturer id first, then device id.
      The comparison itself is not part of this model; this is the order a
      derived comparison over the fields (mfg, dev) gives. */
  predicate Le(a: Uid, b: Uid)
  {
    a.mfg < b.mfg || (a.mfg == b.mfg && a.dev <= b.dev)
  }

  /** `lo <= u <= hi` in identifier order. */
  predicate Between(lo: Uid, u: Uid, hi: Uid)
  {
    Le(lo, u) && Le(u, hi)
  }

  lemma LeIsTotalOrder()
    ensures forall a :: Le(a, a)
    ensures forall a, b :: Le(a, b) && Le(b, a) ==> a == b
    ensures forall a, b, c :: Le(a, b) && Le(b, c) ==> Le(a, c)
    ensures forall a, b :: Le(a, b) || Le(b, a)
  {
  }

  /** The field-wise order agrees with the order of the 48-bit numbers. */
  lemma LeMatchesCombined(a: Uid, b: Uid)
    ensures Le(a, b) <==> Combined(a) <= Combined(b)
  {
    if a.mfg < b.mfg {
      assert Combined(a) < (a.mfg + 1) * 0x1_0000_0000 <= Combined(b);
    } else if b.mfg < a.mfg {
      assert Combined(b) < (b.mfg + 1) * 0x1_0000_0000 <= Combined(a);
    }
  }

  /** The 6-byte big-endian serialization: mfg (2 bytes) then dev (4 bytes).
      The serializer itself is not part of this model; this is the layout it is
      taken to have. */
  function Serialize(u: Uid): (b: seq<u8>)
    ensures |b| == 6
  {
    var d1 := u.dev / 0x100;
    var d2 := d1 / 0x100;
    var d3 := d2 / 0x100;
    [u.mfg / 0x100, u.mfg % 0x100, d3, d2 % 0x100, d1 % 0x100, u.dev % 0x100]
  }

  /** Reads an identifier from the first six bytes of `b`, big-endian. */
  function FromBytes(b: seq<u8>): (u: Uid)
    requires |b| >= 6
  {
    var mfg := b[0] as int * 0x100 + b[1];
    var dev := ((b[2] as int * 0x100 + b[3]) * 0x100 + b[4]) * 0x100 + b[5];
    Uid(mfg, dev)
  }

  /** Splitting a number into its low byte and the rest, and joining them back. */
  lemma SplitByte(n: nat, q: nat, r: nat)
    requires r < 0x100
    ensures n == q * 0x100 + r <==> (n / 0x100 == q && n % 0x100 == r)
  {
  }

  lemma SerializeThenRead(u: Uid)
    ensures FromBytes(Serialize(u)) == u
  {
    var d1 := u.dev / 0x100;
    var d2 := d1 / 0x100;
    var d3 := d2 / 0x100;
    SplitByte(u.mfg, u.mfg / 0x100, u.mfg % 0x100);
    SplitByte(u.dev, d1, u.dev % 0x100);
    SplitByte(d1, d2, d1 % 0x100);
    SplitByte(d2, d3, d2 % 0x100);
  }

  lemma ReadThenSerialize(b: seq<u8>)
    requires |b| == 6
    ensures Serialize(FromBytes(b)) == b
  {
    var u := FromBytes(b);
    var d3 := b[2] as int;
    var d2 := d3 * 0x100 + b[3];
    var d1 := d2 * 0x100 + b[4];
    SplitByte(u.mfg, b[0], b[1]);
    SplitByte(u.dev, d1, b[5]);
    SplitByte(d1, d2, b[4]);
    SplitByte(d2, d3, b[3]);
  }
}
