/** The table-driven CRC-32 of transports/tools/ntx.mjs against the bit-serial one. */
module Crc32 {
  import opened Bytes

  const POLY: bv32 := 0xedb8_8320
  const ONES: bv32 := 0xffff_ffff

  function Xor(a: bv32, b: bv32): bv32 {
    a ^ b
  }

  function Low(c: bv32): bv32 {
    c & 1
  }

  function Half(c: bv32): bv32 {
    c >> 1
  }

  // ---------- the reference: one message bit at a time ----------

  /** The low bit of the register, added to the incoming message bit, decides whether the reflected polynomial is
      added to the shifted register. */
  function SerialBit(c: bv32, bit: bv32): bv32 {
    if Low(Xor(c, bit)) == 1 then Xor(POLY, Half(c)) else Half(c)
  }

  /** The low `k` bits of `x`, lowest first. */
  function SerialBits(c: bv32, x: bv32, k: nat): bv32
    decreases k
  {
    if k == 0 then c else SerialBits(SerialBit(c, Low(x)), Half(x), k - 1)
  }

  function SerialBytes(c: bv32, b: seq<byte>): bv32
    decreases |b|
  {
    if b == [] then c else SerialBytes(SerialBits(c, b[0] as bv32, 8), b[1..])
  }

  /** CRC-32: reflected, polynomial 0xEDB88320, initial register and final mask all ones. */
  function Crc(b: seq<byte>): bv32 {
    SerialBytes(ONES, b) ^ ONES
  }

  /** The checksum as the unsigned number that goes into the archive's fields. */
  function CrcNumber(b: seq<byte>): (n: nat)
    ensures n < 0x1_0000_0000
  {
    Crc(b) as int
  }

  // ---------- the register between message words ----------

  function Step(c: bv32): bv32 {
    if Low(c) == 1 then Xor(POLY, Half(c)) else Half(c)
  }

  function Steps(c: bv32, k: nat): bv32
    decreases k
  {
    if k == 0 then c else Steps(Step(c), k - 1)
  }

  function Drop(x: bv32, k: nat): bv32
    decreases k
  {
    if k == 0 then x else Drop(Half(x), k - 1)
  }

  lemma LowXor(a: bv32, b: bv32)
    ensures Low(Xor(a, b)) == 1 <==> (Low(a) == 1) != (Low(b) == 1)
    ensures Low(Xor(a, Low(b))) == Low(Xor(a, b))
  {
  }

  lemma HalfXor(a: bv32, b: bv32)
    ensures Half(Xor(a, b)) == Xor(Half(a), Half(b))
  {
  }

  lemma XorAssoc(a: bv32, b: bv32, c: bv32)
    ensures Xor(Xor(a, b), c) == Xor(a, Xor(b, c))
  {
  }

  lemma XorSwap(a: bv32, b: bv32, c: bv32)
    ensures Xor(a, Xor(b, c)) == Xor(b, Xor(a, c))
  {
  }

  lemma XorTwice(a: bv32, b: bv32)
    ensures Xor(a, Xor(a, b)) == b
  {
  }

  lemma XorMoves(p: bv32, x: bv32, y: bv32)
    ensures Xor(Xor(p, x), y) == Xor(p, Xor(x, y))
    ensures Xor(x, Xor(p, y)) == Xor(p, Xor(x, y))
    ensures Xor(Xor(p, x), Xor(p, y)) == Xor(x, y)
  {
    hide Xor;
    XorAssoc(p, x, y);
    XorSwap(x, p, y);
    XorAssoc(p, x, Xor(p, y));
    XorTwice(p, Xor(x, y));
  }

  lemma StepFeeds(c: bv32, x: bv32)
    ensures Step(Xor(c, x)) == Xor(SerialBit(c, Low(x)), Half(x))
  {
    hide Xor, Low, Half;
    LowXor(c, x);
    HalfXor(c, x);
    XorMoves(POLY, Half(c), Half(x));
  }

  lemma StepLinear(a: bv32, b: bv32)
    ensures Step(Xor(a, b)) == Xor(Step(a), Step(b))
  {
    hide Xor, Low, Half;
    LowXor(a, b);
    HalfXor(a, b);
    XorMoves(POLY, Half(a), Half(b));
  }

  /** Adding a word first and then stepping is feeding its bits one by one; what is left is the rest of the word. */
  lemma {:induction false} StepsFeed(c: bv32, x: bv32, k: nat)
    ensures Steps(Xor(c, x), k) == Xor(SerialBits(c, x, k), Drop(x, k))
    decreases k
  {
    hide Step, SerialBit, Xor, Low, Half;
    if k > 0 {
      StepFeeds(c, x);
      StepsFeed(SerialBit(c, Low(x)), Half(x), k - 1);
    }
  }

  /** Stepping is linear over exclusive or. */
  lemma {:induction false} StepsLinear(a: bv32, b: bv32, k: nat)
    ensures Steps(Xor(a, b), k) == Xor(Steps(a, k), Steps(b, k))
    decreases k
  {
    hide Step, Xor;
    if k > 0 {
      StepLinear(a, b);
      StepsLinear(Step(a), Step(b), k - 1);
    }
  }

  lemma EightHalves(c: bv32)
    ensures Half(Half(Half(Half(Half(Half(Half(Half(c)))))))) == c >> 8
    ensures c < 256 ==> c >> 8 == 0
  {
  }

  lemma LowBitsClear(c: bv32)
    requires c & 0xff == 0
    ensures Low(c) == 0 && Low(Half(c)) == 0 && Low(Half(Half(c))) == 0 && Low(Half(Half(Half(c)))) == 0
    ensures Low(Half(Half(Half(Half(c))))) == 0 && Low(Half(Half(Half(Half(Half(c)))))) == 0
    ensures Low(Half(Half(Half(Half(Half(Half(c))))))) == 0 && Low(Half(Half(Half(Half(Half(Half(Half(c)))))))) == 0
  {
  }

  /** A register with a clear low byte only shifts. */
  lemma StepsShift(c: bv32)
    requires c & 0xff == 0
    ensures Steps(c, 8) == c >> 8
  {
    LowBitsClear(c);
    EightHalves(c);
    hide Low, Half, Xor;
    assert Steps(c, 8) == Steps(Half(Half(Half(Half(c)))), 4);
  }

  lemma DropByte(x: bv32)
    requires x < 256
    ensures Drop(x, 8) == 0
  {
    EightHalves(x);
    hide Half;
  }

  lemma XorZero(a: bv32)
    ensures Xor(a, 0) == a
  {
  }

  lemma SplitLowByte(c: bv32, x: bv32)
    requires x < 256
    ensures var high := c & 0xffff_ff00;
            high & 0xff == 0 && high >> 8 == c >> 8 && Xor((c ^ x) & 0xff, high) == Xor(c, x)
  {
  }

  lemma FeedByteWise(c: bv32, x: bv32, low: bv32)
    requires x < 256 && low == (c ^ x) & 0xff
    ensures Xor(Steps(low, 8), c >> 8) == SerialBits(c, x, 8)
  {
    hide Step, SerialBit, Steps, SerialBits, Drop;
    SplitLowByte(c, x);
    var high := c & 0xffff_ff00;
    StepsShift(high);
    hide Xor;
    StepsLinear(low, high, 8);
    StepsFeed(c, x, 8);
    DropByte(x);
    XorZero(SerialBits(c, x, 8));
  }

  // ---------- the program ----------

  function Slot(c: bv32, x: byte): (i: nat)
    ensures i < 256
  {
    ((c ^ (x as bv32)) & 0xff) as int
  }

  function Advance(entry: bv32, c: bv32): bv32 {
    entry ^ (c >> 8)
  }

  lemma ByteValue(y: bv32)
    requires y < 256
    ensures (y as int) as bv32 == y
  {
  }

  lemma LowByteSmall(y: bv32)
    ensures y & 0xff < 256
  {
  }

  lemma ByteFits(x: byte)
    ensures x as bv32 < 256
  {
  }

  lemma SlotValue(c: bv32, x: byte)
    ensures x as bv32 < 256 && Slot(c, x) as bv32 == (c ^ (x as bv32)) & 0xff
  {
    ByteFits(x);
    LowByteSmall(c ^ (x as bv32));
    ByteValue((c ^ (x as bv32)) & 0xff);
  }

  /** One table look-up does the work of eight message bits. */
  lemma LookupIsSerial(c: bv32, x: byte)
    ensures Advance(Steps(Slot(c, x) as bv32, 8), c) == SerialBits(c, x as bv32, 8)
  {
    hide Steps, SerialBits, Slot;
    SlotValue(c, x);
    FeedByteWise(c, x as bv32, Slot(c, x) as bv32);
  }

  ghost predicate IsTable(t: array<bv32>)
    reads t
  {
    t.Length == 256 && forall n | 0 <= n < 256 :: t[n] == Steps(n as bv32, 8)
  }

  method BuildTable() returns (t: array<bv32>)
    ensures fresh(t) && IsTable(t)
  {
    hide Xor, Half, Low;
    t := new bv32[256];
    for n := 0 to 256
      invariant forall i | 0 <= i < n :: t[i] == Steps(i as bv32, 8)
    {
      var c := n as bv32;
      for k := 0 to 8
        invariant Steps(c, 8 - k) == Steps(n as bv32, 8)
      {
        c := if Low(c) == 1 then Xor(POLY, Half(c)) else Half(c);
      }
      t[n] := c;
    }
  }

  /** `crc32(b)` over the table equals the bit-serial CRC on every byte string. */
  method TableCrc(t: array<bv32>, b: seq<byte>) returns (r: bv32)
    requires IsTable(t)
    ensures r == Crc(b)
  {
    hide Steps, SerialBits, Slot, Advance;
    var c := ONES;
    for i := 0 to |b|
      invariant SerialBytes(c, b[i..]) == SerialBytes(ONES, b)
    {
      LookupIsSerial(c, b[i]);
      c := Advance(t[Slot(c, b[i])], c);
      assert b[i..][0] == b[i] && b[i..][1..] == b[i + 1..];
    }
    assert b[|b|..] == [];
    r := c ^ ONES;
  }
}
