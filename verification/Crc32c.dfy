/** CRC-32C: the table-driven form, the bit-at-a-time form it refines, and the
    bursts of damage it always detects. */
module Crc32c {
  import opened Bytes
  import opened Words
  import opened Bits

  /** The reflected form of the polynomial of section 12.1 of RFC 3720. */
  const POLY: bv32 := 0x82F6_3B78

  /** Register value before the first byte. */
  const INIT: bv32 := 0xFFFF_FFFF

  function Widen(b: byte): bv32 { (b as bv8) as bv32 }

  /** One bit of the reflected division. */
  function Step(x: bv32): bv32 {
    if Odd(x) then Xor(Half(x), POLY) else Half(x)
  }

  function Steps(x: bv32, n: nat): bv32
    decreases n
  {
    if n == 0 then x else Steps(Step(x), n - 1)
  }

  /** One input byte, bit at a time: fold it into the low end and shift it out. */
  function ByteStep(r: bv32, b: byte): bv32 {
    Steps(Xor(r, Widen(b)), 8)
  }

  /** The register after a whole byte string. */
  function Register(r: bv32, data: seq<byte>): bv32
    decreases |data|
  {
    if data == [] then r else Register(ByteStep(r, data[0]), data[1..])
  }

  /** The bit-at-a-time CRC-32C of `data`. */
  function Crc(data: seq<byte>): u32 {
    Finish(Register(INIT, data))
  }

  function Finish(r: bv32): u32 { Number(!r) }

  function TableIndex(x: bv32): (i: nat)
    ensures i < 256
  {
    Low(x) as int
  }

  /** The number a word stands for, from its four bytes. */
  function Number(x: bv32): u32 {
    TableIndex(x) + 0x100 * TableIndex(Down(x)) + 0x1_0000 * TableIndex(Down(Down(x)))
    + 0x100_0000 * TableIndex(Down(Down(Down(x))))
  }

  lemma TopBitSeparates(x: bv32, y: bv32)
    ensures Xor(Half(x), POLY) != Half(y)
  {}

  lemma WidenInjective(a: byte, b: byte)
    requires Widen(a) == Widen(b)
    ensures a == b
  {
    WidenValue(a);
    WidenValue(b);
    hide Widen;
  }

  lemma WidenValue(a: byte)
    ensures Widen(a) as int == a
  {
    NarrowValue(a);
    var w := a as bv8;
    WideValue(w);
  }

  // ---- Linearity and injectivity of the shift ------------------------------

  lemma StepLinear(x: bv32, y: bv32)
    ensures Step(Xor(x, y)) == Xor(Step(x), Step(y))
  {
    OddOfXor(x, y);
    HalfOfXor(x, y);
    XorSlides(Half(x), Half(y), POLY);
    XorAssociates(Half(x), Half(y), POLY);
    hide Odd, Half, Xor;
  }

  lemma {:induction false} StepsLinear(x: bv32, y: bv32, n: nat)
    ensures Steps(Xor(x, y), n) == Xor(Steps(x, n), Steps(y, n))
    decreases n
  {
    hide Xor, Step;
    if n > 0 {
      StepLinear(x, y);
      StepsLinear(Step(x), Step(y), n - 1);
    }
  }

  lemma StepInjective(x: bv32, y: bv32)
    requires Step(x) == Step(y)
    ensures x == y
  {
    if Odd(x) == Odd(y) {
      if Odd(x) {
        XorInjective(Half(x), Half(y), POLY);
      }
      assert Half(x) == Half(y) by { hide Half, Odd, Xor; }
      HalfAndOddDetermine(x, y);
    } else {
      TopBitSeparates(x, y);
      TopBitSeparates(y, x);
      hide Half, Odd, Xor;
      assert false;
    }
  }

  /** Eight steps of a register whose low byte is zero just shift it. */
  lemma ClearLowByteShifts(x: bv32)
    requires Low(x) == 0
    ensures Steps(x, 8) == Down(x)
  {
    ClearLowByte(x);
    hide Odd, Half, Xor, Down, Low;
    assert Steps(x >> 6, 2) == Steps(x >> 7, 1) == Down(x);
    assert Steps(x >> 4, 4) == Steps(x >> 5, 3) == Steps(x >> 6, 2);
    assert Steps(x >> 2, 6) == Steps(x >> 3, 5) == Steps(x >> 4, 4);
    assert Steps(x, 8) == Steps(x >> 1, 7) == Steps(x >> 2, 6);
  }

  /** A table lookup on the low byte replaces eight steps. */
  lemma TableStep(x: bv32)
    ensures Steps(x, 8) == Xor(Steps(Low(x), 8), Down(x))
  {
    SplitLowByte(x);
    StepsLinear(Low(x), High(x), 8);
    ClearLowByteShifts(High(x));
    hide Xor, Low, High, Down, Steps;
  }

  // ---- The table-driven form -----------------------------------------------

  /** What the table holds: the eight-step shift of every byte. */
  ghost predicate IsTable(table: seq<bv32>) {
    |table| == 256 && forall i :: 0 <= i < 256 ==> table[i] == Steps(Widen(i), 8)
  }

  /** The lookup table the source builds at compile time. */
  method BuildTable() returns (table: array<bv32>)
    ensures fresh(table) && IsTable(table[..])
  {
    table := new bv32[256];
    var i := 0;
    while i < 256
      invariant 0 <= i <= 256
      invariant forall j :: 0 <= j < i ==> table[j] == Steps(Widen(j), 8)
    {
      hide Odd, Half, Xor;
      var crc := Widen(i);
      var bit := 0;
      while bit < 8
        invariant 0 <= bit <= 8
        invariant Steps(crc, 8 - bit) == Steps(Widen(i), 8)
      {
        crc := if Odd(crc) then Xor(Half(crc), 0x82F6_3B78) else Half(crc);
        bit := bit + 1;
      }
      table[i] := crc;
      i := i + 1;
    }
  }

  /** The low byte of a register is a table index. */
  lemma IndexIsLow(x: bv32)
    ensures Widen(TableIndex(x)) == Low(x)
  {
    LowAsByte(x);
    ByteOfIndex(Low(x) as bv8);
    WideValue(Low(x) as bv8);
    hide Low;
  }

  lemma DownOfFold(r: bv32, b: byte)
    ensures Down(Xor(r, Widen(b))) == Down(r)
  {
    var w := b as bv8;
    assert (r ^ (w as bv32)) >> 8 == r >> 8;
  }

  /** The checksum as the store computes it: one lookup a byte. */
  method Checksum(table: array<bv32>, data: seq<byte>) returns (sum: u32)
    requires IsTable(table[..])
    ensures sum == Crc(data)
  {
    hide Xor, Low, Down, Widen, Steps, TableIndex, Finish;
    var crc: bv32 := 0xFFFF_FFFF;
    var i := 0;
    while i < |data|
      invariant 0 <= i <= |data|
      invariant Register(crc, data[i..]) == Register(INIT, data)
    {
      IndexIsLow(Xor(crc, Widen(data[i])));
      TableStep(Xor(crc, Widen(data[i])));
      DownOfFold(crc, data[i]);
      assert data[i..][1..] == data[i + 1..];
      var index := TableIndex(Xor(crc, Widen(data[i])));
      assert table[index] == table[..][index];
      crc := Xor(table[index], Down(crc));
      i := i + 1;
    }
    sum := Finish(crc);
  }

  // ---- The polynomial the reflected constant stands for ---------------------

  /** One step of long division by the generator polynomial of section 12.1 of
      RFC 3720, 0x11EDC6F41, most significant bit first. */
  function DivisionStep(x: bv32): bv32 {
    if Top(x) then Xor(Double(x), 0x1EDC_6F41) else Double(x)
  }

  lemma GeneratorPolynomial()
    ensures Reverse(POLY) == 0x1EDC_6F41
  {}

  /** Each reflected step is a step of that division, seen in a mirror. */
  lemma StepIsReflectedDivision(x: bv32)
    ensures Reverse(Step(x)) == DivisionStep(Reverse(x))
  {
    ReverseOfXor(Half(x), POLY);
    ReverseOfHalf(x);
    TopOfReverse(x);
    GeneratorPolynomial();
    hide Odd, Half, Xor, Reverse, Top, Double;
  }

  // ---- One bit at a time ---------------------------------------------------------

  function BitStep(r: bv32, bit: bool): bv32 {
    Step(Xor(r, if bit then 1 else 0))
  }

  /** The register after a row of bits. */
  function Feed(r: bv32, bits: seq<bool>): bv32
    decreases |bits|
  {
    if bits == [] then r else Feed(BitStep(r, bits[0]), bits[1..])
  }

  /** The bits of a byte string, each byte's lowest first. */
  function BitsOf(data: seq<byte>): (bits: seq<bool>)
    ensures |bits| == 8 * |data|
  {
    if data == [] then [] else LowBits(Widen(data[0]), 8) + BitsOf(data[1..])
  }

  /** One step takes the lowest bit of what is folded in and halves the rest. */
  lemma StepTakesBit(r: bv32, w: bv32)
    ensures Step(Xor(r, w)) == Xor(BitStep(r, Odd(w)), Half(w))
  {
    var bit: bv32 := if Odd(w) then 1 else 0;
    LowestBit(w);
    hide Odd, Half, Double, Xor;
    XorAssociates(r, bit, Double(Half(w)));
    StepLinear(Xor(r, bit), Double(Half(w)));
    assert Step(Double(Half(w))) == Half(w);
  }

  lemma {:induction false} StepsTakeBits(r: bv32, w: bv32, n: nat)
    ensures Steps(Xor(r, w), n) == Xor(Feed(r, LowBits(w, n)), Above(w, n))
    decreases n
  {
    hide Step, Xor, Odd, Half, BitStep;
    if n > 0 {
      StepTakesBit(r, w);
      StepsTakeBits(BitStep(r, Odd(w)), Half(w), n - 1);
      assert LowBits(w, n)[1..] == LowBits(Half(w), n - 1);
    }
  }

  lemma WidenIsByte(b: byte)
    ensures IsByte(Widen(b))
  {
    var w := b as bv8;
    assert (w as bv32) & 0xFFFF_FF00 == 0;
  }

  lemma ByteTakesBits(r: bv32, b: byte)
    ensures ByteStep(r, b) == Feed(r, LowBits(Widen(b), 8))
  {
    WidenIsByte(b);
    AboveByte(Widen(b));
    StepsTakeBits(r, Widen(b), 8);
    XorSelf(Feed(r, LowBits(Widen(b), 8)), 0);
    hide Xor, Widen, Steps, Feed, LowBits, Above;
  }

  lemma {:induction false} FeedConcat(r: bv32, u: seq<bool>, v: seq<bool>)
    ensures Feed(r, u + v) == Feed(Feed(r, u), v)
    decreases |u|
  {
    hide BitStep;
    if u == [] {
      assert u + v == v;
    } else {
      assert (u + v)[1..] == u[1..] + v;
      FeedConcat(BitStep(r, u[0]), u[1..], v);
    }
  }

  /** The checksum's register takes a byte string bit by bit. */
  lemma {:induction false} RegisterTakesBits(r: bv32, data: seq<byte>)
    ensures Register(r, data) == Feed(r, BitsOf(data))
    decreases |data|
  {
    hide ByteStep, LowBits, Widen;
    if data != [] {
      ByteTakesBits(r, data[0]);
      RegisterTakesBits(ByteStep(r, data[0]), data[1..]);
      FeedConcat(r, LowBits(Widen(data[0]), 8), BitsOf(data[1..]));
    }
  }

  lemma {:induction false} BitsDetermine(a: seq<byte>, b: seq<byte>)
    requires BitsOf(a) == BitsOf(b)
    ensures a == b
    decreases |a|
  {
    hide LowBits, Widen;
    if a != [] {
      assert BitsOf(a)[..8] == LowBits(Widen(a[0]), 8) && BitsOf(a)[8..] == BitsOf(a[1..]);
      assert BitsOf(b)[..8] == LowBits(Widen(b[0]), 8) && BitsOf(b)[8..] == BitsOf(b[1..]);
      BitsDetermine(a[1..], b[1..]);
      SameByte(a[0], b[0]);
    }
  }

  lemma SameByte(a: byte, b: byte)
    requires LowBits(Widen(a), 8) == LowBits(Widen(b), 8)
    ensures a == b
  {
    WidenIsByte(a);
    WidenIsByte(b);
    hide Widen, LowBits;
    AboveByte(Widen(a));
    AboveByte(Widen(b));
    LowBitsDetermine(Widen(a), Widen(b), 8);
    WidenInjective(a, b);
  }

  // ---- Bursts -------------------------------------------------------------------------

  lemma BitStepInjective(r: bv32, q: bv32, bit: bool)
    requires BitStep(r, bit) == BitStep(q, bit)
    ensures r == q
  {
    hide Step, Xor;
    StepInjective(Xor(r, if bit then 1 else 0), Xor(q, if bit then 1 else 0));
    XorInjective(r, q, if bit then 1 else 0);
  }

  lemma {:induction false} FeedInjective(r: bv32, q: bv32, bits: seq<bool>)
    requires Feed(r, bits) == Feed(q, bits)
    ensures r == q
    decreases |bits|
  {
    hide BitStep;
    if bits != [] {
      FeedInjective(BitStep(r, bits[0]), BitStep(q, bits[0]), bits[1..]);
      BitStepInjective(r, q, bits[0]);
    }
  }

  /** Where two rows of bits differ. */
  function Differences(u: seq<bool>, v: seq<bool>): (bits: seq<bool>)
    requires |u| == |v|
    ensures |bits| == |u|
  {
    seq(|u|, i requires 0 <= i < |u| => u[i] != v[i])
  }

  /** The difference of two registers before one bit, recovered from the one after. */
  lemma DifferenceBefore(r: bv32, q: bv32, bit: bool, other: bool)
    requires !Top(Xor(BitStep(r, bit), BitStep(q, other)))
    ensures Xor(r, q) == Xor(if bit != other then 1 else 0, Double(Xor(BitStep(r, bit), BitStep(q, other))))
  {
    var x: bv32, y: bv32 := if bit then 1 else 0, if other then 1 else 0;
    var d := Xor(BitStep(r, bit), BitStep(q, other));
    hide Top, Odd, Half, Double, Xor;
    HalfOfDouble(d);
    XorOfBits(bit, other);
    StepLinear(Xor(r, x), Xor(q, y));
    assert Step(Double(d)) == d;
    StepInjective(Xor(Xor(r, x), Xor(q, y)), Double(d));
    XorRegroup(r, q, x, y);
    XorCommutes(Double(d), Xor(x, y));
  }

  /** Registers that agree after at most 32 bits differed before by exactly the bits
      that differ. */
  lemma {:induction false} DifferenceIsPacked(r: bv32, q: bv32, u: seq<bool>, v: seq<bool>)
    requires |u| == |v| <= 32 && Feed(r, u) == Feed(q, v)
    ensures Xor(r, q) == Pack(Differences(u, v))
    decreases |u|
  {
    hide BitStep, Xor, Double, Top;
    if u == [] {
      XorSelf(r, q);
    } else {
      var r', q' := BitStep(r, u[0]), BitStep(q, v[0]);
      DifferenceIsPacked(r', q', u[1..], v[1..]);
      assert Differences(u, v)[1..] == Differences(u[1..], v[1..]);
      PackIsLow(Differences(u[1..], v[1..]));
      DifferenceBefore(r, q, u[0], v[0]);
    }
  }

  /** At most 32 bits fed to one register leave it in different states unless they
      are the same bits. */
  lemma WindowInjective(r: bv32, u: seq<bool>, v: seq<bool>)
    requires |u| == |v| <= 32 && Feed(r, u) == Feed(r, v)
    ensures u == v
  {
    hide Xor, Pack;
    DifferenceIsPacked(r, r, u, v);
    XorSelf(r, r);
    PackZero(Differences(u, v));
    assert forall i :: 0 <= i < |u| ==> Differences(u, v)[i] == (u[i] != v[i]);
  }

  lemma FinishInjective(r: bv32, q: bv32)
    requires Finish(r) == Finish(q)
    ensures r == q
  {
    NumberInjective(!r, !q);
    DoubleNegation(r);
    DoubleNegation(q);
  }

  lemma NumberInjective(x: bv32, y: bv32)
    requires Number(x) == Number(y)
    ensures x == y
  {
    hide TableIndex, Down, Low;
    var (x1, y1) := (Down(x), Down(y));
    var (x2, y2) := (Down(x1), Down(y1));
    var (x3, y3) := (Down(x2), Down(y2));
    NumberBytes(x);
    NumberBytes(y);
    SameLow(x, y);
    SameLow(x1, y1);
    SameLow(x2, y2);
    SameLow(x3, y3);
    BytesDetermine(x, y);
  }

  /** The bytes of a word's number are the word's bytes. */
  lemma NumberBytes(x: bv32)
    ensures Number(x) % 256 == TableIndex(x) && Number(x) / 256 % 256 == TableIndex(Down(x))
    ensures Number(x) / 0x1_0000 % 256 == TableIndex(Down(Down(x)))
    ensures Number(x) / 0x100_0000 == TableIndex(Down(Down(Down(x))))
  {
    hide TableIndex, Down;
    FourDigits(TableIndex(x), TableIndex(Down(x)), TableIndex(Down(Down(x))), TableIndex(Down(Down(Down(x)))));
  }

  lemma FourDigits(a: byte, b: byte, c: byte, d: byte)
    ensures var n: int := a + 0x100 * b + 0x1_0000 * c + 0x100_0000 * d;
            n % 256 == a && n / 256 % 256 == b && n / 0x1_0000 % 256 == c && n / 0x100_0000 == d
  {
    var high: int := b + 0x100 * c + 0x1_0000 * d;
    var n: int := a + 0x100 * high;
    assert n / 256 == high && n / 0x1_0000 == high / 256 == c + 0x100 * d && n / 0x100_0000 == d;
  }

  lemma SameLow(x: bv32, y: bv32)
    requires TableIndex(x) == TableIndex(y)
    ensures Low(x) == Low(y)
  {
    hide Low, TableIndex, Widen;
    IndexIsLow(x);
    IndexIsLow(y);
  }

  /** The two strings agree outside the 32 bits from bit `at`. */
  ghost predicate DifferWithinBits(a: seq<byte>, b: seq<byte>, at: nat) {
    |a| == |b| && forall j :: 0 <= j < 8 * |a| && (j < at || at + 32 <= j) ==> BitsOf(a)[j] == BitsOf(b)[j]
  }

  /** Damage confined to 32 consecutive bits, wherever they start, always changes the
      checksum. */
  lemma BitBurstDetected(a: seq<byte>, b: seq<byte>, at: nat)
    requires DifferWithinBits(a, b, at) && at <= 8 * |a|
    requires a != b
    ensures Crc(a) != Crc(b)
  {
    hide BitsOf, Register, Feed, Finish;
    if Crc(a) == Crc(b) {
      FinishInjective(Register(INIT, a), Register(INIT, b));
      RegisterTakesBits(INIT, a);
      RegisterTakesBits(INIT, b);
      SameFeed(BitsOf(a), BitsOf(b), at);
      BitsDetermine(a, b);
    }
  }

  lemma SameFeed(u: seq<bool>, v: seq<bool>, at: nat)
    requires |u| == |v| && at <= |u| && Feed(INIT, u) == Feed(INIT, v)
    requires forall j :: 0 <= j < |u| && (j < at || at + 32 <= j) ==> u[j] == v[j]
    ensures u == v
  {
    hide Feed;
    var mid := if at + 32 <= |u| then at + 32 else |u|;
    assert u[..at] == v[..at] && u[mid..] == v[mid..];
    SplitFeed(u, at, mid);
    SplitFeed(v, at, mid);
    var r := Feed(INIT, u[..at]);
    FeedInjective(Feed(r, u[at..mid]), Feed(r, v[at..mid]), u[mid..]);
    WindowInjective(r, u[at..mid], v[at..mid]);
    assert u == u[..at] + u[at..mid] + u[mid..] && v == v[..at] + v[at..mid] + v[mid..];
  }

  lemma SplitFeed(u: seq<bool>, at: nat, mid: nat)
    requires at <= mid <= |u|
    ensures Feed(INIT, u) == Feed(Feed(Feed(INIT, u[..at]), u[at..mid]), u[mid..])
  {
    hide Feed;
    FeedConcat(INIT, u[..at], u[at..]);
    FeedConcat(Feed(INIT, u[..at]), u[at..mid], u[mid..]);
    assert u == u[..at] + u[at..] && u[at..] == u[at..mid] + u[mid..];
  }

  /** The two strings agree outside the four positions from `at`. */
  ghost predicate DifferWithin(a: seq<byte>, b: seq<byte>, at: nat) {
    |a| == |b| && forall j :: 0 <= j < |a| && (j < at || at + 4 <= j) ==> a[j] == b[j]
  }

  lemma {:induction false} BitAt(a: seq<byte>, j: nat)
    requires j < 8 * |a|
    ensures BitsOf(a)[j] == LowBits(Widen(a[j / 8]), 8)[j % 8]
    decreases |a|
  {
    hide LowBits, Widen;
    if j >= 8 {
      BitAt(a[1..], j - 8);
      assert a[1..][(j - 8) / 8] == a[j / 8];
    }
  }

  /** So does damage confined to four consecutive bytes. */
  lemma BurstDetected(a: seq<byte>, b: seq<byte>, at: nat)
    requires DifferWithin(a, b, at) && at <= |a|
    requires a != b
    ensures Crc(a) != Crc(b)
  {
    hide BitsOf, LowBits, Widen, Crc;
    forall j | 0 <= j < 8 * |a| && (j < 8 * at || 8 * at + 32 <= j)
      ensures BitsOf(a)[j] == BitsOf(b)[j]
    {
      BitAt(a, j);
      BitAt(b, j);
      assert a[j / 8] == b[j / 8];
    }
    BitBurstDetected(a, b, 8 * at);
  }

  // ---- Odd damage --------------------------------------------------------------------

  /** How many bits were flipped between two rows. */
  function Flips(u: seq<bool>, v: seq<bool>): nat
    requires |u| == |v|
  {
    if u == [] then 0
    else
      var n := |u| - 1;
      Flips(u[..n], v[..n]) + if u[n] != v[n] then 1 else 0
  }

  /** The polynomial has an even number of terms, so a step keeps parity. */
  lemma StepKeepsParity(x: bv32)
    ensures OddBits(Step(x)) <==> OddBits(x)
  {
    assert OddBits(POLY);
    hide Odd, Half, Xor, OddBits;
    OddBitsOfHalf(x);
    OddBitsOfXor(Half(x), POLY);
  }

  lemma BitStepParity(r: bv32, bit: bool)
    ensures OddBits(BitStep(r, bit)) <==> OddBits(r) != bit
  {
    hide Xor, OddBits, Step;
    BitParity();
    StepKeepsParity(Xor(r, if bit then 1 else 0));
    OddBitsOfXor(r, if bit then 1 else 0);
  }

  lemma FeedLast(r: bv32, u: seq<bool>)
    requires u != []
    ensures Feed(r, u) == BitStep(Feed(r, u[..|u| - 1]), u[|u| - 1])
  {
    hide BitStep;
    var n := |u| - 1;
    FeedConcat(r, u[..n], [u[n]]);
    assert u == u[..n] + [u[n]];
    assert [u[n]][1..] == [];
  }

  lemma {:induction false} FeedParity(r: bv32, q: bv32, u: seq<bool>, v: seq<bool>)
    requires |u| == |v|
    ensures OddBits(Feed(r, u)) != OddBits(Feed(q, v)) <==> (OddBits(r) != OddBits(q)) != (Flips(u, v) % 2 == 1)
    decreases |u|
  {
    hide OddBits, BitStep;
    if u != [] {
      var n := |u| - 1;
      FeedParity(r, q, u[..n], v[..n]);
      FeedLast(r, u);
      FeedLast(q, v);
      BitStepParity(Feed(r, u[..n]), u[n]);
      BitStepParity(Feed(q, v[..n]), v[n]);
    }
  }

  /** Damage that flips an odd number of bits, wherever they are, always changes the
      checksum. */
  lemma OddFlipsDetected(a: seq<byte>, b: seq<byte>)
    requires |a| == |b| && Flips(BitsOf(a), BitsOf(b)) % 2 == 1
    ensures Crc(a) != Crc(b)
  {
    hide OddBits, Register, Flips, Finish, Feed, BitsOf;
    FeedParity(INIT, INIT, BitsOf(a), BitsOf(b));
    RegisterTakesBits(INIT, a);
    RegisterTakesBits(INIT, b);
    if Crc(a) == Crc(b) {
      FinishInjective(Register(INIT, a), Register(INIT, b));
    }
  }

  ghost function DiffersAt(u: seq<bool>, v: seq<bool>): set<int>
    requires |u| == |v|
  {
    set i | 0 <= i < |u| && u[i] != v[i]
  }

  /** `Flips` counts the positions that differ. */
  lemma {:induction false} FlipsAreCounted(u: seq<bool>, v: seq<bool>)
    requires |u| == |v|
    ensures Flips(u, v) == |DiffersAt(u, v)|
    decreases |u|
  {
    if u != [] {
      var n := |u| - 1;
      FlipsAreCounted(u[..n], v[..n]);
      var before := DiffersAt(u[..n], v[..n]);
      assert DiffersAt(u, v) == if u[n] != v[n] then before + {n} else before;
    }
  }

  // ---- What makes it CRC-32C ---------------------------------------------------------

  lemma EmptyChecksum()
    ensures Crc([]) == 0
  {
    assert Finish(0xFFFF_FFFF) == 0;
  }

  /** The published check value: the checksum of the nine digits "123456789". */
  lemma CheckValue()
    ensures Crc([0x31, 0x32, 0x33, 0x34, 0x35, 0x36, 0x37, 0x38, 0x39]) == 0xE306_9283
  {
    CheckSteps();
    hide ByteStep, Register, Finish;
    var s: seq<byte> := [0x31, 0x32, 0x33, 0x34, 0x35, 0x36, 0x37, 0x38, 0x39];
    RegisterCons(0xFFFF_FFFF, s, 0x6F0A_661C);
    RegisterCons(0x6F0A_661C, s[1..], 0x8CAA_3B9F);
    RegisterCons(0x8CAA_3B9F, s[2..], 0xEF84_D04D);
    RegisterCons(0xEF84_D04D, s[3..], 0x09C5_0B11);
    RegisterCons(0x09C5_0B11, s[4..], 0xE72E_DCCA);
    RegisterCons(0xE72E_DCCA, s[5..], 0xBECA_8E79);
    RegisterCons(0xBECA_8E79, s[6..], 0xEDBD_6815);
    RegisterCons(0xEDBD_6815, s[7..], 0x9F78_7F65);
    RegisterCons(0x9F78_7F65, s[8..], 0x1CF9_6D7C);
    assert s[9..] == [];
    NoBytes(0x1CF9_6D7C);
    CheckFinish();
  }

  lemma RegisterCons(r: bv32, s: seq<byte>, next: bv32)
    requires s != [] && ByteStep(r, s[0]) == next
    ensures Register(r, s) == Register(next, s[1..])
  {
    hide ByteStep;
  }

  lemma NoBytes(r: bv32)
    ensures Register(r, []) == r
  {}

  lemma CheckFinish()
    ensures Finish(0x1CF9_6D7C) == 0xE306_9283
  {
    assert TableIndex(0xE306_9283) == 0x83 && TableIndex(0xE3_0692) == 0x92;
    assert TableIndex(0xE306) == 0x06 && TableIndex(0xE3) == 0xE3;
  }

  lemma CheckSteps()
    ensures ByteStep(0xFFFF_FFFF, 0x31) == 0x6F0A_661C
    ensures ByteStep(0x6F0A_661C, 0x32) == 0x8CAA_3B9F
    ensures ByteStep(0x8CAA_3B9F, 0x33) == 0xEF84_D04D
    ensures ByteStep(0xEF84_D04D, 0x34) == 0x09C5_0B11
    ensures ByteStep(0x09C5_0B11, 0x35) == 0xE72E_DCCA
    ensures ByteStep(0xE72E_DCCA, 0x36) == 0xBECA_8E79
    ensures ByteStep(0xBECA_8E79, 0x37) == 0xEDBD_6815
    ensures ByteStep(0xEDBD_6815, 0x38) == 0x9F78_7F65
    ensures ByteStep(0x9F78_7F65, 0x39) == 0x1CF9_6D7C
  {}

  /** The preset makes leading zeros count: one more in front always changes the
      checksum. */
  lemma LeadingZeroCounts(data: seq<byte>)
    ensures Crc([0] + data) != Crc(data)
  {
    assert ByteStep(INIT, 0) != INIT;
    hide ByteStep, Finish, Feed, BitsOf;
    assert ([0] + data)[1..] == data;
    if Crc([0] + data) == Crc(data) {
      FinishInjective(Register(INIT, [0] + data), Register(INIT, data));
      RegisterTakesBits(ByteStep(INIT, 0), data);
      RegisterTakesBits(INIT, data);
      FeedInjective(ByteStep(INIT, 0), INIT, BitsOf(data));
    }
  }

  /** The register after any data and its checksum, lowest byte first, is always the
      same word. */
  lemma Residue(data: seq<byte>)
    ensures Register(INIT, data + LE(Crc(data), 4)) == 0xB798_B438
  {
    hide Feed, BitsOf, ByteStep, Number, LE;
    var r := Register(INIT, data);
    RegisterConcat(INIT, data, LE(Crc(data), 4));
    OwnBytes(r);
  }

  lemma {:induction false} RegisterConcat(r: bv32, a: seq<byte>, b: seq<byte>)
    ensures Register(r, a + b) == Register(Register(r, a), b)
    decreases |a|
  {
    hide ByteStep;
    if a == [] {
      assert a + b == b;
    } else {
      assert (a + b)[1..] == a[1..] + b;
      RegisterConcat(ByteStep(r, a[0]), a[1..], b);
    }
  }

  lemma BytesOfNumber(x: bv32)
    ensures LE(Number(x), 4) ==
            [TableIndex(x), TableIndex(Down(x)), TableIndex(Down(Down(x))), TableIndex(Down(Down(Down(x))))]
  {
    NumberBytes(x);
    hide TableIndex, Down, Number;
    LE4(Number(x));
  }

  /** One byte of the complement of `q` turns it into what lies above. */
  lemma OwnByte(c: bv32, q: bv32, w: bv32, next: bv32)
    requires Low(w) == Xor(Low(q), 0xFF) && Steps(Xor(c, 0xFF), 8) == next
    ensures ByteStep(Xor(c, q), TableIndex(w)) == Xor(next, Down(q))
  {
    hide Down, Low, High, Xor, TableIndex, Steps, Widen;
    IndexIsLow(w);
    OwnLow(c, q);
    StepsLinear(Xor(c, 0xFF), High(q), 8);
    SplitLowByte(q);
    ClearLowByteShifts(High(q));
  }

  /** A register fed its own complement. */
  lemma OwnBytes(r: bv32)
    ensures Register(r, LE(Number(!r), 4)) == 0xB798_B438
  {
    BytesOfNumber(!r);
    Complements(r);
    ResidueSteps();
    hide Down, Low, Xor, TableIndex, Number, Steps, LE, ByteStep;
    var (r1, r2, r3) := (Down(r), Down(Down(r)), Down(Down(Down(r))));
    var bytes := LE(Number(!r), 4);
    OwnByte(0, r, !r, 0xAD7D_5351);
    OwnByte(0xAD7D_5351, r1, Down(!r), 0x0E9E_77D2);
    OwnByte(0x0E9E_77D2, r2, Down(Down(!r)), 0x9F9B_5C7A);
    OwnByte(0x9F9B_5C7A, r3, Down(Down(Down(!r))), 0xB798_B438);
    FourBytes(r, bytes);
  }

  lemma ResidueSteps()
    ensures Steps(Xor(0, 0xFF), 8) == 0xAD7D_5351
    ensures Steps(Xor(0xAD7D_5351, 0xFF), 8) == 0x0E9E_77D2
    ensures Steps(Xor(0x0E9E_77D2, 0xFF), 8) == 0x9F9B_5C7A
    ensures Steps(Xor(0x9F9B_5C7A, 0xFF), 8) == 0xB798_B438
  {}

  lemma FourBytes(r: bv32, a: seq<byte>)
    requires |a| == 4
    ensures Register(r, a) == ByteStep(ByteStep(ByteStep(ByteStep(r, a[0]), a[1]), a[2]), a[3])
  {
    hide ByteStep;
    var s := ByteStep(r, a[0]);
    var t := ByteStep(s, a[1]);
    assert a[1..][1..] == a[2..] && a[2..][1..] == a[3..] && a[3..][1..] == [];
    var u := ByteStep(t, a[2]);
    assert Register(u, a[3..]) == Register(ByteStep(u, a[3]), []);
    assert Register(t, a[2..]) == Register(u, a[3..]);
    assert Register(r, a) == Register(s, a[1..]) == Register(t, a[2..]);
  }
}
