/** 32-bit words: the operations the checksum is made of, under names so that a
    proof can `hide` them and reason from their laws instead of from bits. */
module Words {

  predicate Odd(x: bv32) { x & 1 != 0 }
  function Half(x: bv32): bv32 { x >> 1 }
  function Xor(x: bv32, y: bv32): bv32 { x ^ y }
  function Low(x: bv32): bv32 { x & 0xFF }
  function High(x: bv32): bv32 { x & 0xFFFF_FF00 }
  function Down(x: bv32): bv32 { x >> 8 }
  function Up(x: bv32): bv32 { x << 8 }
  predicate TopClear(x: bv32) { x & 0xFF00_0000 == 0 }
  predicate IsByte(x: bv32) { x & 0xFFFF_FF00 == 0 }
  predicate Top(x: bv32) { x & 0x8000_0000 != 0 }
  function Double(x: bv32): bv32 { x << 1 }

  // ---- Laws

  lemma OddOfXor(x: bv32, y: bv32)
    ensures Odd(Xor(x, y)) <==> Odd(x) != Odd(y)
  {}

  lemma HalfOfXor(x: bv32, y: bv32)
    ensures Half(Xor(x, y)) == Xor(Half(x), Half(y))
  {}

  lemma XorAssociates(a: bv32, b: bv32, c: bv32)
    ensures Xor(a, Xor(b, c)) == Xor(Xor(a, b), c)
  {}

  lemma XorCommutes(a: bv32, b: bv32)
    ensures Xor(a, b) == Xor(b, a)
  {}

  lemma XorUndoes(a: bv32, p: bv32)
    ensures Xor(Xor(a, p), p) == a
  {}

  lemma XorSlides(a: bv32, b: bv32, p: bv32)
    ensures Xor(Xor(a, p), b) == Xor(Xor(a, b), p)
    ensures Xor(Xor(a, p), Xor(b, p)) == Xor(a, b)
  {
    XorAssociates(a, p, b);
    XorCommutes(p, b);
    XorAssociates(a, b, p);
    XorAssociates(Xor(a, p), b, p);
    XorUndoes(Xor(a, b), p);
    hide Xor;
  }

  lemma XorInjective(x: bv32, y: bv32, z: bv32)
    requires Xor(x, z) == Xor(y, z)
    ensures x == y
  {}

  lemma HalfAndOddDetermine(x: bv32, y: bv32)
    requires Half(x) == Half(y) && Odd(x) == Odd(y)
    ensures x == y
  {}

  lemma ClearLowByte(x: bv32)
    requires Low(x) == 0
    ensures !Odd(x) && !Odd(x >> 1) && !Odd(x >> 2) && !Odd(x >> 3)
    ensures !Odd(x >> 4) && !Odd(x >> 5) && !Odd(x >> 6) && !Odd(x >> 7)
    ensures Half(x) == x >> 1 && Half(x >> 1) == x >> 2 && Half(x >> 2) == x >> 3 && Half(x >> 3) == x >> 4
    ensures Half(x >> 4) == x >> 5 && Half(x >> 5) == x >> 6 && Half(x >> 6) == x >> 7 && Half(x >> 7) == Down(x)
  {}

  lemma SplitLowByte(x: bv32)
    ensures Xor(Low(x), High(x)) == x
    ensures Low(High(x)) == 0 && Down(High(x)) == Down(x)
  {}

  lemma XorRegroup(r: bv32, q: bv32, a: bv32, b: bv32)
    ensures Xor(r, q) == Xor(Xor(Xor(r, a), Xor(q, b)), Xor(a, b))
  {
    XorAssociates(Xor(r, a), q, b);
    XorSlides(r, q, a);
    XorAssociates(Xor(Xor(r, q), a), b, Xor(a, b));
    XorCommutes(a, b);
    XorAssociates(b, b, a);
    XorCommutes(Xor(b, b), a);
    XorAssociates(a, b, b);
    XorUndoes(a, b);
    XorUndoes(Xor(r, q), a);
    hide Xor;
  }

  lemma XorSelf(x: bv32, y: bv32)
    ensures Xor(x, x) == 0 && Xor(x, 0) == x && (Xor(x, y) == 0 ==> x == y)
  {}

  /** The four bytes of a word determine it. */
  lemma BytesDetermine(x: bv32, y: bv32)
    requires Low(x) == Low(y) && Low(Down(x)) == Low(Down(y))
    requires Low(Down(Down(x))) == Low(Down(Down(y))) && Low(Down(Down(Down(x)))) == Low(Down(Down(Down(y))))
    ensures x == y
  {}

  /** Folding in the complement of the low byte leaves all ones there. */
  lemma OwnLow(c: bv32, q: bv32)
    ensures Xor(Xor(c, q), Xor(Low(q), 0xFF)) == Xor(Xor(c, 0xFF), High(q))
  {
    LowOff(q);
    XorCommutes(Low(q), 0xFF);
    hide Xor, Low, High;
    XorPairs(c, q, 0xFF, Low(q));
  }

  lemma LowOff(q: bv32)
    ensures Xor(q, Low(q)) == High(q)
  {}

  lemma Complements(r: bv32)
    ensures Low(!r) == Xor(Low(r), 0xFF) && Low(Down(!r)) == Xor(Low(Down(r)), 0xFF)
    ensures Low(Down(Down(!r))) == Xor(Low(Down(Down(r))), 0xFF)
    ensures Low(Down(Down(Down(!r)))) == Xor(Low(Down(Down(Down(r)))), 0xFF)
    ensures Xor(0, r) == r && Down(Down(Down(Down(r)))) == 0 && forall c :: Xor(c, 0) == c
  {}

  lemma DoubleOfXor(x: bv32, y: bv32)
    ensures Double(Xor(x, y)) == Xor(Double(x), Double(y))
  {}

  lemma TopOfXor(x: bv32, y: bv32)
    requires !Top(x) && !Top(y)
    ensures !Top(Xor(x, y))
  {}

  /** Doubling and halving a word whose top bit is clear. */
  lemma HalfOfDouble(x: bv32)
    requires !Top(x)
    ensures Half(Double(x)) == x && !Odd(Double(x)) && (Double(x) == 0 ==> x == 0)
  {}

  /** A word is its lowest bit and twice its half. */
  lemma LowestBit(x: bv32)
    ensures Xor(if Odd(x) then 1 else 0, Double(Half(x))) == x
    ensures !Odd(Double(Half(x))) && Half(Double(Half(x))) == Half(x)
  {}

  // ---- Bits in a row

  /** The `n` lowest bits, lowest first. */
  function LowBits(x: bv32, n: nat): (bits: seq<bool>)
    ensures |bits| == n
  {
    if n == 0 then [] else [Odd(x)] + LowBits(Half(x), n - 1)
  }

  /** What is left above them. */
  function Above(x: bv32, n: nat): bv32 {
    if n == 0 then x else Above(Half(x), n - 1)
  }

  lemma {:induction false} LowBitsDetermine(x: bv32, y: bv32, n: nat)
    requires LowBits(x, n) == LowBits(y, n) && Above(x, n) == Above(y, n)
    ensures x == y
    decreases n
  {
    hide Odd, Half;
    if n > 0 {
      assert LowBits(x, n)[1..] == LowBits(Half(x), n - 1);
      assert LowBits(y, n)[1..] == LowBits(Half(y), n - 1);
      assert LowBits(x, n)[0] == Odd(x) && LowBits(y, n)[0] == Odd(y);
      LowBitsDetermine(Half(x), Half(y), n - 1);
      HalfAndOddDetermine(x, y);
    }
  }

  lemma AboveByte(x: bv32)
    requires IsByte(x)
    ensures Above(x, 8) == 0
  {
    ByteHalves(x);
    hide Half;
    assert Above(x >> 6, 2) == Above(x >> 7, 1) == 0;
    assert Above(x >> 4, 4) == Above(x >> 5, 3) == Above(x >> 6, 2);
    assert Above(x >> 2, 6) == Above(x >> 3, 5) == Above(x >> 4, 4);
    assert Above(x, 8) == Above(x >> 1, 7) == Above(x >> 2, 6);
  }

  lemma ByteHalves(x: bv32)
    requires IsByte(x)
    ensures Half(x) == x >> 1 && Half(x >> 1) == x >> 2 && Half(x >> 2) == x >> 3 && Half(x >> 3) == x >> 4
    ensures Half(x >> 4) == x >> 5 && Half(x >> 5) == x >> 6 && Half(x >> 6) == x >> 7 && Half(x >> 7) == 0
  {}

  /** The bits as a word, the first one lowest. */
  function Pack(bits: seq<bool>): bv32 {
    if bits == [] then 0 else Xor(if bits[0] then 1 else 0, Double(Pack(bits[1..])))
  }

  /** The `n` highest bits are clear. */
  predicate HighClear(x: bv32, n: nat)
    decreases n
  {
    n == 0 || (!Top(x) && HighClear(Double(x), n - 1))
  }

  lemma {:induction false} HighClearXor(x: bv32, y: bv32, n: nat)
    requires HighClear(x, n) && HighClear(y, n)
    ensures HighClear(Xor(x, y), n)
    decreases n
  {
    hide Top, Double, Xor;
    if n > 0 {
      DoubleOfXor(x, y);
      TopOfXor(x, y);
      HighClearXor(Double(x), Double(y), n - 1);
    }
  }

  lemma {:induction false} HighClearLess(x: bv32, m: nat, n: nat)
    requires HighClear(x, n) && m <= n
    ensures HighClear(x, m)
    decreases m
  {
    hide Top, Double;
    if m > 0 {
      HighClearLess(Double(x), m - 1, n - 1);
    }
  }

  /** Eight clear bits in front of `n` more. */
  lemma HighClearByte(x: bv32, n: nat)
    requires TopClear(x) && HighClear(Up(x), n)
    ensures HighClear(x, n + 8)
  {
    ByteDoubles(x);
    hide Top, Double, Up, TopClear;
    assert HighClear(x << 7, n + 1);
    assert HighClear(x << 6, n + 2);
    assert HighClear(x << 5, n + 3);
    assert HighClear(x << 4, n + 4);
    assert HighClear(x << 3, n + 5);
    assert HighClear(x << 2, n + 6);
    assert HighClear(x << 1, n + 7);
  }

  lemma ByteDoubles(x: bv32)
    requires TopClear(x)
    ensures !Top(x) && !Top(x << 1) && !Top(x << 2) && !Top(x << 3)
    ensures !Top(x << 4) && !Top(x << 5) && !Top(x << 6) && !Top(x << 7)
    ensures Double(x) == x << 1 && Double(x << 1) == x << 2 && Double(x << 2) == x << 3 && Double(x << 3) == x << 4
    ensures Double(x << 4) == x << 5 && Double(x << 5) == x << 6 && Double(x << 6) == x << 7 && Double(x << 7) == Up(x)
  {}

  lemma HighClearOne(n: nat)
    requires n <= 31
    ensures HighClear(1, n) && HighClear(0, n)
  {
    ShiftedOne();
    hide Top, Double, Up, TopClear;
    assert HighClear(0x4000_0000, 1);
    assert HighClear(0x2000_0000, 2);
    assert HighClear(0x1000_0000, 3);
    assert HighClear(0x0800_0000, 4);
    assert HighClear(0x0400_0000, 5);
    assert HighClear(0x0200_0000, 6);
    assert HighClear(0x0100_0000, 7);
    HighClearByte(0x1_0000, 7);
    HighClearByte(0x100, 15);
    HighClearByte(1, 23);
    HighClearLess(1, n, 31);
    HighClearZero(n);
  }

  lemma ShiftedOne()
    ensures !Top(0x4000_0000) && !Top(0x2000_0000) && !Top(0x1000_0000) && !Top(0x0800_0000)
    ensures !Top(0x0400_0000) && !Top(0x0200_0000) && !Top(0x0100_0000)
    ensures Double(0x2000_0000) == 0x4000_0000 && Double(0x1000_0000) == 0x2000_0000
    ensures Double(0x0800_0000) == 0x1000_0000 && Double(0x0400_0000) == 0x0800_0000
    ensures Double(0x0200_0000) == 0x0400_0000 && Double(0x0100_0000) == 0x0200_0000
    ensures Up(0x1_0000) == 0x0100_0000 && Up(0x100) == 0x1_0000 && Up(1) == 0x100
    ensures TopClear(0x1_0000) && TopClear(0x100) && TopClear(1)
  {}

  lemma {:induction false} HighClearZero(n: nat)
    ensures HighClear(0, n)
    decreases n
  {
    if n > 0 {
      HighClearZero(n - 1);
      assert !Top(0) && Double(0) == 0;
    }
  }

  /** Few bits leave the high end clear. */
  lemma {:induction false} PackIsLow(bits: seq<bool>)
    requires |bits| <= 32
    ensures HighClear(Pack(bits), 32 - |bits|)
    decreases |bits|
  {
    hide Top, Double, Xor;
    if bits == [] {
      HighClearZero(32);
    } else {
      PackIsLow(bits[1..]);
      HighClearOne(32 - |bits|);
      HighClearXor(if bits[0] then 1 else 0, Double(Pack(bits[1..])), 32 - |bits|);
    }
  }

  lemma {:induction false} PackZero(bits: seq<bool>)
    requires |bits| <= 32 && Pack(bits) == 0
    ensures forall i :: 0 <= i < |bits| ==> !bits[i]
    decreases |bits|
  {
    if bits != [] {
      var rest := Pack(bits[1..]);
      PackIsLow(bits[1..]);
      HalfOfDouble(rest);
      NoLowBit(bits[0], rest);
      hide Pack, Top, Double, Xor;
      PackZero(bits[1..]);
      assert forall i :: 0 < i < |bits| ==> bits[i] == bits[1..][i - 1];
    }
  }

  lemma NoLowBit(bit: bool, x: bv32)
    requires Xor(if bit then 1 else 0, Double(x)) == 0
    ensures !bit && Double(x) == 0
  {}

  lemma XorOfBits(bit: bool, other: bool)
    ensures Xor(if bit then 1 else 0, if other then 1 else 0) == if bit != other then 1 else 0
  {}

  // ---- Parity

  function Fold16(x: bv32): bv32 { LowHalf(Xor(x, HighHalf(x))) }
  function LowHalf(x: bv32): bv32 { x & 0xFFFF }
  function HighHalf(x: bv32): bv32 { x >> 16 }
  function Fold8(x: bv32): bv32 { (x ^ (x >> 8)) & 0xFF }
  function Fold4(x: bv32): bv32 { (x ^ (x >> 4)) & 0xF }
  function Fold2(x: bv32): bv32 { (x ^ (x >> 2)) & 0x3 }
  function Fold1(x: bv32): bv32 { (x ^ (x >> 1)) & 0x1 }

  /** An odd number of bits is set: the word folded onto itself down to one bit. */
  predicate OddBits(x: bv32) {
    Fold1(Fold2(Fold4(Fold8(Fold16(x))))) == 1
  }

  lemma HighHalfOfXor(x: bv32, y: bv32)
    ensures HighHalf(Xor(x, y)) == Xor(HighHalf(x), HighHalf(y))
  {}

  lemma LowHalfOfXor(x: bv32, y: bv32)
    ensures LowHalf(Xor(x, y)) == Xor(LowHalf(x), LowHalf(y))
  {}

  lemma XorPairs(x: bv32, y: bv32, a: bv32, b: bv32)
    ensures Xor(Xor(x, y), Xor(a, b)) == Xor(Xor(x, a), Xor(y, b))
  {
    XorAssociates(Xor(x, y), a, b);
    XorSlides(x, a, y);
    XorAssociates(Xor(x, a), y, b);
    hide Xor;
  }

  lemma Fold16OfXor(x: bv32, y: bv32)
    ensures Fold16(Xor(x, y)) == Xor(Fold16(x), Fold16(y))
  {
    hide Xor, LowHalf, HighHalf;
    HighHalfOfXor(x, y);
    XorPairs(x, y, HighHalf(x), HighHalf(y));
    LowHalfOfXor(Xor(x, HighHalf(x)), Xor(y, HighHalf(y)));
  }

  lemma Fold8OfXor(x: bv32, y: bv32)
    ensures Fold8(Xor(x, y)) == Xor(Fold8(x), Fold8(y))
  {}

  lemma Fold4OfXor(x: bv32, y: bv32)
    ensures Fold4(Xor(x, y)) == Xor(Fold4(x), Fold4(y))
  {}

  lemma Fold2OfXor(x: bv32, y: bv32)
    ensures Fold2(Xor(x, y)) == Xor(Fold2(x), Fold2(y))
  {}

  lemma Fold1OfXor(x: bv32, y: bv32)
    ensures Fold1(Xor(x, y)) == Xor(Fold1(x), Fold1(y))
  {}

  lemma OneBit(x: bv32, y: bv32)
    ensures Xor(Fold1(x), Fold1(y)) == 1 <==> (Fold1(x) == 1) != (Fold1(y) == 1)
  {}

  lemma OddBitsOfXor(x: bv32, y: bv32)
    ensures OddBits(Xor(x, y)) <==> OddBits(x) != OddBits(y)
  {
    hide Xor, Fold1, Fold2, Fold4, Fold8, Fold16;
    Fold16OfXor(x, y);
    var (a, b) := (Fold16(x), Fold16(y));
    Fold8OfXor(a, b);
    var (c, d) := (Fold8(a), Fold8(b));
    Fold4OfXor(c, d);
    var (e, f) := (Fold4(c), Fold4(d));
    Fold2OfXor(e, f);
    Fold1OfXor(Fold2(e), Fold2(f));
    OneBit(Fold2(e), Fold2(f));
  }

  function Turn(x: bv32): bv32 { (x << 1) | (x >> 31) }
  function Turn16(x: bv32): bv32 { ((x << 1) | (x >> 15)) & 0xFFFF }
  function Turn8(x: bv32): bv32 { ((x << 1) | (x >> 7)) & 0xFF }
  function Turn4(x: bv32): bv32 { ((x << 1) | (x >> 3)) & 0xF }
  function Turn2(x: bv32): bv32 { ((x << 1) | (x >> 1)) & 0x3 }

  lemma Fold16OfTurn(x: bv32)
    ensures Fold16(Turn(x)) == Turn16(Fold16(x))
  {}

  lemma Fold8OfTurn(x: bv32)
    requires x & 0xFFFF == x
    ensures Fold8(Turn16(x)) == Turn8(Fold8(x))
  {}

  lemma Fold4OfTurn(x: bv32)
    requires x & 0xFF == x
    ensures Fold4(Turn8(x)) == Turn4(Fold4(x))
  {}

  lemma Fold2OfTurn(x: bv32)
    requires x & 0xF == x
    ensures Fold2(Turn4(x)) == Turn2(Fold2(x))
  {}

  lemma Fold1OfTurn(x: bv32)
    requires x & 0x3 == x
    ensures Fold1(Turn2(x)) == Fold1(x)
  {}

  lemma FoldsAreNarrow(x: bv32)
    ensures Fold16(x) & 0xFFFF == Fold16(x) && Fold8(x) & 0xFF == Fold8(x)
    ensures Fold4(x) & 0xF == Fold4(x) && Fold2(x) & 0x3 == Fold2(x)
  {}

  /** Turning a word by one bit keeps its parity. */
  lemma TurnKeepsParity(x: bv32)
    ensures OddBits(Turn(x)) <==> OddBits(x)
  {
    hide Turn, Turn16, Turn8, Turn4, Turn2, Fold1, Fold2, Fold4, Fold8, Fold16;
    var a := Fold16(x);
    var b := Fold8(a);
    var c := Fold4(b);
    FoldsAreNarrow(x);
    FoldsAreNarrow(a);
    FoldsAreNarrow(b);
    FoldsAreNarrow(c);
    Fold16OfTurn(x);
    Fold8OfTurn(a);
    Fold4OfTurn(b);
    Fold2OfTurn(c);
    Fold1OfTurn(Fold2(c));
  }

  lemma DoubleIsTurn(x: bv32)
    requires !Top(x)
    ensures Turn(x) == Double(x)
  {
    assert x >> 31 == 0;
  }

  lemma TopOfHalf(x: bv32)
    ensures !Top(Half(x))
  {}

  lemma BitParity()
    ensures OddBits(1) && !OddBits(0)
  {}

  lemma OddBitsOfHalf(x: bv32)
    ensures OddBits(Half(x)) <==> OddBits(x) != Odd(x)
  {
    hide OddBits, Half, Odd, Top, Double, Turn, Xor;
    LowestBit(x);
    TopOfHalf(x);
    DoubleIsTurn(Half(x));
    TurnKeepsParity(Half(x));
    OddBitsOfXor(if Odd(x) then 1 else 0, Double(Half(x)));
    BitParity();
  }

  /** Bit reversal of a 32-bit word. */
  function Reverse(x: bv32): bv32 {
    ((x & 0x1) << 31) | ((x & 0x2) << 29) | ((x & 0x4) << 27) | ((x & 0x8) << 25) |
    ((x & 0x10) << 23) | ((x & 0x20) << 21) | ((x & 0x40) << 19) | ((x & 0x80) << 17) |
    ((x & 0x100) << 15) | ((x & 0x200) << 13) | ((x & 0x400) << 11) | ((x & 0x800) << 9) |
    ((x & 0x1000) << 7) | ((x & 0x2000) << 5) | ((x & 0x4000) << 3) | ((x & 0x8000) << 1) |
    ((x & 0x10000) >> 1) | ((x & 0x20000) >> 3) | ((x & 0x40000) >> 5) | ((x & 0x80000) >> 7) |
    ((x & 0x100000) >> 9) | ((x & 0x200000) >> 11) | ((x & 0x400000) >> 13) | ((x & 0x800000) >> 15) |
    ((x & 0x1000000) >> 17) | ((x & 0x2000000) >> 19) | ((x & 0x4000000) >> 21) | ((x & 0x8000000) >> 23) |
    ((x & 0x10000000) >> 25) | ((x & 0x20000000) >> 27) | ((x & 0x40000000) >> 29) | ((x & 0x80000000) >> 31)
  }

  lemma ReverseOfXor(x: bv32, y: bv32)
    ensures Reverse(Xor(x, y)) == Xor(Reverse(x), Reverse(y))
  {}

  lemma ReverseOfShift(x: bv32)
    ensures Reverse(x >> 1) == Reverse(x) << 1
  {}

  lemma ReverseOfHalf(x: bv32)
    ensures Reverse(Half(x)) == Double(Reverse(x))
  {
    ReverseOfShift(x);
    hide Reverse;
  }

  lemma TopOfReverse(x: bv32)
    ensures Top(Reverse(x)) <==> Odd(x)
  {}
}
