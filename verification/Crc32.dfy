/** CRC-32 (section 8 of RFC 1952) as the boot loader computes it, four bits at a time through a table of
    sixteen words, against the bit-at-a-time definition, and what it detects. */
module Crc32 {

  import opened Bytes

  const POLYNOMIAL: bv32 := 0xEDB8_8320

  function Xor(a: bv32, b: bv32): bv32 { a ^ b }

  /** One bit of the reflected CRC. */
  function Shift(c: bv32): bv32 {
    if Odd(c) then Xor(Half(c), POLYNOMIAL) else Half(c)
  }

  predicate Odd(c: bv32) { c & 1 == 1 }

  function Half(c: bv32): bv32 { c >> 1 }

  function Shift4(c: bv32): bv32 { Shift(Shift(Shift(Shift(c)))) }

  function Shift8(c: bv32): bv32 { Shift4(Shift4(c)) }

  /** Bit-at-a-time update by one byte. */
  function Update(c: bv32, b: Byte): bv32 { Shift8(Xor(c, b as bv32)) }

  function Fold(c: bv32, data: seq<Byte>): bv32
    decreases |data|
  {
    if data == [] then c else Fold(Update(c, data[0]), data[1..])
  }

  function Complement(c: bv32): bv32 { !c }

  function Crc(data: seq<Byte>): bv32 { Complement(Fold(0xFFFF_FFFF, data)) }

  // ----- The nibble table -----

  const CRC_TABLE: seq<bv32> := [
    0x0000_0000, 0x1DB7_1064, 0x3B6E_20C8, 0x26D9_30AC,
    0x76DC_4190, 0x6B6B_51F4, 0x4DB2_6158, 0x5005_713C,
    0xEDB8_8320, 0xF00F_9344, 0xD6D6_A3E8, 0xCB61_B38C,
    0x9B64_C2B0, 0x86D3_D2D4, 0xA00A_E278, 0xBDBD_F21C]

  /** Each entry is its index after four single-bit steps. */
  lemma TableEntries(i: bv32)
    requires i < 16
    ensures CRC_TABLE[i as int] == Shift4(i)
  {}

  function High(c: bv32): bv32 { c & 0xFFFF_FFF0 }

  function Low(c: bv32): bv32 { c & 0xF }

  function Down4(c: bv32): bv32 { c >> 4 }

  function NibbleStep(c: bv32): bv32
  {
    NibbleInTable(c);
    Xor(Down4(c), CRC_TABLE[Low(c) as int])
  }

  lemma NibbleInTable(c: bv32)
    ensures Low(c) < 16 && 0 <= Low(c) as int < |CRC_TABLE|
  {}

  lemma XorAssociates(a: bv32, b: bv32, c: bv32)
    ensures Xor(Xor(a, b), c) == Xor(a, Xor(b, c))
  {}

  lemma XorCommutes(a: bv32, b: bv32)
    ensures Xor(a, b) == Xor(b, a)
  {}

  lemma XorPairs(a: bv32, b: bv32, x: bv32, y: bv32)
    ensures Xor(Xor(a, x), Xor(b, y)) == Xor(Xor(a, b), Xor(x, y))
  {
    hide Xor;
    XorAssociates(a, x, Xor(b, y));
    XorAssociates(x, b, y);
    XorCommutes(x, b);
    XorAssociates(b, x, y);
    XorAssociates(a, b, Xor(x, y));
  }

  lemma XorTwice(d: bv32, x: bv32)
    ensures Xor(Xor(d, x), x) == d
  {}

  lemma XorIdentity(a: bv32)
    ensures Xor(a, 0) == a
  {}

  lemma XorSelf(a: bv32)
    ensures Xor(a, a) == 0
  {}

  lemma XorZero(a: bv32, b: bv32)
    ensures Xor(a, b) == 0 <==> a == b
  {
    hide Xor;
    XorSelf(a);
    XorTwice(a, b);
    XorCommutes(0, b);
    XorIdentity(b);
  }

  lemma HalfXor(a: bv32, b: bv32)
    ensures Half(Xor(a, b)) == Xor(Half(a), Half(b))
  {}

  lemma OddXor(a: bv32, b: bv32)
    ensures Odd(Xor(a, b)) <==> Odd(a) != Odd(b)
  {}

  lemma ShiftLinear(a: bv32, b: bv32)
    ensures Shift(Xor(a, b)) == Xor(Shift(a), Shift(b))
  {
    hide Xor, Odd, Half;
    HalfXor(a, b);
    OddXor(a, b);
    var x, y := Half(a), Half(b);
    XorPairs(x, y, POLYNOMIAL, POLYNOMIAL);
    XorZero(POLYNOMIAL, POLYNOMIAL);
    XorIdentity(Xor(x, y));
    XorAssociates(x, y, POLYNOMIAL);
    XorAssociates(x, POLYNOMIAL, y);
    XorCommutes(POLYNOMIAL, y);
  }

  lemma Shift4Linear(a: bv32, b: bv32)
    ensures Shift4(Xor(a, b)) == Xor(Shift4(a), Shift4(b))
  {
    hide Shift, Xor;
    ShiftLinear(a, b);
    ShiftLinear(Shift(a), Shift(b));
    ShiftLinear(Shift(Shift(a)), Shift(Shift(b)));
    ShiftLinear(Shift(Shift(Shift(a))), Shift(Shift(Shift(b))));
  }

  lemma Shift8Linear(a: bv32, b: bv32)
    ensures Shift8(Xor(a, b)) == Xor(Shift8(a), Shift8(b))
  {
    hide Shift4, Xor;
    Shift4Linear(a, b);
    Shift4Linear(Shift4(a), Shift4(b));
  }

  /** Above a zero nibble, four steps only shift. */
  lemma HighPart(c: bv32)
    requires Low(c) == 0
    ensures Shift4(c) == Down4(c)
  {}

  lemma NibbleSplit(c: bv32)
    ensures c == Xor(High(c), Low(c)) && Low(High(c)) == 0 && Down4(High(c)) == Down4(c) && Low(c) < 16
  {}

  /** One table lookup does the work of four single-bit steps. */
  lemma NibbleIsFourBits(c: bv32)
    ensures NibbleStep(c) == Shift4(c)
  {
    hide Shift4, CRC_TABLE, Xor, High, Low, Down4;
    NibbleSplit(c);
    HighPart(High(c));
    TableEntries(Low(c));
    Shift4Linear(High(c), Low(c));
  }

  /** The loader's loop computes the CRC-32 of its bytes. */
  method Compute(data: seq<Byte>) returns (crc: bv32)
    ensures crc == Crc(data)
  {
    hide Shift4, Xor, NibbleStep, Complement;
    var c: bv32 := 0xFFFF_FFFF;
    var i := 0;
    assert data[0..] == data;
    while i < |data|
      invariant 0 <= i <= |data|
      invariant Fold(c, data[i..]) == Fold(0xFFFF_FFFF, data)
    {
      assert data[i..][0] == data[i] && data[i..][1..] == data[i + 1..];
      c := Xor(c, data[i] as bv32);
      NibbleIsFourBits(c);
      c := NibbleStep(c);
      NibbleIsFourBits(c);
      c := NibbleStep(c);
      i := i + 1;
    }
    assert data[i..] == [];
    crc := Complement(c);
  }

  lemma CheckSteps()
    ensures Update(0xFFFF_FFFF, 0x31) == 0x7C23_1048
    ensures Update(0x7C23_1048, 0x32) == 0xB0AC_BB32
    ensures Update(0xB0AC_BB32, 0x33) == 0x77B7_9C2D
    ensures Update(0x77B7_9C2D, 0x34) == 0x641C_1F5C
    ensures Update(0x641C_1F5C, 0x35) == 0x340A_C5E3
    ensures Update(0x340A_C5E3, 0x36) == 0xF68D_2C9E
    ensures Update(0xF68D_2C9E, 0x37) == 0xAFFC_9660
    ensures Update(0xAFFC_9660, 0x38) == 0x651F_2550
    ensures Update(0x651F_2550, 0x39) == 0x340B_C6D9
  {}

  /** The check value of the CRC-32, that of the nine characters "123456789". */
  lemma CheckValue()
    ensures Crc([0x31, 0x32, 0x33, 0x34, 0x35, 0x36, 0x37, 0x38, 0x39]) == 0xCBF4_3926
  {
    hide Update;
    CheckSteps();
    var a, b, c: seq<Byte> := [0x31, 0x32, 0x33, 0x34], [0x35, 0x36, 0x37, 0x38], [0x39];
    FoldFour(0xFFFF_FFFF, a);
    FoldFour(0x641C_1F5C, b);
    FoldOne(0x651F_2550, c);
    FoldAppend(0xFFFF_FFFF, a + b, c);
    FoldAppend(0xFFFF_FFFF, a, b);
    assert a + b + c == [0x31, 0x32, 0x33, 0x34, 0x35, 0x36, 0x37, 0x38, 0x39];
  }

  // ----- Invertibility -----

  function Unshift(d: bv32): bv32 {
    if d & 0x8000_0000 != 0 then ((d ^ POLYNOMIAL) << 1) | 1 else d << 1
  }

  lemma ShiftInvertible(c: bv32)
    ensures Unshift(Shift(c)) == c
  {}

  lemma Shift4Injective(a: bv32, b: bv32)
    requires Shift4(a) == Shift4(b)
    ensures a == b
  {
    hide Shift, Unshift;
    ShiftInvertible(a); ShiftInvertible(b);
    ShiftInvertible(Shift(a)); ShiftInvertible(Shift(b));
    ShiftInvertible(Shift(Shift(a))); ShiftInvertible(Shift(Shift(b)));
    ShiftInvertible(Shift(Shift(Shift(a)))); ShiftInvertible(Shift(Shift(Shift(b))));
  }

  lemma Shift8Injective(a: bv32, b: bv32)
    requires Shift8(a) == Shift8(b)
    ensures a == b
  {
    hide Shift4;
    Shift4Injective(Shift4(a), Shift4(b));
    Shift4Injective(a, b);
  }

  lemma XorCancels(a: bv32, b: bv32, x: bv32)
    requires Xor(a, x) == Xor(b, x)
    ensures a == b
  {}

  lemma UpdateInjective(a: bv32, b: bv32, x: Byte)
    requires Update(a, x) == Update(b, x)
    ensures a == b
  {
    hide Shift8, Xor;
    Shift8Injective(Xor(a, x as bv32), Xor(b, x as bv32));
    XorCancels(a, b, x as bv32);
  }

  /** After any common suffix, states that differed still differ. */
  lemma {:induction false} FoldInjective(a: bv32, b: bv32, data: seq<Byte>)
    requires a != b
    ensures Fold(a, data) != Fold(b, data)
    decreases |data|
  {
    hide Update;
    if data != [] {
      if Update(a, data[0]) == Update(b, data[0]) { UpdateInjective(a, b, data[0]); }
      FoldInjective(Update(a, data[0]), Update(b, data[0]), data[1..]);
    }
  }

  lemma {:induction false} FoldAppend(c: bv32, a: seq<Byte>, b: seq<Byte>)
    ensures Fold(c, a + b) == Fold(Fold(c, a), b)
    decreases |a|
  {
    hide Update;
    if a == [] {
      assert a + b == b;
    } else {
      assert (a + b)[1..] == a[1..] + b;
      FoldAppend(Update(c, a[0]), a[1..], b);
    }
  }

  // ----- Bursts -----

  function Up8(c: bv32): bv32 { c << 8 }

  /** Eight steps take a word whose low byte is clear to that word shifted down. */
  lemma ShiftedDown(d: bv32)
    requires d < 0x0100_0000
    ensures Shift8(Up8(d)) == d
  {}

  /** The difference between two states, one byte further on. */
  function Drift(d: bv32, x: bv32): bv32 { Shift8(Xor(d, x)) }

  lemma DriftIs(a: bv32, b: bv32, x: Byte, y: Byte)
    ensures Xor(Update(a, x), Update(b, y)) == Drift(Xor(a, b), Xor(x as bv32, y as bv32))
  {
    hide Shift8, Xor;
    var u, v := x as bv32, y as bv32;
    Shift8Linear(Xor(a, u), Xor(b, v));
    XorPairs(a, b, u, v);
  }

  /** A difference that comes out small came from the same difference one byte higher. */
  lemma DriftBack(d: bv32, x: bv32)
    requires Drift(d, x) < 0x0100_0000
    ensures d == Xor(Up8(Drift(d, x)), x)
  {
    hide Shift8, Xor, Up8;
    var e := Drift(d, x);
    ShiftedDown(e);
    Shift8Injective(Xor(d, x), Up8(e));
    XorTwice(d, x);
  }

  lemma GrowsByOneByte(e: bv32, x: bv32)
    requires x < 0x100
    ensures e == 0 ==> Xor(Up8(e), x) < 0x100
    ensures e < 0x100 ==> Xor(Up8(e), x) < 0x1_0000
    ensures e < 0x1_0000 ==> Xor(Up8(e), x) < 0x0100_0000
    ensures e < 0x0100_0000 && Xor(Up8(e), x) == 0 ==> e == 0 && x == 0
  {}

  lemma ByteDifference(x: Byte, y: Byte)
    ensures Difference(x, y) < 0x100
    ensures Difference(x, y) == 0 ==> x == y
  {}

  /** Byte differences that cancel out over four bytes are all zero. */
  lemma DriftChain(e0: bv32, e1: bv32, e2: bv32, e3: bv32)
    requires e0 < 0x100 && e1 < 0x100 && e2 < 0x100 && e3 < 0x100
    requires Drift(Drift(Drift(Drift(0, e0), e1), e2), e3) == 0
    ensures e0 == 0 && e1 == 0 && e2 == 0 && e3 == 0
  {
    hide Drift, Xor, Up8;
    var d1 := Drift(0, e0);
    var d2 := Drift(d1, e1);
    var d3 := Drift(d2, e2);
    DriftBack(d3, e3);
    GrowsByOneByte(0, e3);
    DriftBack(d2, e2);
    GrowsByOneByte(d3, e2);
    DriftBack(d1, e1);
    GrowsByOneByte(d2, e1);
    DriftBack(0, e0);
    GrowsByOneByte(d1, e0);
  }

  lemma {:induction false} FoldFour(c: bv32, x: seq<Byte>)
    requires |x| == 4
    ensures Fold(c, x) == Update(Update(Update(Update(c, x[0]), x[1]), x[2]), x[3])
  {
    hide Update;
    FoldOne(c, x);
    FoldOne(Update(c, x[0]), x[1..]);
    FoldOne(Update(Update(c, x[0]), x[1]), x[1..][1..]);
    FoldOne(Update(Update(Update(c, x[0]), x[1]), x[2]), x[1..][1..][1..]);
  }

  lemma FoldOne(c: bv32, x: seq<Byte>)
    requires x != []
    ensures Fold(c, x) == Fold(Update(c, x[0]), x[1..])
    ensures |x| == 1 ==> Fold(c, x) == Update(c, x[0])
  {}

  function Difference(x: Byte, y: Byte): bv32 { Xor(x as bv32, y as bv32) }

  /** Four bytes on from one state, different bytes always give different states. */
  lemma FourBytesInjective(c: bv32, x: seq<Byte>, y: seq<Byte>)
    requires |x| == |y| == 4 && Fold(c, x) == Fold(c, y)
    ensures x == y
  {
    hide Drift, Update, Xor, Fold;
    FoldFour(c, x);
    FoldFour(c, y);
    XorZero(Fold(c, x), Fold(c, y));
    FourDrifts(c, x, y);
    ByteDifference(x[0], y[0]);
    ByteDifference(x[1], y[1]);
    ByteDifference(x[2], y[2]);
    ByteDifference(x[3], y[3]);
    DriftChain(Difference(x[0], y[0]), Difference(x[1], y[1]), Difference(x[2], y[2]), Difference(x[3], y[3]));
    assert forall i :: 0 <= i < 4 ==> x[i] == y[i];
  }

  /** How four bytes drive two runs from one state apart. */
  lemma FourDrifts(c: bv32, x: seq<Byte>, y: seq<Byte>)
    requires |x| == |y| == 4
    ensures Xor(Update(Update(Update(Update(c, x[0]), x[1]), x[2]), x[3]),
                Update(Update(Update(Update(c, y[0]), y[1]), y[2]), y[3])) ==
      Drift(Drift(Drift(Drift(0, Difference(x[0], y[0])), Difference(x[1], y[1])), Difference(x[2], y[2])),
            Difference(x[3], y[3]))
  {
    hide Drift, Update, Xor;
    var a1, b1 := Update(c, x[0]), Update(c, y[0]);
    var a2, b2 := Update(a1, x[1]), Update(b1, y[1]);
    var a3, b3 := Update(a2, x[2]), Update(b2, y[2]);
    XorZero(c, c);
    DriftIs(c, c, x[0], y[0]);
    DriftIs(a1, b1, x[1], y[1]);
    DriftIs(a2, b2, x[2], y[2]);
    DriftIs(a3, b3, x[3], y[3]);
  }

  /** The same for fewer bytes: any common continuation to four would tell them apart. */
  lemma FewBytesInjective(c: bv32, x: seq<Byte>, y: seq<Byte>)
    requires |x| == |y| <= 4 && Fold(c, x) == Fold(c, y)
    ensures x == y
  {
    hide Update;
    var z: seq<Byte> := seq(4 - |x|, _ => 0);
    FoldAppend(c, x, z);
    FoldAppend(c, y, z);
    FourBytesInjective(c, x + z, y + z);
    assert (x + z)[..|x|] == x && (y + z)[..|y|] == y;
  }

  lemma ComplementInjective(a: bv32, b: bv32)
    requires Complement(a) == Complement(b)
    ensures a == b
  {}

  /** Two images of one length that differ only inside four consecutive bytes never have the same CRC. */
  lemma BurstDetected(prefix: seq<Byte>, x: seq<Byte>, y: seq<Byte>, suffix: seq<Byte>)
    requires |x| == |y| <= 4 && x != y
    ensures Crc(prefix + x + suffix) != Crc(prefix + y + suffix)
  {
    hide Update, Complement;
    var c: bv32 := 0xFFFF_FFFF;
    FoldAppend(c, prefix + x, suffix);
    FoldAppend(c, prefix, x);
    FoldAppend(c, prefix + y, suffix);
    FoldAppend(c, prefix, y);
    var s := Fold(c, prefix);
    if Fold(s, x) == Fold(s, y) { FewBytesInjective(s, x, y); }
    FoldInjective(Fold(s, x), Fold(s, y), suffix);
    if Crc(prefix + x + suffix) == Crc(prefix + y + suffix) {
      ComplementInjective(Fold(Fold(s, x), suffix), Fold(Fold(s, y), suffix));
    }
  }
}
