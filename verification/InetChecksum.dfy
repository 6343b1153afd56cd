/** The Internet checksum (sections 1 and 2 of RFC 1071), in the byte order of the machine and in network
    order. */
module InetChecksum {
  import opened Slip

  const MASK := 0xFFFF

  function Word(low: nat, high: nat): nat { low + 256 * high }

  /** Sum of 16-bit words in the machine's order, low byte first; an odd last byte counts as a low byte. */
  function NativeSum(b: seq<Octet>): nat {
    if b == [] then 0
    else if |b| == 1 then b[0]
    else Word(b[0], b[1]) + NativeSum(b[2..])
  }

  /** The same in network order, high byte first. */
  function NetworkSum(b: seq<Octet>): nat {
    if b == [] then 0
    else if |b| == 1 then 256 * b[0]
    else Word(b[1], b[0]) + NetworkSum(b[2..])
  }

  /** `while (sum >> 16) sum = (sum & 0xFFFF) + (sum >> 16)`. */
  function Fold(sum: nat): nat {
    if sum / 0x1_0000 == 0 then sum else Fold(sum % 0x1_0000 + sum / 0x1_0000)
  }

  function Complement(sum: nat): (r: nat)
    requires sum <= MASK
  {
    MASK - sum
  }

  // ----- Folding is arithmetic modulo 65535 -----

  lemma Congruent(a: int, b: int, k: int)
    requires a == b + k * MASK
    ensures a % MASK == b % MASK
  {}

  lemma {:induction false} FoldEffect(sum: nat)
    ensures Fold(sum) <= MASK && Fold(sum) % MASK == sum % MASK
    ensures Fold(sum) == 0 <==> sum == 0
  {
    var q := sum / 0x1_0000;
    if q != 0 {
      var next := sum % 0x1_0000 + q;
      assert sum == 0x1_0000 * q + sum % 0x1_0000;
      FoldEffect(next);
      Congruent(sum, next, q);
    }
  }

  /** A sum folds to the all-ones word, whose complement is 0, exactly when it is a positive multiple of
      65535. */
  lemma FoldsToOnes(sum: nat)
    ensures Complement(Fold2(sum)) == 0 <==> sum > 0 && sum % MASK == 0
  {
    FoldEffect(sum);
  }

  function Fold2(sum: nat): (r: nat)
    ensures r <= MASK && r == Fold(sum)
  {
    FoldEffect(sum);
    Fold(sum)
  }

  function Checksum(b: seq<Octet>): nat { Complement(Fold2(NativeSum(b))) }

  /** What a receiver tests. */
  predicate Verifies(b: seq<Octet>) { Checksum(b) == 0 }

  /** The example of section 3 of RFC 1071, in both byte orders. */
  lemma ExampleSums()
    ensures var b: seq<Octet> := [0x00, 0x01, 0xF2, 0x03, 0xF4, 0xF5, 0xF6, 0xF7];
      Fold(NetworkSum(b)) == 0xDDF2 && Fold(NativeSum(b)) == 0xF2DD && Checksum(b) == 0x0D22
  {
    var b: seq<Octet> := [0x00, 0x01, 0xF2, 0x03, 0xF4, 0xF5, 0xF6, 0xF7];
    assert b[2..] == [0xF2, 0x03, 0xF4, 0xF5, 0xF6, 0xF7] && b[2..][2..] == [0xF4, 0xF5, 0xF6, 0xF7];
    assert b[2..][2..][2..] == [0xF6, 0xF7] && b[2..][2..][2..][2..] == [];
    assert NetworkSum(b) == 0x2_DDF0 && NativeSum(b) == 0x1_F2DC;
  }

  // ----- Byte order -----

  lemma {:induction false} OrdersCongruent(b: seq<Octet>)
    ensures exists k :: NetworkSum(b) == 256 * NativeSum(b) - k * MASK
    ensures NetworkSum(b) > 0 <==> NativeSum(b) > 0
  {
    if |b| <= 1 {
      assert NetworkSum(b) == 256 * NativeSum(b) - 0 * MASK;
    } else {
      OrdersCongruent(b[2..]);
      var k :| NetworkSum(b[2..]) == 256 * NativeSum(b[2..]) - k * MASK;
      assert NetworkSum(b) == 256 * NativeSum(b) - (k + b[1]) * MASK;
    }
  }

  lemma MultipleOf(s: int, t: int, k: int)
    requires t == 256 * s - k * MASK
    ensures s % MASK == 0 <==> t % MASK == 0
  {}

  /** The check comes out the same in either byte order. */
  lemma OrderIndependent(b: seq<Octet>)
    ensures Verifies(b) <==> NetworkSum(b) > 0 && NetworkSum(b) % MASK == 0
  {
    OrdersCongruent(b);
    var k :| NetworkSum(b) == 256 * NativeSum(b) - k * MASK;
    MultipleOf(NativeSum(b), NetworkSum(b), k);
    FoldsToOnes(NativeSum(b));
  }

  // ----- Filling in a checksum field -----

  lemma {:induction false} SumWithField(b: seq<Octet>, at: nat, x: Octet, y: Octet)
    requires at % 2 == 0 && at + 1 < |b| && b[at] == 0 && b[at + 1] == 0
    ensures NativeSum(b[at := x][at + 1 := y]) == NativeSum(b) + Word(x, y)
    ensures NetworkSum(b[at := x][at + 1 := y]) == NetworkSum(b) + Word(y, x)
  {
    var r := b[at := x][at + 1 := y];
    if at == 0 {
      assert r[2..] == b[2..];
    } else {
      SumWithField(b[2..], at - 2, x, y);
      assert r[2..] == b[2..][at - 2 := x][at - 1 := y];
    }
  }

  lemma SumPlusComplement(sum: nat)
    ensures sum + Complement(Fold2(sum)) > 0 && (sum + Complement(Fold2(sum))) % MASK == 0
  {
    FoldEffect(sum);
    var f := Fold(sum);
    var q := sum / MASK;
    assert sum == q * MASK + f % MASK;
    Congruent(sum + (MASK - f), if f == MASK then 0 else 0, if f == MASK then q else q + 1);
  }

  /** A zeroed field filled in with the machine's checksum makes the bytes verify. */
  lemma NativeFieldVerifies(b: seq<Octet>, at: nat)
    requires at % 2 == 0 && at + 1 < |b| && b[at] == 0 && b[at + 1] == 0
    ensures var c := Checksum(b); c % 256 < 256 && c / 256 < 256 && Verifies(b[at := c % 256][at + 1 := c / 256])
  {
    var c := Checksum(b);
    SumWithField(b, at, c % 256, c / 256);
    SumPlusComplement(NativeSum(b));
    FoldsToOnes(NativeSum(b) + c);
  }

  /** So does one filled in with the checksum computed in network order. */
  lemma NetworkFieldVerifies(b: seq<Octet>, at: nat)
    requires at % 2 == 0 && at + 1 < |b| && b[at] == 0 && b[at + 1] == 0
    ensures var c := Complement(Fold2(NetworkSum(b))); c / 256 < 256 && Verifies(b[at := c / 256][at + 1 := c % 256])
  {
    var c := Complement(Fold2(NetworkSum(b)));
    SumWithField(b, at, c / 256, c % 256);
    SumPlusComplement(NetworkSum(b));
    OrderIndependent(b[at := c / 256][at + 1 := c % 256]);
  }

  // ----- The loops -----

  lemma {:induction false} SumBound(b: seq<Octet>)
    ensures NativeSum(b) <= MASK * ((|b| + 1) / 2) && NetworkSum(b) <= MASK * ((|b| + 1) / 2)
  {
    if |b| > 1 { SumBound(b[2..]); }
  }

  lemma {:induction false} SumSnoc(b: seq<Octet>, i: nat)
    requires 2 * i + 1 < |b|
    ensures NativeSum(b[..2 * i + 2]) == NativeSum(b[..2 * i]) + Word(b[2 * i], b[2 * i + 1])
    ensures NetworkSum(b[..2 * i + 2]) == NetworkSum(b[..2 * i]) + Word(b[2 * i + 1], b[2 * i])
  {
    if i > 0 {
      SumSnoc(b[2..], i - 1);
      assert b[..2 * i + 2][2..] == b[2..][..2 * (i - 1) + 2] && b[..2 * i][2..] == b[2..][..2 * (i - 1)];
    }
  }

  lemma {:induction false} SumOdd(b: seq<Octet>)
    requires |b| % 2 == 1
    ensures NativeSum(b) == NativeSum(b[..|b| - 1]) + b[|b| - 1]
  {
    if |b| > 1 {
      SumOdd(b[2..]);
      assert b[..|b| - 1][2..] == b[2..][..|b| - 3];
    }
  }

  lemma NothingToSum()
    ensures NativeSum([]) == 0
  {}

  lemma NoOverflow(b: seq<Octet>)
    requires |b| <= 0x1_0000
    ensures NativeSum(b) < 0x1_0000_0000
  {
    SumBound(b);
  }

  /** The summing loop of `ip_checksum` and of the echo reply, in 32 bits, odd last byte included. */
  method SumNative(b: seq<Octet>) returns (sum: nat)
    requires |b| <= 0x1_0000
    ensures sum == NativeSum(b)
  {
    hide NativeSum, Word;
    var words := |b| / 2;
    NothingToSum();
    assert b[..0] == [];
    sum := 0;
    var i := 0;
    while i < words
      invariant 0 <= i <= words && sum == NativeSum(b[..2 * i])
    {
      SumSnoc(b, i);
      NoOverflow(b[..2 * i + 2]);
      sum := (sum + Word(b[2 * i], b[2 * i + 1])) % 0x1_0000_0000;
      i := i + 1;
    }
    if |b| % 2 == 1 {
      SumOdd(b);
      NoOverflow(b);
      sum := (sum + b[|b| - 1]) % 0x1_0000_0000;
    } else {
      assert b[..2 * i] == b;
    }
  }

  /** The folding loop. */
  method FoldDown(start: nat) returns (sum: nat)
    ensures sum == Fold2(start)
  {
    sum := start;
    while sum / 0x1_0000 != 0
      invariant Fold(sum) == Fold(start)
      decreases sum
    {
      sum := sum % 0x1_0000 + sum / 0x1_0000;
    }
  }

  method ComputeChecksum(b: seq<Octet>) returns (c: nat)
    requires |b| <= 0x1_0000
    ensures c == Checksum(b) && c <= MASK
  {
    var sum := SumNative(b);
    sum := FoldDown(sum);
    c := MASK - sum;
  }
}
