/** The kernel image: what the packer writes, what the boot loader accepts, and what it does to RAM. */
module BootLoader {
  import opened Bytes
  import opened Crc32
  import opened Word32

  const MAGIC := 0xC6B0_0100
  const HEADER_LEN := 32
  const MAX_SIZE := 480 * 1024
  const SRAM_START := 0x4080_0000
  const SRAM_END := 0x4088_0000
  const BOOT_PARAMS := 0x4087_F000
  const PACK_LOAD := 0x4080_0000

  function Unsigned(c: bv32): (n: nat)
    ensures n < WORD
  {
    c as int
  }

  // ----- Little-endian words -----

  function ByteOf(n: nat): Byte { ToByte(n % 256) }

  function WordBytes(n: nat): (r: seq<Byte>)
    ensures |r| == 4
  {
    [ByteOf(n), ByteOf(n / 256), ByteOf(n / 256 / 256), ByteOf(n / 256 / 256 / 256)]
  }

  function Word(b0: Byte, b1: Byte, b2: Byte, b3: Byte): (w: nat)
    ensures w < WORD
  {
    ValueBound(b0); ValueBound(b1); ValueBound(b2); ValueBound(b3);
    Value(b0) + 256 * (Value(b1) + 256 * (Value(b2) + 256 * Value(b3)))
  }

  lemma LittleEndian()
    ensures Word(0x78, 0x56, 0x34, 0x12) == 0x1234_5678
  {}

  function WordAt(data: seq<Byte>, at: nat): (w: nat)
    requires at + 4 <= |data|
    ensures w < WORD
  {
    Word(data[at], data[at + 1], data[at + 2], data[at + 3])
  }

  lemma Base256(n: nat)
    requires n < WORD
    ensures n == n % 256 + 256 * (n / 256 % 256 + 256 * (n / 256 / 256 % 256 + 256 * (n / 256 / 256 / 256 % 256)))
  {}

  lemma WordOfBytes(n: nat)
    requires n < WORD
    ensures var b := WordBytes(n); Word(b[0], b[1], b[2], b[3]) == n
  {
    hide ToByte, Value;
    ToByteValue(n % 256);
    ToByteValue(n / 256 % 256);
    ToByteValue(n / 256 / 256 % 256);
    ToByteValue(n / 256 / 256 / 256 % 256);
    Base256(n);
  }

  /** `struct.pack` of little-endian words. */
  function Words(ws: seq<nat>): (r: seq<Byte>)
    ensures |r| == 4 * |ws|
  {
    if ws == [] then [] else WordBytes(ws[0]) + Words(ws[1..])
  }

  lemma {:induction false} WordsRead(ws: seq<nat>, rest: seq<Byte>, i: nat)
    requires i < |ws| && ws[i] < WORD
    ensures WordAt(Words(ws) + rest, 4 * i) == ws[i]
  {
    hide Word, WordBytes;
    var data := Words(ws) + rest;
    if i == 0 {
      WordOfBytes(ws[0]);
      assert data[0] == WordBytes(ws[0])[0] && data[1] == WordBytes(ws[0])[1];
      assert data[2] == WordBytes(ws[0])[2] && data[3] == WordBytes(ws[0])[3];
    } else {
      WordsRead(ws[1..], rest, i - 1);
      var more := Words(ws[1..]) + rest;
      assert data[4..] == more;
      assert data[4 * i] == more[4 * i - 4] && data[4 * i + 1] == more[4 * i - 3];
      assert data[4 * i + 2] == more[4 * i - 2] && data[4 * i + 3] == more[4 * i - 1];
    }
  }

  // ----- The header -----

  datatype Header = Header(magic: nat, entry: nat, load: nat, size: nat, checksum: nat)

  function ReadHeader(flash: seq<Byte>): Header
    requires |flash| >= HEADER_LEN
  {
    Header(WordAt(flash, 0), WordAt(flash, 4), WordAt(flash, 8), WordAt(flash, 12), WordAt(flash, 16))
  }

  datatype Verdict = NoKernel | TooBig | Empty | BadAddress | Fits

  /** The checks before the CRC, in order, in 32-bit unsigned arithmetic. */
  function Check(h: Header): Verdict {
    if h.magic != MAGIC then NoKernel
    else if h.size > MAX_SIZE then TooBig
    else if h.size == 0 then Empty
    else if h.load < SRAM_START then BadAddress
    else if h.load >= SRAM_END then BadAddress
    else
      var end := U32(h.load + RoundUp(h.size));
      if end > BOOT_PARAMS then BadAddress
      else if end < h.load then BadAddress
      else if h.entry < h.load then BadAddress
      else if h.entry >= end then BadAddress
      else Fits
  }

  function Padded(size: nat): nat { (size + 3) / 4 * 4 }

  /** What the first checks say. */
  lemma FirstChecks(h: Header)
    ensures Check(h) == NoKernel <==> h.magic != 0xC6B0_0100
    ensures Check(h) == TooBig <==> h.magic == 0xC6B0_0100 && h.size > 491520
    ensures Check(h) == Empty <==> h.magic == 0xC6B0_0100 && h.size == 0
  {
    hide RoundUp, U32;
  }

  /** For any header at all, the 32-bit checks accept exactly the images that really lie below the boot
      parameters, entry included: no sum wraps, and the guard against wrapping has nothing to catch. */
  lemma CheckExactly(h: Header)
    requires h.entry < WORD && h.load < WORD && h.size < WORD
    ensures Check(h) == Fits <==>
      h.magic == 0xC6B0_0100 && 0 < h.size <= 491520 &&
      0x4080_0000 <= h.load && h.load + Padded(h.size) <= 0x4087_F000 &&
      h.load <= h.entry < h.load + Padded(h.size)
    ensures h.size <= MAX_SIZE && h.load < SRAM_END ==>
      U32(h.load + RoundUp(h.size)) == h.load + Padded(h.size) >= h.load
  {
    if h.size <= MAX_SIZE {
      RoundsUp(h.size);
      if h.load < SRAM_END { SumExact(h.load, h.size); }
    }
    hide RoundUp, U32, Padded;
  }

  lemma RoundsUp(size: nat)
    requires size <= MAX_SIZE
    ensures RoundUp(size) == Padded(size) && size <= Padded(size) <= MAX_SIZE + 3
  {
    assert U32(size + 3) == size + 3;
  }

  lemma SumExact(load: nat, size: nat)
    requires size <= MAX_SIZE && load < SRAM_END
    ensures U32(load + RoundUp(size)) == load + Padded(size) >= load
  {
    hide RoundUp, Padded;
    RoundsUp(size);
  }

  /** An image the loader should run: its five words in place, the padded body inside SRAM below the boot
      parameters, its entry inside it, and the CRC-32 of its body the one in the header. */
  ghost predicate Sound(flash: seq<Byte>)
    requires |flash| >= HEADER_LEN + MAX_SIZE
  {
    var magic, entry, load, size, checksum :=
      WordAt(flash, 0), WordAt(flash, 4), WordAt(flash, 8), WordAt(flash, 12), WordAt(flash, 16);
    magic == 0xC6B0_0100 && 0 < size <= 491520 &&
    0x4080_0000 <= load && load + (size + 3) / 4 * 4 <= 0x4087_F000 && load <= entry < load + (size + 3) / 4 * 4 &&
    Unsigned(Crc(flash[32..32 + size])) == checksum
  }

  /** An image is started if and only if it is sound, and then at its own entry; whatever else it is, it fails
      the checks before the CRC or the CRC. */
  lemma BootsExactly(flash: seq<Byte>)
    requires |flash| >= HEADER_LEN + MAX_SIZE
    ensures Outcome(flash).Booted? <==> Sound(flash)
    ensures Outcome(flash).Booted? ==> Outcome(flash).header.entry == WordAt(flash, 4)
    ensures Outcome(flash) == BadCrc <==> Check(ReadHeader(flash)) == Fits && !Sound(flash)
    ensures Outcome(flash) == BadCrc || Outcome(flash).Booted? || Outcome(flash).Rejected?
  {
    hide Crc, Check, WordAt, Unsigned;
    CheckExactly(ReadHeader(flash));
  }

  datatype BootResult = Rejected(why: Verdict) | BadCrc | CopyFailed | Booted(header: Header)

  /** What the loader makes of a flash window. */
  function Outcome(flash: seq<Byte>): BootResult
    requires |flash| >= HEADER_LEN + MAX_SIZE
  {
    var h := ReadHeader(flash);
    if Check(h) != Fits then Rejected(Check(h))
    else if Unsigned(Crc(Body(flash, h.size))) != h.checksum then BadCrc
    else Booted(h)
  }

  function Body(flash: seq<Byte>, size: nat): seq<Byte>
    requires HEADER_LEN + size <= |flash|
  {
    flash[HEADER_LEN..HEADER_LEN + size]
  }

  /** RAM with the padded image in place; RAM starts at SRAM_START. */
  function Placed(ram: seq<Byte>, flash: seq<Byte>, at: nat, n: nat): seq<Byte>
    requires at + n <= |ram| && HEADER_LEN + n <= |flash|
  {
    ram[..at] + flash[HEADER_LEN..HEADER_LEN + n] + ram[at + n..]
  }

  /** Reads the header, checks it, checks the CRC, copies word by word and checks again. `flash` is the
      mapped window from the header on, `ram` the 512 KB of SRAM. */
  method Boot(flash: seq<Byte>, ram: array<Byte>) returns (r: BootResult)
    requires |flash| >= HEADER_LEN + MAX_SIZE && ram.Length == SRAM_END - SRAM_START
    modifies ram
    ensures r.Booted? <==> Sound(flash)
    ensures !r.Booted? ==> ram[..] == old(ram[..])
    ensures r.Booted? ==>
      var at := r.header.load - SRAM_START;
      0 <= at && at + Padded(r.header.size) <= BOOT_PARAMS - SRAM_START &&
      HEADER_LEN + Padded(r.header.size) <= |flash| &&
      ram[..] == Placed(old(ram[..]), flash, at, Padded(r.header.size))
    ensures r == Outcome(flash)
  {
    hide Crc, Check, WordAt, Placed, Unsigned, Sound;
    var h := ReadHeader(flash);
    CheckExactly(h);
    BootsExactly(flash);
    var verdict := Check(h);
    if verdict != Fits { return Rejected(verdict); }
    var crc := Compute(Body(flash, h.size));
    if Unsigned(crc) != h.checksum { return BadCrc; }
    assert Padded(h.size) <= MAX_SIZE;
    var again := CopyAndRecheck(flash, ram, h.load - SRAM_START, h.size);
    r := if Unsigned(again) != h.checksum then CopyFailed else Booted(h);
  }

  method CopyAndRecheck(flash: seq<Byte>, ram: array<Byte>, at: nat, size: nat) returns (crc: bv32)
    requires at + Padded(size) <= ram.Length && HEADER_LEN + Padded(size) <= |flash| && size <= MAX_SIZE
    modifies ram
    ensures ram[..] == Placed(old(ram[..]), flash, at, Padded(size))
    ensures crc == Crc(Body(flash, size))
  {
    hide Crc, Placed, Padded, U32;
    RoundedSize(size);
    Copy(flash, ram, at, U32(size + 3) / 4 * 4);
    PlacedBody(old(ram[..]), flash, at, size);
    assert ram[at..at + size] == ram[..][at..at + size];
    crc := Compute(ram[at..at + size]);
  }

  lemma RoundedSize(size: nat)
    requires size <= MAX_SIZE
    ensures U32(size + 3) / 4 * 4 == Padded(size) && size <= Padded(size) && Padded(size) % 4 == 0
  {}

  lemma PlacedBody(ram: seq<Byte>, flash: seq<Byte>, at: nat, size: nat)
    requires at + Padded(size) <= |ram| && HEADER_LEN + Padded(size) <= |flash|
    ensures size <= Padded(size) && |Placed(ram, flash, at, Padded(size))| == |ram|
    ensures Placed(ram, flash, at, Padded(size))[at..at + size] == Body(flash, size)
  {
    var r := Placed(ram, flash, at, Padded(size));
    forall k | 0 <= k < size ensures r[at..at + size][k] == Body(flash, size)[k] {
      assert r[at + k] == flash[HEADER_LEN + k];
    }
  }

  /** The copy loop: one word at a time while any of the rounded size is left. */
  method Copy(flash: seq<Byte>, ram: array<Byte>, at: nat, n: nat)
    requires at + n <= ram.Length && HEADER_LEN + n <= |flash| && n % 4 == 0
    modifies ram
    ensures ram[..] == Placed(old(ram[..]), flash, at, n)
  {
    var done := 0;
    while n - done > 0
      invariant 0 <= done <= n && done % 4 == 0
      invariant forall k :: 0 <= k < ram.Length ==>
        ram[k] == if at <= k < at + done then flash[HEADER_LEN + k - at] else old(ram[k])
    {
      StoreWord(flash, HEADER_LEN + done, ram, at + done);
      done := done + 4;
    }
  }

  /** `lw` and `sw`. */
  method StoreWord(flash: seq<Byte>, source: nat, ram: array<Byte>, dest: nat)
    requires source + 4 <= |flash| && dest + 4 <= ram.Length
    modifies ram
    ensures forall k :: 0 <= k < ram.Length ==>
      ram[k] == if dest <= k < dest + 4 then flash[source + k - dest] else old(ram[k])
  {
    ram[dest], ram[dest + 1] := flash[source], flash[source + 1];
    ram[dest + 2], ram[dest + 3] := flash[source + 2], flash[source + 3];
  }

  // ----- The packer -----

  function Zeros(n: nat): seq<Byte> { seq(n, _ => 0) }

  function Pad(body: seq<Byte>): seq<Byte> { body + Zeros(Padded(|body|) - |body|) }

  datatype Packed = Image(bytes: seq<Byte>) | StructError

  /** The file `pack_kernel.py` writes; packing a field of more than 32 bits raises. */
  function PackedImage(body: seq<Byte>, entry: nat): Packed {
    var b := Pad(body);
    if entry >= WORD || |b| >= WORD then StructError
    else
      Image(Words([MAGIC, entry, PACK_LOAD, |b|, Unsigned(Crc(b)), 0, 1, 0]) + b)
  }

  method Pack(body: seq<Byte>, entry: nat) returns (p: Packed)
    ensures p == PackedImage(body, entry)
  {
    hide Crc, Words, Unsigned, Padded;
    PadReaches(|body|, |body|);
    var b := body;
    while |b| % 4 != 0
      invariant |body| <= |b| <= Padded(|body|) && b == body + Zeros(|b| - |body|)
      decreases Padded(|body|) - |b|
    {
      PadReaches(|body|, |b|);
      b := b + [0];
    }
    PadReaches(|body|, |b|);
    var crc := Compute(b);
    if entry >= WORD || |b| >= WORD { return StructError; }
    return Image(Words([MAGIC, entry, PACK_LOAD, |b|, Unsigned(crc), 0, 1, 0]) + b);
  }

  lemma PadReaches(size: nat, n: nat)
    ensures size <= Padded(size)
    ensures size <= n <= Padded(size) ==> if n % 4 == 0 then n == Padded(size) else n < Padded(size)
  {}

  lemma PadLength(body: seq<Byte>)
    ensures |Pad(body)| == Padded(|body|) == Padded(Padded(|body|))
  {}

  /** The body and then as many zeros, at most three, as make a whole number of words. */
  lemma PadZeros(body: seq<Byte>)
    ensures var b := Pad(body);
      body <= b && |b| % 4 == 0 && |b| < |body| + 4 && forall k :: |body| <= k < |b| ==> b[k] == 0
  {}

  function ImageHeader(body: seq<Byte>, entry: nat): Header {
    Header(MAGIC, entry, PACK_LOAD, |Pad(body)|, Unsigned(Crc(Pad(body))))
  }

  lemma HeaderOfWords(ws: seq<nat>, rest: seq<Byte>)
    requires |ws| == 8 && forall i :: 0 <= i < 5 ==> ws[i] < WORD
    ensures ReadHeader(Words(ws) + rest) == Header(ws[0], ws[1], ws[2], ws[3], ws[4])
  {
    hide Words, WordAt;
    WordsRead(ws, rest, 0);
    WordsRead(ws, rest, 1);
    WordsRead(ws, rest, 2);
    WordsRead(ws, rest, 3);
    WordsRead(ws, rest, 4);
  }

  /** The loader reads back the fields and the body that were packed. */
  lemma PackedImageReads(body: seq<Byte>, entry: nat, after: seq<Byte>)
    requires PackedImage(body, entry).Image?
    ensures var flash := PackedImage(body, entry).bytes + after;
      |flash| == HEADER_LEN + |Pad(body)| + |after| &&
      ReadHeader(flash) == ImageHeader(body, entry) && Body(flash, |Pad(body)|) == Pad(body) &&
      WordAt(flash, 20) == 0 && WordAt(flash, 24) == 1 && WordAt(flash, 28) == 0
  {
    hide Crc, Words, Pad, ReadHeader, WordAt;
    var b := Pad(body);
    var ws := [MAGIC, entry, PACK_LOAD, |b|, Unsigned(Crc(b)), 0, 1, 0];
    var flash := PackedImage(body, entry).bytes + after;
    assert flash == Words(ws) + (b + after);
    HeaderOfWords(ws, b + after);
    WordsRead(ws, b + after, 5);
    WordsRead(ws, b + after, 6);
    WordsRead(ws, b + after, 7);
    assert flash[HEADER_LEN..HEADER_LEN + |b|] == b;
  }

  /** Every image packed from a non-empty body of at most 480 KB, with its entry inside, boots: `flash`
      holds the image and then anything. */
  lemma PackedImageBoots(body: seq<Byte>, entry: nat, after: seq<Byte>)
    requires body != [] && Padded(|body|) <= MAX_SIZE && PACK_LOAD <= entry < PACK_LOAD + Padded(|body|)
    requires |Pad(body)| + |after| >= MAX_SIZE
    ensures |Pad(body)| == Padded(|body|) && PackedImage(body, entry).Image?
    ensures var flash := PackedImage(body, entry).bytes + after;
      |flash| >= HEADER_LEN + MAX_SIZE && Outcome(flash) == Booted(ImageHeader(body, entry)) &&
      Body(flash, |Pad(body)|) == Pad(body)
  {
    hide Crc, Check, WordAt, ReadHeader, Body, Pad, RoundUp, U32, Words;
    PadLength(body);
    PackedImageReads(body, entry, after);
    CheckExactly(ImageHeader(body, entry));
  }

  /** A packed image damaged inside at most four consecutive bytes of its body fails the CRC. */
  lemma DamageDetected(body: seq<Byte>, entry: nat, after: seq<Byte>, damaged: seq<Byte>, at: nat, n: nat)
    requires body != [] && Padded(|body|) <= MAX_SIZE && PACK_LOAD <= entry < PACK_LOAD + Padded(|body|)
    requires |Pad(body)| + |after| >= MAX_SIZE
    requires n <= 4 && at + n <= |Pad(body)| && |damaged| == |Pad(body)| && damaged != Pad(body)
    requires damaged[..at] == Pad(body)[..at] && damaged[at + n..] == Pad(body)[at + n..]
    ensures PackedImage(body, entry).Image? && HEADER_LEN + |Pad(body)| <= |PackedImage(body, entry).bytes|
    ensures var flash := PackedImage(body, entry).bytes[..HEADER_LEN] + damaged + after;
      |flash| >= HEADER_LEN + MAX_SIZE && Outcome(flash) == BadCrc
  {
    hide Crc, Check, WordAt, ReadHeader, Body, Pad, Padded, RoundUp, U32, Words, Unsigned;
    var b := Pad(body);
    PadLength(body);
    var ws := [MAGIC, entry, PACK_LOAD, |b|, Unsigned(Crc(b)), 0, 1, 0];
    FitsPacked(body);
    HeaderOfWords(ws, damaged + after);
    var flash := PackedImage(body, entry).bytes[..HEADER_LEN] + damaged + after;
    assert PackedImage(body, entry).bytes[..HEADER_LEN] == Words(ws);
    assert flash == Words(ws) + (damaged + after);
    CheckExactly(ImageHeader(body, entry));
    assert Body(flash, |b|) == damaged by { BodyAfter(Words(ws), damaged, after); }
    assert b == b[..at] + b[at..at + n] + b[at + n..];
    assert damaged == b[..at] + damaged[at..at + n] + b[at + n..];
    if damaged[at..at + n] != b[at..at + n] {
      BurstDetected(b[..at], b[at..at + n], damaged[at..at + n], b[at + n..]);
      UnsignedReturns(Crc(b));
      UnsignedReturns(Crc(damaged));
    }
  }

  lemma FitsPacked(body: seq<Byte>)
    requires Padded(|body|) <= MAX_SIZE
    ensures |Pad(body)| == Padded(|body|) < WORD
  {}

  lemma BodyAfter(header: seq<Byte>, body: seq<Byte>, after: seq<Byte>)
    requires |header| == HEADER_LEN
    ensures Body(header + body + after, |body|) == body
    ensures header + body + after == header + (body + after)
  {}

  lemma UnsignedReturns(c: bv32)
    ensures Unsigned(c) as bv32 == c
  {}

  lemma PlacedAtStart(ram: seq<Byte>, flash: seq<Byte>, n: nat)
    requires n <= |ram| && HEADER_LEN + n <= |flash|
    ensures Placed(ram, flash, 0, n)[..n] == Body(flash, n) && Placed(ram, flash, 0, n)[n..] == ram[n..]
  {}

  lemma PadExtent(body: seq<Byte>)
    requires Padded(|body|) <= MAX_SIZE
    ensures |Pad(body)| <= SRAM_END - SRAM_START
  {}

  /** And is not copied: RAM stays as it was. */
  method DamageThenBoot(body: seq<Byte>, entry: nat, after: seq<Byte>, damaged: seq<Byte>, at: nat, n: nat,
                        ram: array<Byte>) returns (r: BootResult)
    requires body != [] && Padded(|body|) <= MAX_SIZE && PACK_LOAD <= entry < PACK_LOAD + Padded(|body|)
    requires |Pad(body)| + |after| >= MAX_SIZE && ram.Length == SRAM_END - SRAM_START
    requires n <= 4 && at + n <= |Pad(body)| && |damaged| == |Pad(body)| && damaged != Pad(body)
    requires damaged[..at] == Pad(body)[..at] && damaged[at + n..] == Pad(body)[at + n..]
    modifies ram
    ensures r == BadCrc && ram[..] == old(ram[..])
  {
    hide PackedImage, Outcome, Crc, Sound, Pad;
    DamageDetected(body, entry, after, damaged, at, n);
    var p := Pack(body, entry);
    r := Boot(p.bytes[..HEADER_LEN] + damaged + after, ram);
  }

  /** Packing and then booting leaves the padded body in RAM. */
  method PackThenBoot(body: seq<Byte>, entry: nat, after: seq<Byte>, ram: array<Byte>) returns (r: BootResult)
    requires body != [] && Padded(|body|) <= MAX_SIZE && PACK_LOAD <= entry < PACK_LOAD + Padded(|body|)
    requires |Pad(body)| + |after| >= MAX_SIZE && ram.Length == SRAM_END - SRAM_START
    modifies ram
    ensures r.Booted? && r.header.entry == entry
    ensures ram[..|Pad(body)|] == Pad(body) && ram[|Pad(body)|..] == old(ram[|Pad(body)|..])
  {
    hide PackedImage, Outcome, Body, Crc, Sound, Pad, Padded, WordAt;
    PadLength(body);
    PadExtent(body);
    PackedImageBoots(body, entry, after);
    var p := Pack(body, entry);
    r := Boot(p.bytes + after, ram);
    PlacedAtStart(old(ram[..]), p.bytes + after, |Pad(body)|);
    assert ram[..|Pad(body)|] == ram[..][..|Pad(body)|];
  }
}
