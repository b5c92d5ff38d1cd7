// The boot image of mkpimage (package/mkpimage/mkpimage.c): the header with its
// checksum, the ARM branches in it and the CRC at the end.  The target of a
// branch is that of section A8.8.18 of the ARM Architecture Reference Manual
// (ARM DDI 0406C).  Addresses are relative to the start of the buffer.

module PImage {
  import opened Crc
  import opened CrcBursts
  import opened Registers

  // ------------------------------------------------------------ fields

  type Image = seq<UInt8>

  function Half(b0: UInt8, b1: UInt8): int {
    b0 + 0x100 * b1
  }

  function Word(b0: UInt8, b1: UInt8, b2: UInt8, b3: UInt8): int {
    b0 + 0x100 * b1 + 0x1_0000 * b2 + 0x100_0000 * b3
  }

  function HalfAt(img: Image, at: nat): int
    requires at + 2 <= |img|
  {
    Half(img[at], img[at + 1])
  }

  function WordAt(img: Image, at: nat): int
    requires at + 4 <= |img|
  {
    Word(img[at], img[at + 1], img[at + 2], img[at + 3])
  }

  lemma HalfOfBytes(x: nat)
    ensures Half(x % 0x100, x / 0x100 % 0x100) == x % 0x1_0000
  {
  }

  lemma WordOfBytes(x: nat)
    requires x < 0x1_0000_0000
    ensures Word(x % 0x100, x / 0x100 % 0x100, x / 0x1_0000 % 0x100, x / 0x100_0000 % 0x100) == x
  {
    var a := x / 0x100;
    var b := a / 0x100;
    var c := b / 0x100;
    QuotientOf(x, 0x1_0000, b, x % 0x100 + 0x100 * (a % 0x100));
    QuotientOf(x, 0x100_0000, c, x % 0x100 + 0x100 * (a % 0x100) + 0x1_0000 * (b % 0x100));
  }

  lemma Multiples(m: int, d: int)
    requires m > 0
    ensures (d >= 1 ==> m * d >= m) && (d <= -1 ==> m * d <= -m)
  {
    if d >= 1 {
      assert m * d == m + m * (d - 1);
    } else if d <= -1 {
      assert m * d == -m + m * (d + 1);
    }
  }

  lemma QuotientOf(x: int, m: int, q: int, r: int)
    requires 0 <= r < m && x == m * q + r
    ensures x / m == q && x % m == r
  {
    var p := x / m;
    assert x == m * p + x % m;
    assert m * (p - q) == m * p - m * q;
    Multiples(m, p - q);
  }

  // ------------------------------------------------------------ branches

  const BRANCH_INST: UInt8 := 0xEA

  // imm24:'00', sign-extended
  function Offset(imm: int): int {
    4 * if imm >= 0x80_0000 then imm - 0x100_0000 else imm
  }

  // Where the branch at `at` goes; the PC is 8 bytes ahead of it.
  function Target(img: Image, at: nat): int
    requires at + 4 <= |img|
  {
    at + 8 + Offset(WordAt(img, at) % 0x100_0000)
  }

  // B, encoding A1, always executed
  predicate IsBranch(img: Image, at: nat)
    requires at + 4 <= |img|
  {
    WordAt(img, at) / 0x100_0000 == BRANCH_INST
  }

  // A multiple of 4 that fits in 26 bits with its sign.
  predicate Encodable(offset: int) {
    offset % 4 == 0 && -0x200_0000 <= offset < 0x200_0000
  }

  function Imm(offset: int): int {
    offset / 4 % 0x100 + 0x100 * (offset / 0x400 % 0x100) + 0x1_0000 * (offset / 0x4_0000 % 0x100)
  }

  lemma DivideTwice(x: int)
    ensures x / 0x400 == x / 4 / 0x100 && x / 0x4_0000 == x / 4 / 0x100 / 0x100
  {
    var q := x / 4;
    var r := q / 0x100;
    var s := r / 0x100;
    QuotientOf(x, 0x400, r, x % 4 + 4 * (q % 0x100));
    QuotientOf(x, 0x4_0000, s, x % 4 + 4 * (q % 0x100) + 0x400 * (r % 0x100));
  }

  lemma ThreeBytes(q: int)
    ensures q % 0x100 + 0x100 * (q / 0x100 % 0x100) + 0x1_0000 * (q / 0x100 / 0x100 % 0x100) == q % 0x100_0000
  {
    var r := q / 0x100;
    var s := r / 0x100;
    QuotientOf(q, 0x100_0000, s / 0x100, q % 0x100 + 0x100 * (r % 0x100) + 0x1_0000 * (s % 0x100));
  }

  lemma ImmIsQuotient(offset: int)
    ensures Imm(offset) == offset / 4 % 0x100_0000
  {
    DivideTwice(offset);
    ThreeBytes(offset / 4);
  }

  lemma QuotientBack(q: int)
    ensures Offset(q % 0x100_0000) == 4 * q <==> -0x80_0000 <= q < 0x80_0000
  {
    var k := q / 0x100_0000;
    assert q == q % 0x100_0000 + 0x100_0000 * k;
  }

  // The offset comes back exactly if it can be encoded.
  lemma OffsetExact(offset: int)
    ensures Offset(Imm(offset)) == offset <==> Encodable(offset)
  {
    var q := offset / 4;
    ImmIsQuotient(offset);
    QuotientBack(q);
    hide Imm;
    assert Offset(q % 0x100_0000) % 4 == 0;
    assert offset == 4 * q + offset % 4;
  }

  // branch: the branch reaches its destination exactly if the distance can be
  // encoded.
  method Branch(buf: array<UInt8>, at: nat, dest: int)
    requires at + 4 <= buf.Length
    modifies buf
    ensures IsBranch(buf[..], at)
    ensures Target(buf[..], at) == dest <==> Encodable(dest - at - 8)
    ensures Word(buf[at], buf[at + 1], buf[at + 2], 0) == (dest - at - 8) / 4 % 0x100_0000
    ensures buf[at + 3] == 0xEA
    ensures forall i | 0 <= i < buf.Length && !(at <= i < at + 4) :: buf[i] == old(buf[i])
  {
    var offset := dest - at - 8;
    buf[at] := offset / 4 % 0x100;
    buf[at + 1] := offset / 0x400 % 0x100;
    buf[at + 2] := offset / 0x4_0000 % 0x100;
    buf[at + 3] := BRANCH_INST;
    OffsetExact(offset);
    ImmIsQuotient(offset);
    assert WordAt(buf[..], at) == Imm(offset) + 0x100_0000 * 0xEA;
  }

  // ------------------------------------------------------------- the header

  const HEADER: nat := 0x40
  const HEADER_SIZE: nat := 20
  const VALIDATION_WORD := 0x3130_5341

  // Where the checksum stands.
  function ChecksumAt(version: UInt8): nat {
    if version == 0 then HEADER + 10 else HEADER + 18
  }

  // The first byte behind the header, or behind the trampoline if one is
  // needed.
  function Written(version: UInt8, start: nat): nat {
    if version == 0 then HEADER + 16 else if start < HEADER then HEADER + HEADER_SIZE + 4 else HEADER + HEADER_SIZE
  }

  // The least size that leaves room for all of it and the CRC.
  function MinSize(version: UInt8, start: nat): nat {
    Written(version, start) + 4
  }

  // Header and trampoline lie inside the buffer and apart from the CRC word.
  predicate LaidOut(version: UInt8, start: nat, size: nat) {
    forall i | HEADER <= i < Written(version, start) :: InFront(i, size)
  }

  predicate InFront(i: nat, size: nat) {
    i < size && !(size - 4 <= i < size)
  }

  lemma LayoutExact(version: UInt8, start: nat, size: nat)
    ensures LaidOut(version, start, size) <==> size >= MinSize(version, start)
  {
    if LaidOut(version, start, size) {
      assert InFront(Written(version, start) - 1, size);
    }
  }

  // The size of the buffer for an input of this length, with or without a
  // barebox header before it.
  function BufferSize(input: nat, barebox: bool): nat {
    (input + 3) / 4 * 4 + 4 + if barebox then 512 else 0
  }

  // The program asks for 80 bytes of input without a barebox header.  That is
  // enough for version 0, but version 1 needs more than 84; up to 84 the CRC
  // takes the place of the trampoline, and of exactly 80 bytes the trampoline
  // lies behind the buffer.
  lemma ProgramLayout(input: nat, barebox: bool, version: UInt8)
    requires version <= 1 && (barebox || input >= 80)
    ensures LaidOut(version, if barebox then 512 else 0, BufferSize(input, barebox))
      <==> version == 0 || barebox || input > 84
    ensures !barebox && 80 < input <= 84 ==> BufferSize(input, barebox) == 88
    ensures Written(version, if barebox then 512 else 0) <= BufferSize(input, barebox)
      <==> !(version == 1 && !barebox && input == 80)
  {
    LayoutExact(version, if barebox then 512 else 0, BufferSize(input, barebox));
  }

  predicate Identified(img: Image, version: UInt8)
    requires |img| >= 80
  {
    WordAt(img, HEADER) == VALIDATION_WORD && img[HEADER + 4] == version && img[HEADER + 5] == 0
  }

  // A version 0 header branches to the entry point.
  predicate Fields0(img: Image, size: nat, start: nat)
    requires |img| >= 80
  {
    && HalfAt(img, HEADER + 6) == size / 4 % 0x1_0000 && HalfAt(img, HEADER + 8) == 0
    && IsBranch(img, HEADER + 12)
    && (Target(img, HEADER + 12) == start <==> Encodable(start - (HEADER + 12) - 8))
  }

  // A version 1 header gives the offset of the entry point, or of a trampoline
  // after the header that branches to an entry point before the header.
  predicate Fields1(img: Image, size: nat, start: nat)
    requires |img| >= Written(1, start)
  {
    && HalfAt(img, HEADER + 6) == HEADER_SIZE && WordAt(img, HEADER + 8) == size && HalfAt(img, HEADER + 16) == 0
    && if start >= HEADER then HEADER + WordAt(img, HEADER + 12) == start
       else
         HEADER + WordAt(img, HEADER + 12) == HEADER + HEADER_SIZE && Trampoline(img, start)
  }

  // After the header stands a branch to the entry point.
  predicate Trampoline(img: Image, start: nat)
    requires |img| >= HEADER + HEADER_SIZE + 4
  {
    && IsBranch(img, HEADER + HEADER_SIZE)
    && (Target(img, HEADER + HEADER_SIZE) == start <==> Encodable(start - (HEADER + HEADER_SIZE) - 8))
  }

  predicate Fields(img: Image, size: nat, start: nat, version: UInt8)
    requires |img| >= Written(version, start)
  {
    if version == 0 then Fields0(img, size, start) else Fields1(img, size, start)
  }

  function Sum(img: Image, lo: nat, hi: nat): nat
    requires lo <= hi <= |img|
  {
    if lo == hi then 0 else Sum(img, lo, hi - 1) + img[hi - 1]
  }

  lemma {:induction false} SumBound(img: Image, lo: nat, hi: nat)
    requires lo <= hi <= |img|
    ensures Sum(img, lo, hi) <= 0x100 * (hi - lo)
  {
    if lo < hi { SumBound(img, lo, hi - 1); }
  }

  lemma {:induction false} SumSame(img: Image, img': Image, lo: nat, hi: nat)
    requires lo <= hi <= |img| && hi <= |img'| && forall i | lo <= i < hi :: img[i] == img'[i]
    ensures Sum(img, lo, hi) == Sum(img', lo, hi)
  {
    if lo < hi { SumSame(img, img', lo, hi - 1); }
  }

  predicate Summed(img: Image, at: nat)
    requires HEADER <= at && at + 2 <= |img|
  {
    HalfAt(img, at) == Sum(img, HEADER, at)
  }

  function ByteOf(w: bv32, k: nat): UInt8
    requires k < 4
  {
    Part(w, k) as int
  }

  function Part(w: bv32, k: nat): Byte {
    (if k == 0 then w else if k == 1 then w >> 8 else if k == 2 then w >> 16 else w >> 24) & 0xFF
  }

  function CrcWord(img: Image): bv32 {
    Invert(CrcOf(ALL_ONES, Widened(img)).w)
  }

  function Invert(w: bv32): bv32 {
    w ^ 0xFFFF_FFFF
  }

  // The last four bytes are the CRC of the others, low byte first.
  predicate Checked(img: Image)
    requires |img| >= 4
  {
    var n := |img| - 4;
    var crc := CrcWord(img[..n]);
    img[n..] == [ByteOf(crc, 0), ByteOf(crc, 1), ByteOf(crc, 2), ByteOf(crc, 3)]
  }

  // The remainder of the long division of the first n bytes, with the register
  // preloaded.
  function Divided(img: Image, n: nat): bv32
    requires n <= |img|
  {
    Remainder(PRELOAD, Bits(Widened(img[..n])) + Zeros(32)).w
  }

  // The bytes from the n-th on are those of the remainder, complemented and low
  // byte first.
  predicate Complemented(img: Image, n: nat)
    requires n + 4 <= |img|
  {
    var w := Divided(img, n);
    && img[n] + (w & 0xFF) as int == 0xFF
    && img[n + 1] + ((w >> 8) & 0xFF) as int == 0xFF
    && img[n + 2] + ((w >> 16) & 0xFF) as int == 0xFF
    && img[n + 3] + ((w >> 24) & 0xFF) as int == 0xFF
  }

  lemma ByteComplement(x: bv32, y: bv32)
    requires x <= 0xFF && y == 0xFF - x
    ensures x as int + y as int == 0xFF
  {
  }

  lemma FlipByte(x: bv32)
    requires x <= 0xFF
    ensures x ^ 0xFF == 0xFF - x
  {
  }

  lemma PartFlipped(w: bv32, k: nat)
    requires k < 4
    ensures Part(w, k) <= 0xFF && Part(Invert(w), k) == Part(w, k) ^ 0xFF
  {
    if k == 0 {
      FlipAll(w);
    } else if k == 1 {
      ShiftFlip8(w);
    } else if k == 2 {
      ShiftFlip16(w);
    } else {
      ShiftFlip24(w);
    }
  }

  lemma FlipAll(x: bv32)
    ensures (x ^ 0xFFFF_FFFF) & 0xFF == (x & 0xFF) ^ 0xFF
  {
  }

  lemma ShiftFlip8(w: bv32)
    ensures ((w ^ 0xFFFF_FFFF) >> 8) & 0xFF == ((w >> 8) & 0xFF) ^ 0xFF
  {
  }

  lemma ShiftFlip16(w: bv32)
    ensures ((w ^ 0xFFFF_FFFF) >> 16) & 0xFF == ((w >> 16) & 0xFF) ^ 0xFF
  {
  }

  lemma ShiftFlip24(w: bv32)
    ensures ((w ^ 0xFFFF_FFFF) >> 24) & 0xFF == ((w >> 24) & 0xFF) ^ 0xFF
  {
  }

  lemma ByteOfInverse(w: bv32, k: nat)
    requires k < 4
    ensures ByteOf(Invert(w), k) + Part(w, k) as int == 0xFF
  {
    hide Part, Invert;
    PartFlipped(w, k);
    FlipByte(Part(w, k));
    ByteComplement(Part(w, k), Part(Invert(w), k));
  }

  lemma Parts(w: bv32)
    ensures Part(w, 0) == w & 0xFF && Part(w, 1) == (w >> 8) & 0xFF
    ensures Part(w, 2) == (w >> 16) & 0xFF && Part(w, 3) == (w >> 24) & 0xFF
  {
  }

  lemma CheckedComplement(img: Image)
    requires |img| >= 4 && Checked(img)
    ensures Complemented(img, |img| - 4)
  {
    hide ByteOf, Part, Invert, CrcOf, Remainder, Bits, Widened, Zeros;
    var n := |img| - 4;
    var w := CrcOf(ALL_ONES, Widened(img[..n])).w;
    CrcOfImage(Widened(img[..n]));
    Parts(w);
    ByteOfInverse(w, 0);
    ByteOfInverse(w, 1);
    ByteOfInverse(w, 2);
    ByteOfInverse(w, 3);
    var last := img[n..];
    assert last[0] == img[n] && last[1] == img[n + 1] && last[2] == img[n + 2] && last[3] == img[n + 3];
  }

  // What a loader checks: identification, lengths, entry point, sum and CRC.
  predicate Accepted(img: Image, start: nat, version: UInt8)
    requires version <= 1 && |img| >= Written(version, start)
  {
    && Identified(img, version)
    && Fields(img, |img|, start, version)
    && Summed(img, ChecksumAt(version))
    && Checked(img)
  }

  // --------------------------------------------------------- filling it in

  method PutHalf(buf: array<UInt8>, at: nat, x: nat)
    requires at + 2 <= buf.Length
    modifies buf
    ensures HalfAt(buf[..], at) == x % 0x1_0000
    ensures forall i | 0 <= i < buf.Length && !(at <= i < at + 2) :: buf[i] == old(buf[i])
  {
    buf[at] := x % 0x100;
    buf[at + 1] := x / 0x100 % 0x100;
    HalfOfBytes(x);
  }

  method PutWord(buf: array<UInt8>, at: nat, x: nat)
    requires at + 4 <= buf.Length && x < 0x1_0000_0000
    modifies buf
    ensures WordAt(buf[..], at) == x
    ensures forall i | 0 <= i < buf.Length && !(at <= i < at + 4) :: buf[i] == old(buf[i])
  {
    buf[at] := x % 0x100;
    buf[at + 1] := x / 0x100 % 0x100;
    buf[at + 2] := x / 0x1_0000 % 0x100;
    buf[at + 3] := x / 0x100_0000 % 0x100;
    WordOfBytes(x);
  }

  ghost predicate SameBut(was: Image, buf: array<UInt8>, lo: nat, hi: nat)
    reads buf
  {
    |was| == buf.Length && forall i | 0 <= i < buf.Length && !(lo <= i < hi) :: buf[i] == was[i]
  }

  method Identify(buf: array<UInt8>, version: UInt8)
    requires buf.Length >= 80
    modifies buf
    ensures Identified(buf[..], version) && SameBut(old(buf[..]), buf, HEADER, HEADER + 6)
  {
    PutWord(buf, HEADER, VALIDATION_WORD);
    buf[HEADER + 4] := version;
    buf[HEADER + 5] := 0;
  }

  method PutFields0(buf: array<UInt8>, size: nat, start: nat)
    requires buf.Length >= 80
    modifies buf
    ensures Fields0(buf[..], size, start) && SameBut(old(buf[..]), buf, HEADER + 6, HEADER + 16)
  {
    PutHalf(buf, HEADER + 6, size / 4);
    PutHalf(buf, HEADER + 8, 0);
    Branch(buf, HEADER + 12, start);
  }

  method PutFields1(buf: array<UInt8>, size: nat, start: nat)
    requires buf.Length >= Written(1, start) && size < 0x1_0000_0000 && start < 0x1_0000_0000
    modifies buf
    ensures Fields1(buf[..], size, start)
    ensures SameBut(old(buf[..]), buf, HEADER + 6, if start < HEADER then HEADER + 24 else HEADER + 18)
  {
    var entry := start;
    if start < HEADER {
      Branch(buf, HEADER + HEADER_SIZE, start);
      entry := HEADER + HEADER_SIZE;
    }
    PutHalf(buf, HEADER + 6, HEADER_SIZE);
    PutWord(buf, HEADER + 8, size);
    PutWord(buf, HEADER + 12, entry - HEADER);
    PutHalf(buf, HEADER + 16, 0);
  }

  // The sum of the header up to the checksum.
  method PutChecksum(buf: array<UInt8>, at: nat)
    requires HEADER <= at <= HEADER + 18 && at + 2 <= buf.Length
    modifies buf
    ensures Summed(buf[..], at) && SameBut(old(buf[..]), buf, at, at + 2)
  {
    var checksum: nat := 0;
    var p := HEADER;
    while p < at
      invariant HEADER <= p <= at && checksum == Sum(buf[..], HEADER, p)
    {
      checksum := checksum + buf[p];
      p := p + 1;
    }
    SumBound(buf[..], HEADER, at);
    ghost var was := buf[..];
    PutHalf(buf, at, checksum);
    SumSame(was, buf[..], HEADER, at);
  }

  // The CRC of the first size bytes goes into the last four of them.
  method PutCrc(buf: array<UInt8>, size: nat)
    requires 4 <= size <= buf.Length
    modifies buf
    ensures Checked(buf[..size]) && Complemented(buf[..size], size - 4)
    ensures SameOutside(old(buf[..]), buf[..], size - 4, size)
  {
    hide ByteOf, Invert, CrcOf, Widened, Complemented;
    var n := size - 4;
    var crc := Crc32(ALL_ONES.w, buf, n);
    crc := Invert(crc);
    ghost var front := buf[..n];
    buf[n] := ByteOf(crc, 0);
    buf[n + 1] := ByteOf(crc, 1);
    buf[n + 2] := ByteOf(crc, 2);
    buf[n + 3] := ByteOf(crc, 3);
    assert buf[..size][..n] == front;
    CheckedComplement(buf[..size]);
  }

  // Two images with the same header, but for the checksum.
  ghost predicate SameHeader(img: Image, img': Image, version: UInt8, start: nat) {
    && |img| >= Written(version, start) && |img'| >= Written(version, start)
    && forall i | HEADER <= i < Written(version, start) ::
         i != ChecksumAt(version) && i != ChecksumAt(version) + 1 ==> img[i] == img'[i]
  }

  lemma FieldsKept(img: Image, img': Image, version: UInt8, start: nat, size: nat)
    requires version <= 1 && SameHeader(img, img', version, start)
    requires Identified(img, version) && Fields(img, size, start, version)
    ensures Identified(img', version) && Fields(img', size, start, version)
  {
  }

  lemma SummedKept(img: Image, img': Image, version: UInt8)
    requires version <= 1 && |img| >= ChecksumAt(version) + 2 && |img'| >= ChecksumAt(version) + 2
    requires Summed(img, ChecksumAt(version))
    requires forall i | HEADER <= i < ChecksumAt(version) + 2 :: img[i] == img'[i]
    ensures Summed(img', ChecksumAt(version))
  {
    SumSame(img, img', HEADER, ChecksumAt(version));
  }

  // The header of an image of this size, with its checksum.
  ghost predicate Headed(img: Image, size: nat, start: nat, version: UInt8) {
    && version <= 1 && |img| >= Written(version, start)
    && Identified(img, version) && Fields(img, size, start, version) && Summed(img, ChecksumAt(version))
  }

  // The header byte by byte, as the loader in the chip reads it.
  lemma HeadedBytes(img: Image, size: nat, start: nat, version: UInt8)
    requires Headed(img, size, start, version) && size < 0x1_0000_0000 && start < 0x1_0000_0000
    ensures img[0x40..0x44] == [0x41, 0x53, 0x30, 0x31] && img[0x44] == version && img[0x45] == 0
    ensures version == 0 ==>
      && Half(img[0x46], img[0x47]) == size / 4 % 0x1_0000 && img[0x48..0x4A] == [0, 0] && img[0x4F] == 0xEA
      && Half(img[0x4A], img[0x4B]) == Total(img[0x40..0x4A])
    ensures version == 1 ==>
      && img[0x46..0x48] == [20, 0] && img[0x50..0x52] == [0, 0]
      && Word(img[0x48], img[0x49], img[0x4A], img[0x4B]) == size
      && Word(img[0x4C], img[0x4D], img[0x4E], img[0x4F]) == (if start >= 0x40 then start - 0x40 else 20)
      && (start < 0x40 ==> img[0x57] == 0xEA)
      && Half(img[0x52], img[0x53]) == Total(img[0x40..0x52])
  {
    DigitsSame(img[0x40], img[0x41], img[0x42], img[0x43], 0x41, 0x53, 0x30, 0x31);
    SumIsTotal(img, if version == 0 then 0x4A else 0x52);
  }

  function Total(s: Image): nat {
    if s == [] then 0 else s[0] + Total(s[1..])
  }

  lemma {:induction false} TotalSnoc(s: Image, b: UInt8)
    ensures Total(s + [b]) == Total(s) + b
  {
    if s == [] {
      assert s + [b] == [b] && [b][1..] == [];
    } else {
      TotalSnoc(s[1..], b);
      assert (s + [b])[1..] == s[1..] + [b];
    }
  }

  lemma {:induction false} SumIsTotal(img: Image, hi: nat)
    requires 0x40 <= hi <= |img|
    ensures Sum(img, 0x40, hi) == Total(img[0x40..hi])
  {
    if hi > 0x40 {
      SumIsTotal(img, hi - 1);
      TotalSnoc(img[0x40..hi - 1], img[hi - 1]);
      assert img[0x40..hi] == img[0x40..hi - 1] + [img[hi - 1]];
    }
  }

  method PutFields(buf: array<UInt8>, size: nat, start: nat, version: UInt8)
    requires version <= 1 && Written(version, start) <= buf.Length && size < 0x1_0000_0000 && start < 0x1_0000_0000
    modifies buf
    ensures Identified(buf[..], version) && Fields(buf[..], size, start, version)
    ensures SameBut(old(buf[..]), buf, HEADER, Written(version, start))
  {
    Identify(buf, version);
    ghost var was := buf[..];
    if version == 0 {
      PutFields0(buf, size, start);
    } else {
      PutFields1(buf, size, start);
    }
    assert forall i | HEADER <= i < HEADER + 6 :: buf[..][i] == was[i];
  }

  method PutHeader(buf: array<UInt8>, size: nat, start: nat, version: UInt8)
    requires version <= 1 && Written(version, start) <= buf.Length && size < 0x1_0000_0000 && start < 0x1_0000_0000
    modifies buf
    ensures Headed(buf[..], size, start, version)
    ensures SameBut(old(buf[..]), buf, HEADER, Written(version, start))
  {
    hide Identified, Fields, Summed;
    PutFields(buf, size, start, version);
    ghost var img := buf[..];
    PutChecksum(buf, ChecksumAt(version));
    FieldsKept(img, buf[..], version, start, size);
  }

  // With room for both, the CRC leaves the header alone.
  lemma HeadedIsAccepted(img: Image, img': Image, size: nat, start: nat, version: UInt8)
    requires Headed(img, size, start, version) && |img| >= size >= MinSize(version, start)
    requires SameOutside(img, img', size - 4, size) && Checked(img'[..size])
    ensures Accepted(img'[..size], start, version)
  {
    hide Identified, Fields, Summed, Checked;
    FieldsKept(img, img'[..size], version, start, size);
    SummedKept(img, img'[..size], version);
  }

  // add_socfpga_header, for a buffer of this size at the start of the memory
  // buf, whenever header and trampoline lie inside the memory: the header is
  // laid out, and then the last four bytes of the buffer become the CRC.  With
  // room for both in the buffer the image is accepted.
  method AddSocfpgaHeader(buf: array<UInt8>, size: nat, start: nat, version: UInt8)
    returns (ok: bool, ghost headed: Image)
    requires version <= 1 && 4 <= size <= buf.Length && size < 0x1_0000_0000 && start < 0x1_0000_0000
    requires size % 4 == 0 ==> buf.Length >= Written(version, start)
    modifies buf
    ensures ok <==> size % 4 == 0
    ensures !ok ==> buf[..] == old(buf[..])
    ensures ok ==> Headed(headed, size, start, version)
    ensures ok ==> SameOutside(old(buf[..]), headed, HEADER, Written(version, start))
    ensures ok ==> SameOutside(headed, buf[..], size - 4, size) && Checked(buf[..size])
    ensures ok ==> Complemented(buf[..size], size - 4)
    ensures ok && size >= MinSize(version, start) ==> Accepted(buf[..size], start, version)
  {
    if size % 4 != 0 {
      return false, buf[..];
    }
    hide Headed, Checked, Accepted, Complemented, Written;
    PutHeader(buf, size, start, version);
    headed := buf[..];
    PutCrc(buf, size);
    if size >= MinSize(version, start) {
      HeadedIsAccepted(headed, buf[..], size, start, version);
    }
    ok := true;
  }

  ghost predicate SameOutside(img: Image, img': Image, lo: int, hi: int) {
    |img| == |img'| && forall i | 0 <= i < |img| && !(lo <= i < hi) :: img[i] == img'[i]
  }

  // But for the trampoline, the fields stand in the first 84 bytes.
  lemma FieldsBeforeTrampoline(headed: Image, img: Image, start: nat)
    requires |headed| == |img| == 88 && start < HEADER && Identified(headed, 1) && Fields1(headed, 88, start)
    requires forall i | HEADER <= i < 80 :: img[i] == headed[i]
    requires img[80] == headed[80] && img[81] == headed[81]
    ensures Identified(img, 1) && HEADER + WordAt(img, HEADER + 12) == HEADER + HEADER_SIZE
    ensures Fields1(img, 88, start) <==> Trampoline(img, start)
  {
    hide Trampoline;
  }

  // The word at this place is the CRC of the bytes before the last four.
  predicate CrcWordAt(img: Image, at: nat)
    requires 4 <= |img| && at + 4 <= |img|
  {
    var crc := CrcWord(img[..|img| - 4]);
    WordAt(img, at) == Word(ByteOf(crc, 0), ByteOf(crc, 1), ByteOf(crc, 2), ByteOf(crc, 3))
  }

  lemma LastWord(img: Image)
    requires |img| >= 4 && Checked(img)
    ensures CrcWordAt(img, |img| - 4)
  {
    hide CrcWord, ByteOf;
    var n := |img| - 4;
    assert img[n] == img[n..][0] && img[n + 1] == img[n..][1] && img[n + 2] == img[n..][2] && img[n + 3] == img[n..][3];
  }

  // Version 1 with a trampoline in 88 bytes: identification, entry offset and
  // sum are right, but where the entry offset leads there is the CRC word
  // instead of the trampoline, so that the image is accepted exactly if that
  // word happens to be the branch.
  lemma TrampolineOverwritten(headed: Image, img: Image, start: nat)
    requires Headed(headed, 88, start, 1) && start < HEADER && |img| == |headed| == 88
    requires SameOutside(headed, img, 84, 88) && Checked(img)
    ensures Identified(img, 1) && Summed(img, ChecksumAt(1))
    ensures HEADER + WordAt(img, HEADER + 12) == HEADER + HEADER_SIZE
    ensures CrcWordAt(img, HEADER + HEADER_SIZE)
    ensures Accepted(img, start, 1) <==> Trampoline(img, start)
  {
    hide CrcWordAt, CrcWord, ByteOf, Word, WordAt, Trampoline, Summed, Checked, Fields1, Identified;
    SummedKept(headed, img, 1);
    FieldsBeforeTrampoline(headed, img, start);
    LastWord(img);
  }

  // What the program makes of 81 to 84 bytes of input as version 1: with the
  // padding and the CRC they take 88 bytes.
  method AddTightHeader(buf: array<UInt8>) returns (ok: bool)
    requires buf.Length == 88
    modifies buf
    ensures ok && Identified(buf[..], 1) && Summed(buf[..], ChecksumAt(1)) && Checked(buf[..])
    ensures CrcWordAt(buf[..], HEADER + HEADER_SIZE)
    ensures Accepted(buf[..], 0, 1) <==> Trampoline(buf[..], 0)
  {
    hide CrcWord, ByteOf, Word, WordAt, Trampoline, Summed, Checked, Identified, Accepted, Headed, CrcWordAt;
    ghost var headed;
    ok, headed := AddSocfpgaHeader(buf, 88, 0, 1);
    assert buf[..88] == buf[..];
    TrampolineOverwritten(headed, buf[..], 0);
  }

  // With the trampoline behind a buffer of 84 bytes, the CRC takes the place of
  // the spare bytes and of the sum.
  lemma SumOverwritten(headed: Image, img: Image, start: nat)
    requires Headed(headed, 84, start, 1) && start < HEADER && |img| == |headed| == 88
    requires SameOutside(headed, img, 80, 84) && Checked(img[..84])
    ensures Identified(img, 1) && HalfAt(img, HEADER + 6) == HEADER_SIZE && WordAt(img, HEADER + 8) == 84
    ensures HEADER + WordAt(img, HEADER + 12) == 84 && Trampoline(img, start)
    ensures CrcWordAt(img[..84], HEADER + 16)
  {
    hide CrcWordAt, CrcWord, ByteOf, Checked;
    LastWord(img[..84]);
  }

  // What the program makes of exactly 80 bytes of input as version 1: with the
  // CRC they take 84 bytes.  The entry offset leads behind them, where the
  // trampoline is written over the four bytes that follow in memory.
  method AddShortHeader(mem: array<UInt8>) returns (ok: bool)
    requires mem.Length == 88
    modifies mem
    ensures ok && forall i | 0 <= i < HEADER :: mem[i] == old(mem[i])
    ensures Identified(mem[..], 1) && HalfAt(mem[..], HEADER + 6) == HEADER_SIZE && WordAt(mem[..], HEADER + 8) == 84
    ensures HEADER + WordAt(mem[..], HEADER + 12) == 84 && Trampoline(mem[..], 0)
    ensures Checked(mem[..84]) && CrcWordAt(mem[..84], HEADER + 16)
  {
    hide CrcWord, ByteOf, Word, WordAt, HalfAt, Trampoline, Summed, Checked, Identified, Accepted, Headed, CrcWordAt;
    ghost var headed;
    ok, headed := AddSocfpgaHeader(mem, 84, 0, 1);
    SumOverwritten(headed, mem[..], 0);
  }

  // -------------------------------------------------------- changed images

  lemma WordInjective(a: bv32, b: bv32)
    requires Part(a, 0) == Part(b, 0) && Part(a, 1) == Part(b, 1)
    requires Part(a, 2) == Part(b, 2) && Part(a, 3) == Part(b, 3)
    ensures a == b
  {
  }

  lemma IntInjective(a: bv32, b: bv32)
    requires a as int == b as int
    ensures a == b
  {
    assert (a as int) as bv32 == a;
    assert (b as int) as bv32 == b;
  }

  lemma BytesInjective(a: bv32, b: bv32)
    requires ByteOf(a, 0) == ByteOf(b, 0) && ByteOf(a, 1) == ByteOf(b, 1)
    requires ByteOf(a, 2) == ByteOf(b, 2) && ByteOf(a, 3) == ByteOf(b, 3)
    ensures a == b
  {
    hide Part;
    IntInjective(Part(a, 0), Part(b, 0));
    IntInjective(Part(a, 1), Part(b, 1));
    IntInjective(Part(a, 2), Part(b, 2));
    IntInjective(Part(a, 3), Part(b, 3));
    WordInjective(a, b);
  }

  lemma InvertInjective(a: bv32, b: bv32)
    requires Invert(a) == Invert(b)
    ensures a == b
  {
  }

  // Two images whose CRC fits and whose bytes before the CRC word differ only
  // within 32 consecutive bits have different CRC words.
  lemma BurstNoticed(img: Image, img': Image)
    requires |img| == |img'| >= 4 && Checked(img) && Checked(img')
    requires Burst(Bits(Widened(img[..|img| - 4])), Bits(Widened(img'[..|img| - 4])))
    ensures img[|img| - 4..] != img'[|img| - 4..]
  {
    hide ByteOf, Invert, CrcOf, Bits, Widened, Burst;
    var n := |img| - 4;
    BurstDetected(Widened(img[..n]), Widened(img'[..n]));
    if img[n..] == img'[n..] {
      var crc, crc' := CrcWord(img[..n]), CrcWord(img'[..n]);
      var x, y := img[n..], img'[n..];
      assert x[0] == y[0] && x[1] == y[1] && x[2] == y[2] && x[3] == y[3];
      BytesInjective(crc, crc');
      InvertInjective(CrcOf(ALL_ONES, Widened(img[..n])).w, CrcOf(ALL_ONES, Widened(img'[..n])).w);
    }
  }

  lemma ZeroExtend(x: bv8, y: bv8)
    requires x as bv32 == y as bv32
    ensures x == y
  {
  }

  lemma WidenInjective(a: UInt8, b: UInt8)
    requires Widen(a) == Widen(b)
    ensures a == b
  {
    hide Octet;
    ZeroExtend(Octet(a), Octet(b));
    OctetBack(a);
    OctetBack(b);
  }

  // No change of up to four consecutive bytes before the CRC word goes
  // unnoticed.
  lemma ChangeNoticed(a: Image, w: Image, w': Image, z: Image)
    requires |w| == |w'| <= 4 && w != w' && |z| >= 4
    ensures !(Checked(a + w + z) && Checked(a + w' + z))
  {
    hide Checked, CrcWord, ByteOf, Widen, Bits, Burst;
    var img, img', n := a + w + z, a + w' + z, |a + w + z| - 4;
    var tail := z[..|z| - 4];
    assert Widened(img[..n]) == Widened(a) + Widened(w) + Widened(tail);
    assert Widened(img'[..n]) == Widened(a) + Widened(w') + Widened(tail);
    if Widened(w) == Widened(w') {
      forall i | 0 <= i < |w| ensures w[i] == w'[i] {
        assert Widened(w)[i] == Widened(w')[i];
        WidenInjective(w[i], w'[i]);
      }
    }
    BytesAreBurst(Widened(a), Widened(w), Widened(w'), Widened(tail));
    assert img[n..] == z[|z| - 4..] == img'[n..];
    if Checked(img) && Checked(img') { BurstNoticed(img, img'); }
  }

  lemma DigitsSame(
    a0: UInt8, a1: UInt8, a2: UInt8, a3: UInt8, b0: UInt8, b1: UInt8, b2: UInt8, b3: UInt8)
    requires Word(a0, a1, a2, a3) == Word(b0, b1, b2, b3)
    ensures a0 == b0 && a1 == b1 && a2 == b2 && a3 == b3
  {
  }

  lemma SameWordBytes(img: Image, img': Image, at: nat)
    requires at + 4 <= |img| == |img'| && WordAt(img, at) == WordAt(img', at)
    ensures img[at..at + 4] == img'[at..at + 4]
  {
    DigitsSame(img[at], img[at + 1], img[at + 2], img[at + 3], img'[at], img'[at + 1], img'[at + 2], img'[at + 3]);
  }

  // There is only one branch from one place to another.
  lemma SameBranch(img: Image, img': Image, start: nat)
    requires |img| == |img'| == 88 && start % 4 == 0 && start < HEADER
    requires Trampoline(img, start) && Trampoline(img', start)
    ensures img[84..] == img'[84..]
  {
    SameWordBytes(img, img', HEADER + HEADER_SIZE);
  }

  // Of two images of 88 bytes that differ in up to four consecutive bytes before
  // the CRC word, at most one has a CRC that is a trampoline.
  lemma AtMostOneAccepted(a: Image, w: Image, w': Image, z: Image, crc: Image, crc': Image, start: nat)
    requires |w| == |w'| <= 4 && w != w' && |a + w + z| == 84 && |crc| == |crc'| == 4
    requires start % 4 == 0 && start < HEADER
    ensures !(Accepted(a + w + z + crc, start, 1) && Accepted(a + w' + z + crc', start, 1))
  {
    hide Checked, Trampoline, Identified, Summed, WordAt, HalfAt;
    var img, img' := a + w + z + crc, a + w' + z + crc';
    if Accepted(img, start, 1) && Accepted(img', start, 1) {
      SameBranch(img, img', start);
      assert crc == img[84..] == img'[84..] == crc';
      assert img == a + w + (z + crc) && img' == a + w' + (z + crc);
      ChangeNoticed(a, w, w', z + crc);
    }
  }

  // The entry points the program uses are reached: 0, and 0x200 after a
  // barebox header.
  lemma EntryReached(img: Image, start: nat, version: UInt8)
    requires version <= 1 && |img| >= MinSize(version, start) && Accepted(img, start, version)
    requires start % 4 == 0 && start < 0x200_0000
    ensures version == 0 ==> Target(img, HEADER + 12) == start
    ensures version == 1 ==>
      var entry := HEADER + WordAt(img, HEADER + 12);
      entry == start || (entry == HEADER + HEADER_SIZE && Target(img, entry) == start)
  {
    hide Target, IsBranch, WordAt, HalfAt, Summed, Checked, Identified;
  }

  // The length read back is the size, for version 0 if the words fit in 16 bits.
  lemma LengthRead(img: Image, start: nat, version: UInt8)
    requires version <= 1 && |img| >= MinSize(version, start) && Accepted(img, start, version)
    ensures version == 0 && |img| % 4 == 0 && |img| < 0x4_0000 ==> 4 * HalfAt(img, HEADER + 6) == |img|
    ensures version == 1 ==> WordAt(img, HEADER + 8) == |img|
  {
    hide Target, IsBranch, WordAt, HalfAt, Summed, Checked, Identified;
  }
}
