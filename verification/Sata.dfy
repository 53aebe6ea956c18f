/** ahci.c: reading a run of sectors through the DMA buffer, one command a chunk. */
module Sata {
  import opened Bits

  type Byte = b: int | 0 <= b < 256

  const EIO := 9
  const ETIMEDOUT := 11

  /** The DMA buffer: 128 pages. */
  const DMA_BYTES := 0x8_0000

  const READ_DMA_EXT: Byte := 0x25
  const READ_DMA: Byte := 0xC8

  /** The words of a command FIS, and the entries of the PRDT. */
  const FIS_WORDS := 5
  const PRDT_ENTRIES := 1

  /** The fields of struct fis_reg_h2d that a read sets. */
  datatype Fis = Fis(kind: Byte, flags: Byte, command: Byte, device: Byte,
                     lba0: Byte, lba1: Byte, lba2: Byte, lba3: Byte, lba4: Byte, lba5: Byte,
                     countLo: Byte, countHi: Byte)

  /** The byte of x that starts at bit k. */
  function Octet(x: nat, k: nat): Byte {
    And(Shr(x, k), 0xFF) % 256
  }

  /** The command FIS of one chunk. */
  function Encode(lba48: bool, lba: Word, chunk: nat): Fis {
    if lba48 then
      Fis(0x27, 0x80, READ_DMA_EXT, 0x40, Octet(lba, 0), Octet(lba, 8), Octet(lba, 16), Octet(lba, 24),
        Octet(lba, 32), Octet(lba, 40),
          Octet(chunk, 0), Octet(chunk, 8))
    else
      Fis(0x27, 0x80, READ_DMA, Or(And(Shr(lba, 24), 0x0F), 0x40) % 256, Octet(lba, 0), Octet(lba, 8), Octet(lba, 16),
        0, 0, 0,
          Octet(chunk, 0), Octet(chunk, 8))
  }

  /** What a drive takes as a command to read by DMA: Serial ATA's register FIS from host to
      device (type 27h), with the C bit that makes it a command and no port multiplier, the LBA
      bit in the device register, and the ATA command READ DMA EXT (25h) if the drive has 48-bit
      addresses, READ DMA (C8h) if not. */
  predicate IsRead(f: Fis, lba48: bool) {
    && f.kind == 0x27 && f.flags / 0x80 == 1 && f.flags % 0x10 == 0 && f.device / 0x40 % 2 == 1
    && f.command == if lba48 then 0x25 else 0xC8
  }

  /** The registers hold the octets of the first sector and of the count, lowest first; a 28-bit
      address has its top four bits in the device register. */
  predicate Registers(f: Fis, lba48: bool, lba: nat, chunk: nat) {
    && f.lba0 == lba % 0x100 && f.lba1 == lba / 0x100 % 0x100 && f.lba2 == lba / 0x1_0000 % 0x100
    && f.countLo == chunk % 0x100 && f.countHi == chunk / 0x100
    && if lba48 then
         f.lba3 == lba / 0x100_0000 % 0x100 && f.lba4 == lba / 0x1_0000_0000 % 0x100
         && f.lba5 == lba / 0x100_0000_0000
       else f.device % 0x10 == lba / 0x100_0000 && f.lba3 == f.lba4 == f.lba5 == 0
  }

  /** The first sector a device reads, as the ATA commands define it. */
  function LbaOf(f: Fis): nat {
    f.lba0 + 0x100 * f.lba1 + 0x1_0000 * f.lba2
    + if f.command == READ_DMA_EXT then 0x100_0000 * f.lba3 + 0x1_0000_0000 * f.lba4 + 0x100_0000_0000 * f.lba5
      else 0x100_0000 * (f.device % 16)
  }

  /** How many sectors a device reads: READ DMA has an 8-bit count, and 0 stands for the maximum. */
  function CountOf(f: Fis): nat {
    if f.command == READ_DMA_EXT then
      var n := f.countLo + 0x100 * f.countHi;
      if n == 0 then 0x1_0000 else n
    else if f.countLo == 0 then 0x100 else f.countLo
  }

  /** The sectors a drive can address: 48 bits, or 28 bits without LBA48. */
  function Reach(lba48: bool): nat {
    if lba48 then 0x1_0000_0000_0000 else 0x1000_0000
  }

  lemma OctetIs(x: nat, k: nat)
    ensures Octet(x, k) == x / Pow2(k) % 256
  {
    hide And, Pow2, Shr;
    Powers();
    AndLow(Shr(x, k), 8);
    ShrIs(x, k);
  }

  lemma Powers()
    ensures Pow2(0) == 1 && Pow2(8) == 0x100 && Pow2(16) == 0x1_0000 && Pow2(24) == 0x100_0000
    ensures Pow2(32) == 0x1_0000_0000
    ensures Pow2(40) == 0x100_0000_0000 && Pow2(4) == 0x10 && Pow2(6) == 0x40 && Pow2(22) == 0x40_0000
    ensures Pow2(31) == 0x8000_0000
  {
  }

  lemma Octets(x: nat)
    ensures Octet(x, 0) == x % 256 && Octet(x, 8) == x / 0x100 % 256 && Octet(x, 16) == x / 0x1_0000 % 256
    ensures Octet(x, 24) == x / 0x100_0000 % 256 && Octet(x, 32) == x / 0x1_0000_0000 % 256
    ensures Octet(x, 40) == x / 0x100_0000_0000 % 256
  {
    hide Octet, Pow2;
    Powers();
    OctetIs(x, 0);
    OctetIs(x, 8);
    OctetIs(x, 16);
    OctetIs(x, 24);
    OctetIs(x, 32);
    OctetIs(x, 40);
  }

  /** Six octets make up a number of 48 bits. */
  lemma FromOctets(x: nat)
    requires x < 0x1_0000_0000_0000
    ensures x == x % 256 + 0x100 * (x / 0x100 % 256) + 0x1_0000 * (x / 0x1_0000 % 256)
                 + 0x100_0000 * (x / 0x100_0000 % 256)
                 + 0x1_0000_0000 * (x / 0x1_0000_0000 % 256) + 0x100_0000_0000 * (x / 0x100_0000_0000 % 256)
  {
    DivDiv(x, 0x100, 0x100);
    DivDiv(x, 0x1_0000, 0x100);
    DivDiv(x, 0x100_0000, 0x100);
    DivDiv(x, 0x1_0000_0000, 0x100);
    DivDiv(x, 0x100_0000_0000, 0x100);
    var y1, y2, y3, y4, y5 := x / 0x100, x / 0x1_0000, x / 0x100_0000, x / 0x1_0000_0000, x / 0x100_0000_0000;
    Split(x, y1);
    Split(y1, y2);
    Split(y2, y3);
    Split(y3, y4);
    Split(y4, y5);
    Top(x);
  }

  lemma Split(x: nat, y: nat)
    requires y == x / 0x100
    ensures x == 0x100 * y + x % 0x100
  {
  }

  lemma Top(x: nat)
    requires x < 0x1_0000_0000_0000
    ensures x / 0x100_0000_0000 % 256 == x / 0x100_0000_0000
  {
  }

  lemma DeviceBits(lba: Word)
    requires lba < 0x1000_0000
    ensures Or(And(Shr(lba, 24), 0x0F), 0x40) == 0x40 + lba / 0x100_0000
  {
    Powers();
    var y := Shr(lba, 24);
    assert y == lba / 0x100_0000 < 16;
    AndAll(y, 4);
    OrBit(y, 6);
  }

  lemma Encoded48(lba: Word, chunk: nat)
    ensures LbaOf(Encode(true, lba, chunk)) ==
            Octet(lba, 0) + 0x100 * Octet(lba, 8) + 0x1_0000 * Octet(lba, 16) + 0x100_0000 * Octet(lba, 24)
            + 0x1_0000_0000 * Octet(lba, 32) + 0x100_0000_0000 * Octet(lba, 40)
    ensures CountOf(Encode(true, lba, chunk)) ==
            var n := Octet(chunk, 0) + 0x100 * Octet(chunk, 8); if n == 0 then 0x1_0000 else n
  {
    hide Octet;
  }

  lemma Decode48(lba: Word, chunk: nat)
    requires lba < Reach(true) && 0 < chunk < 0x1_0000
    ensures LbaOf(Encode(true, lba, chunk)) == lba && CountOf(Encode(true, lba, chunk)) == chunk
    ensures IsRead(Encode(true, lba, chunk), true) && Registers(Encode(true, lba, chunk), true, lba, chunk)
  {
    Registers48(lba, chunk);
    hide Octet, LbaOf, CountOf, Encode;
    Encoded48(lba, chunk);
    Octets(lba);
    Octets(chunk);
    FromOctets(lba);
    Split(chunk, chunk / 0x100);
    assert chunk / 0x100 % 256 == chunk / 0x100;
  }

  lemma Registers48(lba: Word, chunk: nat)
    requires lba < Reach(true) && 0 < chunk < 0x1_0000
    ensures IsRead(Encode(true, lba, chunk), true) && Registers(Encode(true, lba, chunk), true, lba, chunk)
  {
    hide Octet;
    Octets(lba);
    Octets(chunk);
    Top(lba);
  }

  lemma Encoded28(lba: Word, chunk: nat)
    requires lba < Reach(false)
    ensures var f := Encode(false, lba, chunk);
      && f.lba0 == lba % 0x100 && f.lba1 == lba / 0x100 % 0x100 && f.lba2 == lba / 0x1_0000 % 0x100
      && f.device == 0x40 + lba / 0x100_0000 && lba / 0x100_0000 < 0x10 && f.lba3 == f.lba4 == f.lba5 == 0
      && f.countLo == chunk % 0x100 && f.countHi == chunk / 0x100 % 0x100
      && f.kind == 0x27 && f.flags == 0x80 && f.command == 0xC8
  {
    hide Octet, Or, And, Shr;
    Octets(lba);
    Octets(chunk);
    DeviceBits(lba);
  }

  lemma Decode28(lba: Word, chunk: nat)
    requires lba < Reach(false) && 0 < chunk < 0x1_0000
    ensures LbaOf(Encode(false, lba, chunk)) == lba && (CountOf(Encode(false, lba, chunk)) == chunk <==> chunk <= 256)
    ensures IsRead(Encode(false, lba, chunk), false) && Registers(Encode(false, lba, chunk), false, lba, chunk)
  {
    hide Encode, LbaOf, CountOf, IsRead, Registers;
    Encoded28(lba, chunk);
    Lba28(Encode(false, lba, chunk), lba);
    Count28(Encode(false, lba, chunk), chunk);
    Read28(Encode(false, lba, chunk), lba, chunk);
  }

  lemma Lba28(f: Fis, lba: Word)
    requires lba < Reach(false) && f.command == 0xC8 && f.device == 0x40 + lba / 0x100_0000
    requires f.lba0 == lba % 0x100 && f.lba1 == lba / 0x100 % 0x100 && f.lba2 == lba / 0x1_0000 % 0x100
    ensures LbaOf(f) == lba
  {
    var a, b, c := lba / 0x100, lba / 0x1_0000, lba / 0x100_0000;
    DivDiv(lba, 0x100, 0x100);
    DivDiv(lba, 0x1_0000, 0x100);
    Split(lba, a);
    Split(a, b);
    Split(b, c);
    DeviceNibble(c);
    assert LbaOf(f) == f.lba0 + 0x100 * f.lba1 + 0x1_0000 * f.lba2 + 0x100_0000 * (f.device % 16);
  }

  lemma DeviceNibble(c: nat)
    requires c < 0x10
    ensures (0x40 + c) % 16 == c
  {
  }

  lemma Count28(f: Fis, chunk: nat)
    requires 0 < chunk < 0x1_0000 && f.command == 0xC8 && f.countLo == chunk % 0x100
    ensures CountOf(f) == chunk <==> chunk <= 256
  {
  }

  lemma Read28(f: Fis, lba: Word, chunk: nat)
    requires chunk < 0x1_0000 && f.kind == 0x27 && f.flags == 0x80 && f.command == 0xC8
    requires f.device == 0x40 + lba / 0x100_0000 && lba / 0x100_0000 < 0x10 && f.lba3 == f.lba4 == f.lba5 == 0
    requires f.lba0 == lba % 0x100 && f.lba1 == lba / 0x100 % 0x100 && f.lba2 == lba / 0x1_0000 % 0x100
    requires f.countLo == chunk % 0x100 && f.countHi == chunk / 0x100 % 0x100
    ensures IsRead(f, false) && Registers(f, false, lba, chunk)
  {
  }

  /** A drive takes each command FIS as a read, and decodes it back to the sectors it was
      built for; without LBA48 exactly when the chunk has at most 256 sectors. */
  lemma FisRoundTrip(lba48: bool, lba: Word, chunk: nat)
    requires lba < Reach(lba48) && 0 < chunk < 0x1_0000
    ensures IsRead(Encode(lba48, lba, chunk), lba48)
    ensures Registers(Encode(lba48, lba, chunk), lba48, lba, chunk)
    ensures LbaOf(Encode(lba48, lba, chunk)) == lba
    ensures CountOf(Encode(lba48, lba, chunk)) == chunk <==> lba48 || chunk <= 256
  {
    if lba48 {
      Decode48(lba, chunk);
    } else {
      Decode28(lba, chunk);
    }
  }

  // ----------------------------------------------------------------------- chunks

  function MaxSectors(sectorSize: nat): nat
    requires sectorSize > 0
  {
    DMA_BYTES / sectorSize
  }

  /** The sectors of the next command: what is left, up to the maximum cut to 16 bits. */
  function Chunk(count: nat, sectorSize: nat): nat
    requires sectorSize > 0
  {
    (if count > MaxSectors(sectorSize) then MaxSectors(sectorSize) else count) % 0x1_0000
  }

  /** The byte-count field of the PRDT entry. */
  function Dbc(bytes: nat): nat
    requires bytes > 0
  {
    Or(bytes - 1, 0x8000_0000)
  }

  /** How many bytes a PRDT entry describes: bits 21:0 hold one less (AHCI 1.3.1, section 4.2.3.3). */
  function ByteCount(dbc: nat): nat {
    And(dbc, 0x3F_FFFF) + 1
  }

  lemma DbcRoundTrip(bytes: nat)
    requires 0 < bytes <= DMA_BYTES
    ensures ByteCount(Dbc(bytes)) == bytes && Dbc(bytes) < 0x1_0000_0000
  {
    hide And, Or, Pow2, Shr;
    Powers();
    OrBit(bytes - 1, 31);
    ShrIs(bytes - 1, 31);
    AndLow(bytes - 1 + 0x8000_0000, 22);
  }

  /** The sector sizes for which every chunk makes progress and fits the DMA buffer are
      exactly those from 9 bytes to 512 KiB. */
  lemma ChunksFit(sectorSize: nat)
    requires sectorSize > 0
    ensures 8 < sectorSize <= DMA_BYTES <==>
            forall count: nat :: 0 < count < 0x1_0000_0000 ==>
              0 < Chunk(count, sectorSize) <= count && Chunk(count, sectorSize) * sectorSize <= DMA_BYTES
  {
    if 8 < sectorSize <= DMA_BYTES {
      ChunkFits(sectorSize);
    } else if sectorSize > DMA_BYTES {
      assert MaxSectors(sectorSize) == 0 && Chunk(1, sectorSize) == 0;
    } else {
      assert MaxSectors(sectorSize) >= 0x1_0000;
      assert Chunk(0x1_0000, sectorSize) == 0;
    }
  }

  lemma ChunkFits(sectorSize: nat)
    requires 8 < sectorSize <= DMA_BYTES
    ensures 0 < MaxSectors(sectorSize) < 0x1_0000 && MaxSectors(sectorSize) == 0x8_0000 / sectorSize
    ensures forall count: nat :: 0 < count < 0x1_0000_0000 ==>
      && Chunk(count, sectorSize) == (if count > MaxSectors(sectorSize) then MaxSectors(sectorSize) else count)
      && 0 < Chunk(count, sectorSize) <= count && Chunk(count, sectorSize) * sectorSize <= DMA_BYTES
  {
    var max := MaxSectors(sectorSize);
    MulMonotone(sectorSize, max, 0x1_0000);
    MulMonotone(sectorSize, 0, max);
    forall count: nat | 0 < count < 0x1_0000_0000
      ensures Chunk(count, sectorSize) == (if count > max then max else count)
      ensures 0 < Chunk(count, sectorSize) <= count && Chunk(count, sectorSize) * sectorSize <= DMA_BYTES
    {
      MulMonotone(sectorSize, max, if count > max then max else count);
    }
  }

  /** The sectors of k commands of the full length. */
  function FullChunks(k: nat, sectorSize: nat): nat
    requires sectorSize > 0
  {
    k * MaxSectors(sectorSize)
  }

  // ------------------------------------------------------------------- the read

  /** The fields of struct ahci_cmd_header that a read sets: the length of the command FIS in
      words, the direction, and the number of PRDT entries (AHCI 1.3.1, section 4.2.2). */
  datatype Header = Header(cfl: nat, write: bool, prdtl: nat)

  class SataDevice {
    const lba48: bool
    const sectorSize: nat
    const image: seq<Byte>      // the bytes of the medium, sector after sector
    const dma: array<Byte>
    const dmaAddress: Word      // its physical address
    var header: Header
    var fis: Fis
    var dba: Word               // the PRDT entry: where the data goes, and how much
    var dbc: nat

    constructor (lba48: bool, sectorSize: nat, image: seq<Byte>, dmaAddress: Word)
      ensures this.lba48 == lba48 && this.sectorSize == sectorSize && this.image == image
      ensures dma.Length == DMA_BYTES && fresh(dma)
    {
      this.lba48, this.sectorSize, this.image, this.dmaAddress := lba48, sectorSize, image, dmaAddress;
      dma := new Byte[DMA_BYTES](_ => 0);
      header, fis := Header(0, false, 0), Fis(0, 0, 0, 0, 0, 0, 0, 0, 0, 0, 0, 0);
      dba, dbc := 0, 0;
    }

    /** Byte where sector n starts. */
    function At(n: nat): nat {
      n * sectorSize
    }

    /** The command in the command table is a read of sectors the medium has, into one run of
        the DMA buffer's bytes. */
    predicate CanServe()
      reads this
    {
      && IsRead(fis, lba48) && header == Header(5, false, 1) && dba == dmaAddress
      && At(LbaOf(fis) + CountOf(fis)) <= |image| && At(CountOf(fis)) <= ByteCount(dbc) <= DMA_BYTES
    }

    /** ahci_submit_command: the device decodes the FIS and fills the DMA buffer, or reports
        an error: `status`, if that is not 0. */
    method Submit(status: int) returns (err: int)
      requires dma.Length == DMA_BYTES
      modifies dma
      ensures err == if status != 0 then status else if CanServe() then 0 else -EIO
      ensures err == 0 ==> At(LbaOf(fis)) + At(CountOf(fis)) == At(LbaOf(fis) + CountOf(fis))
      ensures err == 0 ==> dma[..At(CountOf(fis))] == image[At(LbaOf(fis))..At(LbaOf(fis) + CountOf(fis))]
    {
      hide LbaOf, CountOf, ByteCount, IsRead;
      if status != 0 || !CanServe() {
        return if status != 0 then status else -EIO;
      }
      Distribute(LbaOf(fis), CountOf(fis), sectorSize);
      var from, n := At(LbaOf(fis)), At(CountOf(fis));
      for i := 0 to n
        invariant dma[..i] == image[from..from + i]
      {
        dma[i] := image[from + i];
      }
      return 0;
    }

    /** sata_block_read.  `busy` is what ahci_wait_port reports, and status(k) how the k-th
        command ends.  k counts the commands that succeeded and done their sectors. */
    method ReadBlock(lba: Word, count: nat, buf: array<Byte>, busy: bool, status: nat -> int)
      returns (err: int, k: nat, ghost done: nat)
      requires dma.Length == DMA_BYTES && buf != dma && 8 < sectorSize <= DMA_BYTES
      requires count < 0x1_0000_0000 && At(count) <= buf.Length
      requires lba + count <= Reach(lba48) && At(lba + count) <= |image|
      requires lba48 || count <= 256 || MaxSectors(sectorSize) <= 256
      modifies this`header, this`fis, this`dba, this`dbc, dma, buf
      // Exactly a prefix of the range is in the buffer, sector by sector, and no other byte changed.
      ensures done <= count && At(done) <= At(count) && At(lba) <= At(lba + done) <= |image|
      ensures buf[..At(done)] == image[At(lba)..At(lba + done)]
      ensures forall i :: At(done) <= i < buf.Length ==> buf[i] == old(buf[i])
      // The call succeeds if and only if the whole range is there; else it reports the first error,
      // without trying again.
      ensures busy ==> err == -ETIMEDOUT && done == 0
      ensures !busy ==> (forall j: nat :: j < k ==> status(j) == 0) && (err == 0 || err == status(k))
      ensures !busy ==> (err == 0 <==> done == count)
      ensures err != 0 && !busy ==> done == k * (0x8_0000 / sectorSize)
      ensures err == 0 ==> count <= k * (0x8_0000 / sectorSize) && (k > 0 ==> (k - 1) * (0x8_0000 / sectorSize) < count)
    {
      hide MaxSectors, Chunk, At, FullChunks, IsRead, Registers;
      done, k := 0, 0;
      if busy {
        Bounds(lba, count, 0);
        return -ETIMEDOUT, k, done;
      }
      var cur: Word, left: nat, at: nat := lba, count, 0;
      AtIs(0);
      Bounds(lba, count, 0);
      NextCommand(0, sectorSize);
      header := Header(FIS_WORDS, false, PRDT_ENTRIES);
      var max := MaxSectors(sectorSize);
      ChunkFits(sectorSize);
      while left > 0
        invariant done + left == count && cur == lba + done && at == At(done)
        invariant header == Header(5, false, 1) && (left > 0 ==> done == FullChunks(k, sectorSize))
        invariant count <= FullChunks(k, sectorSize) + left
        invariant k > 0 ==> FullChunks(k - 1, sectorSize) < count
        invariant forall j: nat :: j < k ==> status(j) == 0
        invariant Bounded(lba, count, done)
        invariant forall i :: 0 <= i < at ==> buf[i] == image[At(lba) + i]
        invariant forall i :: at <= i < buf.Length ==> buf[i] == old(buf[i])
      {
        Bounds(lba, count, done);
        var chunk := (if left > max then max else left) % 0x1_0000;
        ChunkIs(left, sectorSize);
        var bytes := chunk * sectorSize;
        Bounds(lba, count, done + chunk);
        AtSum(done, chunk);
        AtSum(cur, chunk);
        AtIs(chunk);
        err := ReadChunk(cur, chunk, buf, at, status(k));
        if err != 0 {
          assert buf[..at] == image[At(lba)..At(lba + done)];
          FullChunksAre(k, sectorSize);
          return;
        }
        at := at + bytes;
        cur := cur + chunk;
        left := left - chunk;
        NextCommand(k, sectorSize);
        k, done := k + 1, done + chunk;
      }
      Bounds(lba, count, done);
      assert buf[..At(done)] == image[At(lba)..At(lba + done)];
      FullChunksAre(k, sectorSize);
      if k > 0 {
        FullChunksAre(k - 1, sectorSize);
      }
      return 0, k, done;
    }

    /** One round of the loop: build the command, submit it, copy what arrived. */
    method ReadChunk(cur: Word, chunk: nat, buf: array<Byte>, at: nat, status: int) returns (err: int)
      requires dma.Length == DMA_BYTES && buf != dma && 0 < chunk < 0x1_0000 && At(chunk) <= DMA_BYTES && sectorSize > 0
      requires header == Header(5, false, 1)
      requires cur < Reach(lba48) && (lba48 || chunk <= 256) && At(cur) + At(chunk) <= |image|
        && at + At(chunk) <= buf.Length
      modifies this`fis, this`dba, this`dbc, dma, buf
      ensures err == status
      // The command is one the drive takes as a read of exactly these sectors.
      ensures IsRead(fis, lba48) && Registers(fis, lba48, cur, chunk) && dba == dmaAddress
      ensures err != 0 ==> buf[..] == old(buf[..])
      ensures err == 0 ==> forall i :: at <= i < at + At(chunk) ==> buf[i] == image[At(cur) + (i - at)]
      ensures forall i :: 0 <= i < buf.Length && !(at <= i < at + At(chunk)) ==> buf[i] == old(buf[i])
    {
      hide LbaOf, CountOf, ByteCount, Encode, Dbc, Reach, IsRead, Registers;
      var bytes := chunk * sectorSize;
      Distribute(cur, chunk, sectorSize);
      Monotone(chunk, 1, sectorSize);
      FisRoundTrip(lba48, cur, chunk);
      DbcRoundTrip(bytes);
      fis := Encode(lba48, cur, chunk);
      dba := dmaAddress;
      dbc := Dbc(bytes);
      err := Submit(status);
      if err == 0 {
        CopyChunk(buf, at, bytes, At(cur));
      }
    }

    /** Copies what was fetched out of the DMA buffer. */
    method CopyChunk(buf: array<Byte>, at: nat, bytes: nat, ghost from: nat)
      requires buf != dma && at + bytes <= buf.Length && bytes <= dma.Length && from + bytes <= |image|
      requires dma[..bytes] == image[from..from + bytes]
      modifies buf
      ensures forall i :: at <= i < at + bytes ==> buf[i] == image[from + (i - at)]
      ensures forall i :: 0 <= i < buf.Length && !(at <= i < at + bytes) ==> buf[i] == old(buf[i])
    {
      for i := 0 to bytes
        invariant forall x :: at <= x < at + i ==> buf[x] == image[from + (x - at)]
        invariant forall x :: 0 <= x < buf.Length && !(at <= x < at + i) ==> buf[x] == old(buf[x])
      {
        assert dma[i] == dma[..bytes][i];
        buf[at + i] := dma[i];
      }
    }

    /** Byte positions of a part of the range stay inside the range and the medium. */
    predicate Bounded(lba: nat, count: nat, done: nat) {
      At(done) <= At(count) && At(lba) <= At(lba + done) <= At(lba + count) && At(lba + done) == At(lba) + At(done)
    }

    lemma AtIs(n: nat)
      ensures At(n) == n * sectorSize && At(0) == 0
    {
    }

    lemma AtSum(a: nat, b: nat)
      ensures At(a + b) == At(a) + At(b)
    {
      Distribute(a, b, sectorSize);
    }

    lemma Bounds(lba: nat, count: nat, done: nat)
      requires done <= count
      ensures Bounded(lba, count, done)
    {
      Monotone(count, done, sectorSize);
      Monotone(lba + count, lba + done, sectorSize);
      Distribute(lba, done, sectorSize);
    }
  }

  lemma NextCommand(k: nat, s: nat)
    requires s > 0
    ensures FullChunks(k + 1, s) == FullChunks(k, s) + MaxSectors(s)
    ensures FullChunks(0, s) == 0
  {
    Distribute(k, 1, MaxSectors(s));
  }

  lemma FullChunksAre(k: nat, s: nat)
    requires 0 < s
    ensures FullChunks(k, s) == k * (0x8_0000 / s)
  {
  }

  lemma ChunkIs(left: nat, s: nat)
    requires s > 0
    ensures Chunk(left, s) == (if left > MaxSectors(s) then MaxSectors(s) else left) % 0x1_0000
  {
  }

  lemma Distribute(a: nat, b: nat, s: nat)
    ensures (a + b) * s == a * s + b * s
  {
  }

  lemma Monotone(a: nat, b: nat, s: nat)
    ensures b <= a ==> b * s <= a * s
  {
  }
}
