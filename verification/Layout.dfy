/**
  Machine words, the byte layout of the two on-disk records (the operation
  header and the master record), and the geometry of a journaled volume.

  A sector is its byte string. The journal reads a sector through three views,
  all of them total because the code applies them to whatever it finds on disk:
  `HeaderOf`, `MasterOf`, and the raw bytes.
 */
module Layout {

  const TWO32: int := 0x1_0000_0000

  type Word = w: int | 0 <= w < 0x1_0000_0000
  type Byte = b: int | 0 <= b < 256
  type Sector = seq<Byte>

  datatype Err =
    | Ok
    | InvalidArg
    | InvalidState
    | InvalidSize
    | InvalidCrc
    | NoMem
    | NotFound
    | Io        // the raw disk operation failed
    | Aborted   // an assert() fired

  const STORE_MARKER: Word := 0x6A6B6C6D
  const MIN_STORE_SIZE: Word := 3

  const HEADER_BYTES := 12
  const MASTER_BYTES := 28

  // esp_jrnl_trans_status_t; FS_DIRECT is an alias of FS_INIT.
  const FS_DIRECT: Word := 0
  const READY: Word := 1
  const OPEN: Word := 2
  const COMMIT: Word := 3

  /** uint32_t addition. */
  function Add32(a: Word, b: Word): (r: Word)
    ensures a + b < TWO32 ==> r == a + b
  {
    (a + b) % TWO32
  }

  /** uint32_t subtraction. */
  function Sub32(a: Word, b: Word): (r: Word)
    ensures b <= a ==> r == a - b
  {
    (a - b) % TWO32
  }

  /** uint32_t multiplication. */
  function Mul32(a: Word, b: Word): (r: Word)
    ensures 0 <= a * b < TWO32 ==> r == a * b
  {
    (a * b) % TWO32
  }

  /** uint32_t division. */
  function Div32(a: Word, b: Word): (r: Word)
    requires 0 < b
  {
    a / b
  }

  /** The little-endian word at byte offset `at`; 0 past the end of the buffer. */
  function WordAt(s: Sector, at: nat): (w: Word)
  {
    if at + 4 <= |s| then
      (s[at] as int) + 256 * (s[at + 1] as int) + 65536 * (s[at + 2] as int) + 16777216 * (s[at + 3] as int)
    else
      0
  }

  function WordBytes(w: Word): (b: seq<Byte>)
    ensures |b| == 4
  {
    [w % 256, (w / 256) % 256, (w / 65536) % 256, w / 16777216]
  }

  lemma WordRoundTrip(pre: seq<Byte>, w: Word, post: seq<Byte>)
    ensures WordAt(pre + WordBytes(w) + post, |pre|) == w
  {
    var s := pre + WordBytes(w) + post;
    assert s[|pre|] == w % 256;
    assert s[|pre| + 1] == (w / 256) % 256;
    assert s[|pre| + 2] == (w / 65536) % 256;
    assert s[|pre| + 3] == w / 16777216;
  }

  datatype OperHeader = OperHeader(target: Word, count: Word, crcData: Word)

  datatype Master = Master(
    magic: Word, storeSize: Word, offset: Word, nextFree: Word,
    status: Word, volumeSize: Word, sectorSize: Word)

  function HeaderOf(s: Sector): OperHeader
  {
    OperHeader(WordAt(s, 0), WordAt(s, 4), WordAt(s, 8))
  }

  function MasterOf(s: Sector): Master
  {
    Master(WordAt(s, 0), WordAt(s, 4), WordAt(s, 8), WordAt(s, 12), WordAt(s, 16), WordAt(s, 20), WordAt(s, 24))
  }

  function Flatten(data: seq<Sector>): seq<Byte>
  {
    if data == [] then [] else data[0] + Flatten(data[1..])
  }

  lemma {:induction false} FlattenLength(data: seq<Sector>, size: nat)
    requires forall i :: 0 <= i < |data| ==> |data[i]| == size
    ensures |Flatten(data)| == |data| * size
    decreases |data|
  {
    if data != [] {
      FlattenLength(data[1..], size);
      Distribute(1, |data| - 1, size);
    }
  }

  /** The data checksum is taken over every byte of every sector, in order. */
  lemma {:induction false} FlattenAt(data: seq<Sector>, size: nat, i: nat, k: nat)
    requires forall i :: 0 <= i < |data| ==> |data[i]| == size
    requires i < |data| && k < size
    ensures 0 <= i * size + k < |Flatten(data)| && Flatten(data)[i * size + k] == data[i][k]
    decreases |data|
  {
    if i > 0 {
      FlattenAt(data[1..], size, i - 1, k);
      Distribute(1, i - 1, size);
    }
  }

  /** The `count * size` bytes of a buffer that starts with these sectors. */
  function Buffer(data: seq<Sector>, size: nat): (b: seq<Byte>)
    requires 0 < size && forall i :: 0 <= i < |data| ==> |data[i]| == size
    ensures |b| == |data| * size
  {
    MulMono(0, |data|, size);
    seq(|data| * size, x requires 0 <= x < |data| * size => BufferAt(data, size, x))
  }

  function BufferAt(data: seq<Sector>, size: nat, x: nat): Byte
    requires 0 < size && (forall i :: 0 <= i < |data| ==> |data[i]| == size) && x < |data| * size
  {
    SplitOffset(x, |data|, size);
    data[x / size][x % size]
  }

  lemma SplitOffset(x: nat, n: nat, size: nat)
    requires 0 < size && x < n * size
    ensures 0 <= x / size < n && 0 <= x % size < size && x == (x / size) * size + x % size
  {
    if x / size >= n {
      MulMono(n, x / size, size);
    }
  }

  lemma FlattenBuffer(data: seq<Sector>, size: nat)
    requires 0 < size && forall i :: 0 <= i < |data| ==> |data[i]| == size
    ensures Flatten(data) == Buffer(data, size)
  {
    hide Flatten;
    FlattenLength(data, size);
    forall x: nat | x < |data| * size
      ensures Flatten(data)[x] == Buffer(data, size)[x]
    {
      SplitOffset(x, |data|, size);
      FlattenAt(data, size, x / size, x % size);
    }
  }

  /**
    One journaled partition: `sectors` sectors of `sectorSize` bytes, the last
    `storeSize` of which hold the journaling store. `checksum` is esp_crc32_le;
    nothing but its being a function is used.
   */
  datatype Volume = Volume(sectors: nat, sectorSize: Word, storeSize: Word, checksum: seq<Byte> -> Word) {

    function Size(): int
    {
      sectors * sectorSize
    }

    ghost predicate Sound()
    {
      && MASTER_BYTES <= sectorSize
      && Size() < TWO32
      && MIN_STORE_SIZE <= storeSize <= sectors
    }

    /** Number of file-system sectors, which is also the first store sector. */
    function FsSectors(): int
    {
      sectors - storeSize
    }

    /** The sector of the master record: the last of the volume. */
    function Last(): int
    {
      sectors - 1
    }

    function Blank(): (s: Sector)
      ensures |s| == sectorSize
    {
      seq(sectorSize, i => 0xFF)
    }

    /** A byte range made of whole sectors inside the volume. */
    predicate Aligned(addr: Word, size: Word)
      requires 0 < sectorSize
    {
      addr % sectorSize == 0 && size % sectorSize == 0 && addr + size <= Size()
    }

    function SectorOf(addr: Word): nat
      requires 0 < sectorSize
    {
      addr / sectorSize
    }

    /** The master record passes the checks mount makes before it trusts it. */
    predicate Accepts(s: Sector)
    {
      var m := MasterOf(s);
      m.magic == STORE_MARKER && m.volumeSize == Size() && m.sectorSize == sectorSize && m.storeSize == storeSize
    }

    /** A buffer of `count` sectors is too large for a 32-bit size. */
    predicate Vast(count: Word)
    {
      TWO32 <= count * sectorSize
    }

    /** The header's own checksum matches its first twelve bytes. */
    predicate HeaderOk(s: Sector)
    {
      HEADER_BYTES <= |s| && WordAt(s, 12) == checksum(s[..HEADER_BYTES])
    }
  }

  lemma BlankNotAccepted(vol: Volume)
    requires vol.Sound()
    ensures !vol.Accepts(vol.Blank())
  {
    assert WordAt(vol.Blank(), 0) == 0xFFFFFFFF;
  }

  /** x*n/n and x*n%n for a positive n. */
  lemma WholeMultiple(x: nat, n: int)
    requires 0 < n
    ensures (x * n) / n == x && (x * n) % n == 0
  {
    var q, r := (x * n) / n, (x * n) % n;
    assert (x - q) * n == r && (q - x) * n == -r;
    if x - q >= 1 {
      MulMono(1, x - q, n);
    } else if x - q <= -1 {
      MulMono(1, q - x, n);
    }
  }

  /** The byte address of a sector of the volume does not wrap. */
  lemma NoWrap(vol: Volume, sector: nat)
    requires vol.Sound() && sector <= vol.sectors
    ensures sector < TWO32 && Mul32(sector, vol.sectorSize) == sector * vol.sectorSize <= vol.Size()
  {
    MulMono(sector, vol.sectors, vol.sectorSize);
    MulBelow(sector, vol.sectorSize);
  }

  /**
    32-bit address safety: for a sector range inside the volume neither the
    address nor the length wraps, and the byte range is exactly those sectors.
   */
  lemma SectorAddress(vol: Volume, sector: nat, count: nat)
    requires vol.Sound()
    requires sector + count <= vol.sectors
    ensures sector < TWO32 && count < TWO32
    ensures vol.Aligned(Mul32(sector, vol.sectorSize), Mul32(count, vol.sectorSize))
    ensures vol.SectorOf(Mul32(sector, vol.sectorSize)) == sector
    ensures vol.SectorOf(Mul32(count, vol.sectorSize)) == count
  {
    NoWrap(vol, sector);
    NoWrap(vol, count);
    NoWrap(vol, sector + count);
    Distribute(sector, count, vol.sectorSize);
    WholeMultiple(sector, vol.sectorSize);
    WholeMultiple(count, vol.sectorSize);
  }

  /** Every range the disk accepts lies inside the volume. */
  lemma RangeInVolume(vol: Volume, addr: Word, size: Word)
    requires vol.Sound() && vol.Aligned(addr, size)
    ensures vol.SectorOf(addr) + vol.SectorOf(size) <= vol.sectors
  {
    var a, b, ss := vol.SectorOf(addr), vol.SectorOf(size), vol.sectorSize;
    assert addr == a * ss && size == b * ss;
    assert (a + b) * ss <= vol.sectors * ss;
    assert (vol.sectors + 1) * ss == vol.sectors * ss + ss;
    if a + b > vol.sectors {
      MulMono(vol.sectors + 1, a + b, ss);
    }
  }

  /** A range that leaves the volume, its length not wrapped, is refused by the disk. */
  lemma PastTheEnd(vol: Volume, sector: nat, count: Word)
    requires vol.Sound() && sector <= vol.sectors < sector + count && !vol.Vast(count)
    ensures sector < TWO32 && !vol.Aligned(Mul32(sector, vol.sectorSize), Mul32(count, vol.sectorSize))
  {
    NoWrap(vol, sector);
    MulMono(vol.sectors + 1, sector + count, vol.sectorSize);
    Distribute(vol.sectors, 1, vol.sectorSize);
    Distribute(sector, count, vol.sectorSize);
    assert 0 <= count * vol.sectorSize;
  }

  /** The three byte ranges of a log append: the record, its header, its data. */
  lemma RecordAddress(vol: Volume, first: nat, count: nat)
    requires vol.Sound() && first + 1 + count <= vol.sectors
    ensures first < TWO32 && count + 1 < TWO32
    ensures
      var addr, size := Mul32(first, vol.sectorSize), Mul32(count + 1, vol.sectorSize);
      && vol.Aligned(addr, size) && vol.SectorOf(addr) == first && vol.SectorOf(size) == count + 1
      && vol.Aligned(addr, vol.sectorSize) && vol.SectorOf(vol.sectorSize) == 1
      && vol.Aligned(Add32(addr, vol.sectorSize), Sub32(size, vol.sectorSize))
      && vol.SectorOf(Add32(addr, vol.sectorSize)) == first + 1
      && vol.SectorOf(Sub32(size, vol.sectorSize)) == count
  {
    SectorAddress(vol, first, count + 1);
    SectorAddress(vol, first, 1);
    SectorAddress(vol, first + 1, count);
    NoWrap(vol, first);
    NoWrap(vol, first + 1);
    NoWrap(vol, count);
    NoWrap(vol, count + 1);
    Distribute(first, 1, vol.sectorSize);
    Distribute(count, 1, vol.sectorSize);
    StoreBelow(vol);
  }

  /** A length in bytes, wrapped or not, never covers more than the sectors asked for. */
  lemma WrappedLength(vol: Volume, count: Word)
    requires vol.Sound()
    ensures vol.SectorOf(Mul32(count, vol.sectorSize)) <= count
  {
    var ss := vol.sectorSize;
    var q := vol.SectorOf(Mul32(count, ss));
    assert 0 <= count * ss;
    assert q * ss <= count * ss;
    assert (count + 1) * ss == count * ss + ss;
    if q > count {
      MulMono(count + 1, q, ss);
    }
  }

  /** A length that fits 32 bits covers exactly the sectors asked for. */
  lemma ExactLength(vol: Volume, count: Word)
    requires vol.Sound() && !vol.Vast(count)
    ensures vol.SectorOf(Mul32(count, vol.sectorSize)) == count
    ensures count <= TWO32 / MASTER_BYTES
  {
    WholeMultiple(count, vol.sectorSize);
    MulMono(MASTER_BYTES, vol.sectorSize, count);
    assert 0 <= count * vol.sectorSize;
  }

  lemma StoreBelow(vol: Volume)
    requires vol.Sound()
    ensures vol.storeSize <= vol.sectors <= TWO32 / MASTER_BYTES
  {
    MulMono(MASTER_BYTES, vol.sectorSize, vol.sectors);
  }

  lemma MulEqual(a: int, b: int, n: int)
    requires 0 < n && a * n == b * n
    ensures a == b
  {
    assert (a - b) * n == 0 && (b - a) * n == 0;
    if a > b {
      MulMono(1, a - b, n);
    } else if a < b {
      MulMono(1, b - a, n);
    }
  }

  /**
    The bound check of esp_jrnl_read survives wrap-around: for all 32-bit
    arguments, a range the disk accepts ends at the wrapped sum of sector and
    count, so it lies below the bound although the sum may have wrapped.
   */
  lemma WrappedRange(vol: Volume, sector: Word, count: Word)
    requires vol.Sound()
    requires Add32(sector, count) < vol.FsSectors()
    requires vol.Aligned(Mul32(sector, vol.sectorSize), Mul32(count, vol.sectorSize))
    ensures vol.SectorOf(Mul32(sector, vol.sectorSize)) + vol.SectorOf(Mul32(count, vol.sectorSize))
      == Add32(sector, count)
  {
    var ss := vol.sectorSize;
    var a, b, w := Mul32(sector, ss), Mul32(count, ss), Add32(sector, count);
    AlignedSplit(vol, a, b);
    hide Mul32, Add32, Volume.SectorOf, Volume.Aligned;
    var q := WrappedSum(sector, count, ss);
    MulMono(w, vol.sectors, ss);
    MulMono(0, w, ss);
    SmallMultiple(a + b - w * ss, q);
    Distribute(vol.SectorOf(a), vol.SectorOf(b), ss);
    MulEqual(vol.SectorOf(a) + vol.SectorOf(b), w, ss);
  }

  lemma AlignedSplit(vol: Volume, addr: Word, size: Word)
    requires vol.Sound() && vol.Aligned(addr, size)
    ensures addr == vol.SectorOf(addr) * vol.sectorSize && size == vol.SectorOf(size) * vol.sectorSize
    ensures addr + size <= vol.sectors * vol.sectorSize < TWO32
  {
  }

  /** Multiplication and addition commute with wrap-around, up to whole turns. */
  lemma WrappedSum(s: Word, c: Word, n: Word) returns (q: int)
    ensures Mul32(s, n) + Mul32(c, n) - Add32(s, c) * n == q * TWO32
  {
    var j, k, e := (s * n) / TWO32, (c * n) / TWO32, (s + c) / TWO32;
    var w := Add32(s, c);
    Distribute(s, c, n);
    Distribute(w, e * TWO32, n);
    assert s * n == j * TWO32 + Mul32(s, n);
    assert c * n == k * TWO32 + Mul32(c, n);
    assert (e * TWO32) * n == (e * n) * TWO32;
    q := e * n - j - k;
  }

  lemma Distribute(a: int, b: int, n: int)
    ensures (a + b) * n == a * n + b * n
  {
  }

  lemma SmallMultiple(x: int, q: int)
    requires -TWO32 < x < TWO32 && x == q * TWO32
    ensures x == 0
  {
  }

  lemma MulMono(a: nat, b: nat, n: nat)
    requires a <= b
    ensures a * n <= b * n
  {
    assert b * n == a * n + (b - a) * n;
  }

  lemma MulBelow(a: nat, n: int)
    requires 1 <= n
    ensures a <= a * n
  {
    assert a * n == a + a * (n - 1);
  }

  /** esp_jrnl_write's header buffer: three words, their checksum, zero padding. */
  function HeaderSector(vol: Volume, h: OperHeader): (s: Sector)
    requires vol.Sound()
    ensures |s| == vol.sectorSize
  {
    var body := WordBytes(h.target) + WordBytes(h.count) + WordBytes(h.crcData);
    body + WordBytes(vol.checksum(body)) + seq(vol.sectorSize - 16, i => 0)
  }

  lemma HeaderRoundTrip(vol: Volume, h: OperHeader)
    requires vol.Sound()
    ensures HeaderOf(HeaderSector(vol, h)) == h && vol.HeaderOk(HeaderSector(vol, h))
    ensures HeaderSector(vol, h)[..12] == WordBytes(h.target) + WordBytes(h.count) + WordBytes(h.crcData)
    ensures forall i :: 16 <= i < vol.sectorSize ==> HeaderSector(vol, h)[i] == 0
  {
    hide WordAt, WordBytes;
    var t, c, d := WordBytes(h.target), WordBytes(h.count), WordBytes(h.crcData);
    var body := t + c + d;
    var crc, pad := WordBytes(vol.checksum(body)), seq(vol.sectorSize - 16, i => 0);
    var s := HeaderSector(vol, h);
    assert s[..HEADER_BYTES] == body;
    WordFound(s, [], h.target, c + d + crc + pad);
    WordFound(s, t, h.count, d + crc + pad);
    WordFound(s, t + c, h.crcData, crc + pad);
    WordFound(s, body, vol.checksum(body), pad);
  }

  /**
    The sector written for a master record. jrnl_update_master hands the raw
    write a whole sector starting at the structure, so the bytes after it are
    whatever follows in memory: `tail`.
   */
  method EncodeMaster(vol: Volume, m: Master, tail: seq<Byte>) returns (s: Sector)
    requires vol.Sound()
    requires |tail| == vol.sectorSize - MASTER_BYTES
    ensures |s| == vol.sectorSize
    ensures MasterOf(s) == m
  {
    s := MasterBytes(m) + tail;
    MasterRoundTrip(m, tail);
  }

  function MasterBytes(m: Master): (b: seq<Byte>)
    ensures |b| == MASTER_BYTES
  {
    WordBytes(m.magic) + WordBytes(m.storeSize) + WordBytes(m.offset) + WordBytes(m.nextFree)
    + WordBytes(m.status) + WordBytes(m.volumeSize) + WordBytes(m.sectorSize)
  }

  lemma MasterRoundTrip(m: Master, tail: seq<Byte>)
    ensures MasterOf(MasterBytes(m) + tail) == m
  {
    hide WordAt, WordBytes;
    var a, b, c, d := WordBytes(m.magic), WordBytes(m.storeSize), WordBytes(m.offset), WordBytes(m.nextFree);
    var e, f, g := WordBytes(m.status), WordBytes(m.volumeSize), WordBytes(m.sectorSize);
    var s := MasterBytes(m) + tail;
    WordFound(s, [], m.magic, b + c + d + e + f + g + tail);
    WordFound(s, a, m.storeSize, c + d + e + f + g + tail);
    WordFound(s, a + b, m.offset, d + e + f + g + tail);
    WordFound(s, a + b + c, m.nextFree, e + f + g + tail);
    WordFound(s, a + b + c + d, m.status, f + g + tail);
    WordFound(s, a + b + c + d + e, m.volumeSize, g + tail);
    WordFound(s, a + b + c + d + e + f, m.sectorSize, tail);
  }

  lemma WordFound(s: Sector, pre: seq<Byte>, w: Word, post: seq<Byte>)
    requires s == pre + WordBytes(w) + post
    ensures WordAt(s, |pre|) == w
  {
    WordRoundTrip(pre, w, post);
  }

  lemma Quotient(r: nat, q: nat, n: nat)
    requires r < n
    ensures (r + n * q) / n == q && (r + n * q) % n == r
  {
    var x := r + n * q;
    var q', r' := x / n, x % n;
    assert n * q' + r' == n * q + r;
    assert (q' - q) * n == r - r' && (q - q') * n == r' - r;
    if q' - q >= 1 {
      MulMono(1, q' - q, n);
    } else if q - q' >= 1 {
      MulMono(1, q - q', n);
    }
  }

  lemma WordFormat(a: Byte, b: Byte, c: Byte, d: Byte)
    ensures WordBytes(a + 256 * b + 65536 * c + 16777216 * d) == [a, b, c, d]
  {
    Quotient(a, b + 256 * c + 65536 * d, 256);
    Quotient(a + 256 * b, c + 256 * d, 65536);
    Quotient(a + 256 * b + 65536 * c, d, 16777216);
    Quotient(b, c + 256 * d, 256);
    Quotient(c, d, 256);
  }

  /** The format on disk, byte by byte: little-endian words, marker and status values. */
  lemma RecordFormat(status: Word)
    requires status <= COMMIT
    ensures MasterBytes(Master(STORE_MARKER, 0x04030201, 0x08070605, 0x0C0B0A09, status, 0x100000, 0x1000))
      == [0x6D, 0x6C, 0x6B, 0x6A, 1, 2, 3, 4, 5, 6, 7, 8, 9, 10, 11, 12] + [status, 0, 0, 0]
         + [0, 0, 0x10, 0, 0, 0x10, 0, 0]
    ensures FS_DIRECT == 0 && READY == 1 && OPEN == 2 && COMMIT == 3
  {
    hide WordBytes;
    WordFormat(0x6D, 0x6C, 0x6B, 0x6A);
    WordFormat(1, 2, 3, 4);
    WordFormat(5, 6, 7, 8);
    WordFormat(9, 10, 11, 12);
    WordFormat(status, 0, 0, 0);
    WordFormat(0, 0, 0x10, 0);
    WordFormat(0, 0x10, 0, 0);
  }

  function Prefix(s: Sector, n: nat): Sector
  {
    if n <= |s| then s[..n] else s
  }

  /** The master record is in the bytes mount reads. */
  lemma MasterPrefix(s: Sector)
    ensures MasterOf(Prefix(s, MASTER_BYTES)) == MasterOf(s)
  {
  }

  /** The address mount reads the record from is the one later updates write. */
  lemma MasterAddress(vol: Volume)
    requires vol.Sound()
    ensures 0 <= vol.Size() < TWO32
    ensures Sub32(vol.Size(), vol.sectorSize) % vol.sectorSize == 0
    ensures Sub32(vol.Size(), vol.sectorSize) + vol.sectorSize <= vol.Size()
    ensures vol.SectorOf(Sub32(vol.Size(), vol.sectorSize)) == vol.Last()
    ensures Sub32(vol.Size(), vol.sectorSize) == Mul32(Add32(vol.FsSectors(), Sub32(vol.storeSize, 1)), vol.sectorSize)
  {
    StoreBelow(vol);
    SectorAddress(vol, vol.Last(), 1);
    NoWrap(vol, vol.Last());
    Distribute(vol.Last(), 1, vol.sectorSize);
    WholeMultiple(vol.Last(), vol.sectorSize);
  }

  /** The store starts right after the file-system sectors. */
  lemma StoreOffset(vol: Volume)
    requires vol.Sound()
    ensures 0 <= vol.Size() < TWO32
    ensures Div32(vol.Size(), vol.sectorSize) == vol.sectors
  {
    WholeMultiple(vol.sectors, vol.sectorSize);
    StoreBelow(vol);
  }

  /** `n` bytes of `s` programmed over an erased sector, the rest still erased. */
  function TornWrite(s: Sector, n: nat): Sector
    requires n <= |s|
  {
    s[..n] + seq(|s| - n, i => 0xFF)
  }

  /** `n` bytes of `s` erased, the rest still holding the old contents. */
  function TornErase(s: Sector, n: nat): Sector
    requires n <= |s|
  {
    seq(n, i => 0xFF) + s[n..]
  }

  /**
    A master write cut after any number of bytes is either rejected by mount
    or reads back as the complete record: the sector size is the last word, and
    for any volume of three sectors or more its top byte is not 0xFF.
   */
  lemma TornMasterWrite(vol: Volume, s: Sector, n: nat)
    requires vol.Sound() && n <= |s|
    ensures MasterOf(TornWrite(s, n)) == MasterOf(s) || !vol.Accepts(TornWrite(s, n))
  {
    var v := TornWrite(s, n);
    MulMono(3, vol.sectors, vol.sectorSize);
    if n < MASTER_BYTES <= |s| {
      assert v[27] == 0xFF;
      assert WordAt(v, 24) >= 255 * 16777216;
    }
  }

  /**
    What is left of a record write cut after `n` bytes: before the marker is
    complete no marker, before the record is complete a marker with a sector size
    that is not this volume's, and then the record.
   */
  lemma TornMaster(vol: Volume, m: Master, tail: seq<Byte>, n: nat)
    requires vol.Sound() && m.magic == STORE_MARKER
    requires |tail| == vol.sectorSize - MASTER_BYTES && n <= vol.sectorSize
    ensures var found := MasterOf(TornWrite(MasterBytes(m) + tail, n));
      && (found.magic == STORE_MARKER <==> 4 <= n)
      && (n < MASTER_BYTES ==> found.sectorSize != vol.sectorSize)
      && (MASTER_BYTES <= n ==> found == m)
  {
    hide MasterBytes;
    var s := MasterBytes(m) + tail;
    var v := TornWrite(s, n);
    MasterRoundTrip(m, tail);
    MulMono(3, vol.sectors, vol.sectorSize);
    if n < 4 {
      assert v[3] == 0xFF;
    }
    if n < MASTER_BYTES {
      assert v[27] == 0xFF;
    } else {
      assert v == MasterBytes(m) + (tail[..n - MASTER_BYTES] + seq(|s| - n, i => 0xFF));
      MasterRoundTrip(m, tail[..n - MASTER_BYTES] + seq(|s| - n, i => 0xFF));
    }
  }

  /** A master erase cut after the first byte leaves no marker. */
  lemma TornEraseUnmarked(s: Sector, n: nat)
    requires 1 <= n <= |s|
    ensures MasterOf(TornErase(s, n)).magic != STORE_MARKER
  {
    var v := TornErase(s, n);
    assert v[0] == 0xFF;
    assert |s| < 4 || WordAt(v, 0) % 256 == 0xFF;
  }

  /** A master erase cut after any number of bytes leaves the old record or none. */
  lemma TornMasterErase(vol: Volume, s: Sector, n: nat)
    requires vol.Sound() && n <= |s|
    ensures TornErase(s, n) == s || !vol.Accepts(TornErase(s, n))
  {
    if n == 0 {
      assert TornErase(s, n) == s;
    } else {
      TornEraseUnmarked(s, n);
    }
  }
}
