/**
  The meaning of the journaling log. `ApplyOps` says what a list of sector
  writes does to the file-system region; `Scan` says which list a run of store
  sectors encodes, for every possible contents of the disk.
 */
module Log {
  import opened Layout

  type Image = seq<Sector>

  /** One disk write: consecutive sectors starting at `target`. */
  datatype Op = Op(target: Word, data: seq<Sector>)

  // ---------------------------------------------------------------- effects

  predicate OpFits(op: Op, size: int)
  {
    0 < |op.data| && op.target + |op.data| <= size
  }

  predicate OpsFit(ops: seq<Op>, size: int)
  {
    forall j :: 0 <= j < |ops| ==> OpFits(ops[j], size)
  }

  function Overwrite(img: Image, at: nat, data: seq<Sector>): (r: Image)
    requires at + |data| <= |img|
    ensures |r| == |img|
  {
    img[..at] + data + img[at + |data|..]
  }

  function ApplyOps(fs: Image, ops: seq<Op>): (r: Image)
    requires OpsFit(ops, |fs|)
    ensures |r| == |fs|
    decreases |ops|
  {
    if ops == [] then fs else ApplyOps(Overwrite(fs, ops[0].target, ops[0].data), ops[1..])
  }

  predicate InOp(op: Op, i: int)
  {
    op.target <= i < op.target + |op.data|
  }

  /** Sector `i` is a target of some operation. */
  ghost predicate Hit(ops: seq<Op>, i: int)
  {
    exists j :: 0 <= j < |ops| && InOp(ops[j], i)
  }

  /** The images agree except, possibly, on targets of `ops`. */
  ghost predicate AgreeOff(fs: Image, fs': Image, ops: seq<Op>)
  {
    |fs| == |fs'| && forall i :: 0 <= i < |fs| && !Hit(ops, i) ==> fs[i] == fs'[i]
  }

  /**
    Replay is restartable: whatever the targets hold - old data, new data,
    erased or torn sectors - replaying the whole list gives the same region.
    Targets may overlap; the last write wins in both.
   */
  lemma {:induction false} ReplayRestarts(fs: Image, fs': Image, ops: seq<Op>)
    requires OpsFit(ops, |fs|)
    requires AgreeOff(fs, fs', ops)
    ensures ApplyOps(fs, ops) == ApplyOps(fs', ops)
    decreases |ops|
  {
    if ops == [] {
      assert forall i :: 0 <= i < |fs| ==> !Hit(ops, i);
      assert fs == fs';
    } else {
      var op, rest := ops[0], ops[1..];
      var a, b := Overwrite(fs, op.target, op.data), Overwrite(fs', op.target, op.data);
      forall i | 0 <= i < |fs| && !Hit(rest, i)
        ensures a[i] == b[i]
      {
        if !InOp(op, i) {
          HitCons(ops, i);
        }
      }
      ReplayRestarts(a, b, rest);
    }
  }

  lemma HitCons(ops: seq<Op>, i: int)
    requires ops != []
    ensures Hit(ops, i) <==> InOp(ops[0], i) || Hit(ops[1..], i)
  {
    if Hit(ops, i) && !InOp(ops[0], i) {
      var j :| 0 <= j < |ops| && InOp(ops[j], i);
      assert ops[1..][j - 1] == ops[j];
    }
    if Hit(ops[1..], i) {
      var j :| 0 <= j < |ops[1..]| && InOp(ops[1..][j], i);
      assert ops[j + 1] == ops[1..][j];
    }
  }

  lemma {:induction false} ApplyTouchesOnlyTargets(fs: Image, ops: seq<Op>)
    requires OpsFit(ops, |fs|)
    ensures AgreeOff(fs, ApplyOps(fs, ops), ops)
    decreases |ops|
  {
    if ops != [] {
      var op, rest := ops[0], ops[1..];
      var a := Overwrite(fs, op.target, op.data);
      ApplyTouchesOnlyTargets(a, rest);
      forall i | 0 <= i < |fs| && !Hit(ops, i)
        ensures fs[i] == ApplyOps(fs, ops)[i]
      {
        HitCons(ops, i);
        assert a[i] == fs[i];
      }
    }
  }

  /** Replaying twice equals replaying once. */
  lemma ReplayIdempotent(fs: Image, ops: seq<Op>)
    requires OpsFit(ops, |fs|)
    ensures ApplyOps(ApplyOps(fs, ops), ops) == ApplyOps(fs, ops)
  {
    ApplyTouchesOnlyTargets(fs, ops);
    ReplayRestarts(fs, ApplyOps(fs, ops), ops);
  }

  lemma {:induction false} ApplyAppend(fs: Image, ops: seq<Op>, more: seq<Op>)
    requires OpsFit(ops, |fs|) && OpsFit(more, |fs|)
    ensures OpsFit(ops + more, |fs|)
    ensures ApplyOps(fs, ops + more) == ApplyOps(ApplyOps(fs, ops), more)
    decreases |ops|
  {
    if ops == [] {
      assert ops + more == more;
    } else {
      assert (ops + more)[0] == ops[0] && (ops + more)[1..] == ops[1..] + more;
      ApplyAppend(Overwrite(fs, ops[0].target, ops[0].data), ops[1..], more);
    }
  }

  lemma ApplyNone(fs: Image)
    ensures ApplyOps(fs, []) == fs
  {
  }

  lemma ApplyOne(fs: Image, op: Op)
    requires OpFits(op, |fs|)
    ensures ApplyOps(fs, [op]) == Overwrite(fs, op.target, op.data)
  {
    assert [op][1..] == [];
  }

  lemma HitAppend(ops: seq<Op>, more: seq<Op>, i: int)
    ensures Hit(ops + more, i) <==> Hit(ops, i) || Hit(more, i)
  {
    if Hit(ops, i) {
      var j :| 0 <= j < |ops| && InOp(ops[j], i);
      assert (ops + more)[j] == ops[j];
    }
    if Hit(more, i) {
      var j :| 0 <= j < |more| && InOp(more[j], i);
      assert (ops + more)[|ops| + j] == more[j];
    }
  }

  // ---------------------------------------------------------------- encoding

  /** Store sectors taken by one operation, and by a list: header plus data. */
  function OpSize(op: Op): nat
  {
    1 + |op.data|
  }

  function LogSize(ops: seq<Op>): nat
  {
    if ops == [] then 0 else OpSize(ops[0]) + LogSize(ops[1..])
  }

  lemma {:induction false} LogSizeAppend(ops: seq<Op>, more: seq<Op>)
    ensures LogSize(ops + more) == LogSize(ops) + LogSize(more)
    decreases |ops|
  {
    if ops == [] {
      assert ops + more == more;
    } else {
      assert (ops + more)[0] == ops[0] && (ops + more)[1..] == ops[1..] + more;
      LogSizeAppend(ops[1..], more);
    }
  }

  /**
    What the replay walk meets between two store sectors: a list of intact
    operations that fills the range exactly (`Clean`); intact operations and then
    a record the walk refuses with `err` (`Corrupt`); or intact operations and
    then a record that passes both checksums although it is empty or its ranges
    leave the file system or the log (`Wild`), which esp_jrnl_write never produces
    for targets inside the file system.
   */
  datatype LogScan = Clean(ops: seq<Op>) | Corrupt(ops: seq<Op>, err: Err) | Wild(ops: seq<Op>) {
    function After(op: Op): LogScan
    {
      this.(ops := [op] + ops)
    }

    function AfterAll(done: seq<Op>): LogScan
    {
      this.(ops := done + ops)
    }

    /** What the walk reports when nothing fails below. */
    function Verdict(): Err
      requires !Wild?
    {
      if Clean? then Ok else err
    }
  }

  datatype Record = Intact(op: Op) | Refused(err: Err) | Stray(target: Word, data: seq<Sector>)

  /**
    One iteration of the walk, at store sector `at` of a log ending at `end`. The
    checks come in the order of the source; whatever passes both checksums and
    is still no operation of this log is `Stray`.
   */
  function RecordOf(vol: Volume, img: Image, at: nat, end: nat): (r: Record)
    requires vol.Sound() && |img| == vol.sectors
    ensures r.Intact? ==> OpFits(r.op, vol.FsSectors()) && at + OpSize(r.op) <= end && at + OpSize(r.op) < vol.storeSize
    ensures r.Refused? ==> r.err in {InvalidArg, InvalidSize, InvalidCrc, NoMem}
    ensures r.Stray? ==> at + 1 + |r.data| <= vol.storeSize
  {
    var base := vol.FsSectors();
    if vol.storeSize <= at then
      Refused(InvalidArg)
    else if !vol.HeaderOk(img[base + at]) then
      Refused(InvalidCrc)
    else
      var h := HeaderOf(img[base + at]);
      var next := at + 1 + h.count;
      if vol.Vast(h.count) then
        Refused(NoMem)
      else if vol.storeSize <= at + 1 then
        Refused(InvalidArg)
      else if vol.storeSize < next then
        Refused(InvalidSize)
      else
        var data := img[base + at + 1..base + next];
        if vol.checksum(Flatten(data)) != h.crcData then
          Refused(InvalidCrc)
        else if h.count == 0 || end < next || vol.storeSize == next || base < h.target + h.count then
          Stray(h.target, data)
        else
          Intact(Op(h.target, data))
  }

  function Scan(vol: Volume, img: Image, at: nat, end: nat): (r: LogScan)
    requires vol.Sound() && |img| == vol.sectors
    ensures OpsFit(r.ops, vol.FsSectors())
    ensures r.Clean? && at <= end ==> LogSize(r.ops) == end - at
    ensures r.Corrupt? ==> r.err != Ok
    decreases if at < end then end - at else 0
  {
    if at >= end then
      Clean([])
    else
      match RecordOf(vol, img, at, end)
      case Refused(err) => Corrupt([], err)
      case Stray(_, _) => Wild([])
      case Intact(op) =>
        var r := Scan(vol, img, at + OpSize(op), end);
        assert ([op] + r.ops)[1..] == r.ops;
        r.After(op)
  }

  /** One step of the scan, for proofs that keep its definition folded. */
  lemma ScanStep(vol: Volume, img: Image, at: nat, end: nat)
    requires vol.Sound() && |img| == vol.sectors && at < end
    ensures Scan(vol, img, at, end) ==
      match RecordOf(vol, img, at, end)
      case Refused(err) => Corrupt([], err)
      case Stray(_, _) => Wild([])
      case Intact(op) => Scan(vol, img, at + OpSize(op), end).After(op)
  {
    hide RecordOf;
  }

  lemma ScanEnd(vol: Volume, img: Image, end: nat)
    requires vol.Sound() && |img| == vol.sectors
    ensures Scan(vol, img, end, end) == Clean([])
  {
  }

  /** The record at `at` can be read and passes both checksums, whatever its ranges. */
  predicate Checked(vol: Volume, img: Image, at: nat)
    requires vol.Sound() && |img| == vol.sectors
  {
    && at + 1 < vol.storeSize
    && vol.HeaderOk(img[vol.FsSectors() + at])
    && var h, first := HeaderOf(img[vol.FsSectors() + at]), vol.FsSectors() + at + 1;
    && !vol.Vast(h.count) && first + h.count <= vol.sectors
    && vol.checksum(Flatten(img[first..first + h.count])) == h.crcData
  }

  /** A record is refused exactly when it is unreadable or fails a checksum. */
  lemma RefusedExactly(vol: Volume, img: Image, at: nat, end: nat)
    requires vol.Sound() && |img| == vol.sectors
    ensures RecordOf(vol, img, at, end).Refused? <==> !Checked(vol, img, at)
  {
    hide Volume.HeaderOk, Volume.Vast, WordAt, Flatten;
    var base := vol.FsSectors();
    if at < vol.storeSize {
      var h := HeaderOf(img[base + at]);
      assert base + at + 1 + h.count == base + (at + 1 + h.count);
    }
  }

  /** The walk stops behind the operations it decoded, refusing exactly a record that is not `Checked`. */
  lemma {:induction false} ScanStop(vol: Volume, img: Image, at: nat, end: nat)
    requires vol.Sound() && |img| == vol.sectors && at <= end
    ensures var r := Scan(vol, img, at, end); !r.Clean? ==>
      var k := at + LogSize(r.ops);
      k < end && (r.Corrupt? <==> !Checked(vol, img, k))
    decreases end - at
  {
    hide RecordOf, Checked, Scan;
    if at == end {
      ScanEnd(vol, img, end);
    } else {
      RefusedExactly(vol, img, at, end);
      ScanStep(vol, img, at, end);
      var r := RecordOf(vol, img, at, end);
      if r.Intact? {
        var next := at + OpSize(r.op);
        ScanStop(vol, img, next, end);
        assert ([r.op] + Scan(vol, img, next, end).ops)[1..] == Scan(vol, img, next, end).ops;
      }
    }
  }

  /** An image a disk can hold: every sector has the sector size. */
  ghost predicate Shaped(vol: Volume, img: Image)
  {
    |img| == vol.sectors && forall i :: 0 <= i < |img| ==> |img[i]| == vol.sectorSize
  }

  /**
    Corruption is found wherever it is: a readable record with a good header is
    refused, and with InvalidCrc, exactly when the checksum of the whole of its
    data, all `count * sectorSize` bytes of it, is not the one in the header.
   */
  lemma DataChecked(vol: Volume, img: Image, at: nat, end: nat)
    requires vol.Sound() && Shaped(vol, img) && at + 1 < vol.storeSize
    requires vol.HeaderOk(img[vol.FsSectors() + at])
    requires var count := HeaderOf(img[vol.FsSectors() + at]).count;
      !vol.Vast(count) && at + 1 + count <= vol.storeSize
    ensures
      var h, first := HeaderOf(img[vol.FsSectors() + at]), vol.FsSectors() + at + 1;
      var bytes := Buffer(img[first..first + h.count], vol.sectorSize);
      && (vol.checksum(bytes) != h.crcData ==> RecordOf(vol, img, at, end) == Refused(InvalidCrc))
      && (vol.checksum(bytes) == h.crcData ==> !RecordOf(vol, img, at, end).Refused?)
  {
    hide Volume.HeaderOk, Volume.Vast, WordAt, Flatten, Buffer;
    var h, base := HeaderOf(img[vol.FsSectors() + at]), vol.FsSectors();
    assert base + at + 1 + h.count == base + (at + 1 + h.count);
    FlattenBuffer(img[base + at + 1..base + at + 1 + h.count], vol.sectorSize);
  }

  /** An iteration reads store sectors only, from `at` on. */
  lemma RecordFrame(vol: Volume, img: Image, img': Image, at: nat, end: nat)
    requires vol.Sound() && |img| == |img'| == vol.sectors
    requires forall k :: vol.FsSectors() + at <= k < vol.sectors ==> img[k] == img'[k]
    ensures RecordOf(vol, img, at, end) == RecordOf(vol, img', at, end)
  {
    var base := vol.FsSectors();
    if at < vol.storeSize {
      var next := at + 1 + HeaderOf(img[base + at]).count;
      if next <= vol.storeSize {
        assert img[base + at + 1..base + next] == img'[base + at + 1..base + next];
      }
    }
  }

  /** An intact record is read from sectors of its log alone. */
  lemma IntactFrame(vol: Volume, img: Image, img': Image, at: nat, end: nat)
    requires vol.Sound() && |img| == |img'| == vol.sectors
    requires RecordOf(vol, img, at, end).Intact?
    requires forall k :: vol.FsSectors() + at <= k < vol.FsSectors() + end && k < vol.sectors ==> img[k] == img'[k]
    ensures RecordOf(vol, img', at, end) == RecordOf(vol, img, at, end)
  {
    var first := vol.FsSectors() + at + 1;
    var n := HeaderOf(img[first - 1]).count;
    assert img[first..first + n] == img'[first..first + n];
  }

  /** A clean log is decoded from its own sectors alone. */
  lemma {:induction false} ScanFrame(vol: Volume, img: Image, img': Image, at: nat, end: nat)
    requires vol.Sound() && |img| == |img'| == vol.sectors
    requires Scan(vol, img, at, end).Clean?
    requires forall k :: vol.FsSectors() + at <= k < vol.FsSectors() + end && k < vol.sectors ==> img[k] == img'[k]
    ensures Scan(vol, img', at, end) == Scan(vol, img, at, end)
    decreases if at < end then end - at else 0
  {
    hide RecordOf;
    if at < end {
      IntactFrame(vol, img, img', at, end);
      ScanFrame(vol, img, img', at + OpSize(RecordOf(vol, img, at, end).op), end);
    }
  }

  // ------------------------------------------------------- the walk on any image

  /** The sector that raw operations on `target` reach: the address may wrap. */
  function Landing(vol: Volume, target: Word): nat
    requires vol.Sound()
  {
    vol.SectorOf(Mul32(target, vol.sectorSize))
  }

  /** The disk accepts raw operations on `count` sectors from `target` on. */
  predicate Lands(vol: Volume, target: Word, count: nat)
    requires vol.Sound() && count <= vol.sectors
    ensures Lands(vol, target, count) ==> Landing(vol, target) + count <= vol.sectors
  {
    NoWrap(vol, count);
    SectorAddress(vol, 0, count);
    var addr, size := Mul32(target, vol.sectorSize), Mul32(count, vol.sectorSize);
    assert vol.Aligned(addr, size) ==> vol.SectorOf(addr) + vol.SectorOf(size) <= vol.sectors by {
      if vol.Aligned(addr, size) {
        RangeInVolume(vol, addr, size);
      }
    }
    vol.Aligned(addr, size)
  }

  datatype Outcome = Outcome(img: Image, err: Err)

  /**
    What the walk does to any image when nothing fails: also a stray record is
    copied to wherever its target lands, be it the log that is being walked.
   */
  function Redone(vol: Volume, img: Image, at: nat, end: nat): (r: Outcome)
    requires vol.Sound() && |img| == vol.sectors
    ensures |r.img| == vol.sectors
    decreases if at < end then end - at else 0
  {
    if at >= end then
      Outcome(img, Ok)
    else
      match RecordOf(vol, img, at, end)
      case Refused(err) => Outcome(img, err)
      case Intact(op) => Redone(vol, Overwrite(img, op.target, op.data), at + OpSize(op), end)
      case Stray(target, data) =>
        if Lands(vol, target, |data|) then
          Redone(vol, Overwrite(img, Landing(vol, target), data), at + 1 + |data|, end)
        else
          Outcome(img, InvalidSize)
  }

  /** One step of the walk, for proofs that keep its definition folded. */
  lemma RedoneStep(vol: Volume, img: Image, at: nat, end: nat)
    requires vol.Sound() && |img| == vol.sectors && at < end
    ensures Redone(vol, img, at, end) ==
      match RecordOf(vol, img, at, end)
      case Refused(err) => Outcome(img, err)
      case Intact(op) => Redone(vol, Overwrite(img, op.target, op.data), at + OpSize(op), end)
      case Stray(target, data) =>
        if Lands(vol, target, |data|) then
          Redone(vol, Overwrite(img, Landing(vol, target), data), at + 1 + |data|, end)
        else
          Outcome(img, InvalidSize)
  {
    hide RecordOf, Lands, Landing, Overwrite;
  }

  lemma RedoneEnd(vol: Volume, img: Image, at: nat, end: nat)
    requires vol.Sound() && |img| == vol.sectors && end <= at
    ensures Redone(vol, img, at, end) == Outcome(img, Ok)
  {
  }

  /** The scan does not see what lies below the store. */
  lemma {:induction false} ScanStore(vol: Volume, img: Image, img': Image, at: nat, end: nat)
    requires vol.Sound() && |img| == |img'| == vol.sectors
    requires forall k :: vol.FsSectors() <= k < vol.sectors ==> img[k] == img'[k]
    ensures Scan(vol, img', at, end) == Scan(vol, img, at, end)
    decreases if at < end then end - at else 0
  {
    hide RecordOf, Scan;
    if at < end {
      RecordFrame(vol, img, img', at, end);
      ScanStep(vol, img, at, end);
      ScanStep(vol, img', at, end);
      var r := RecordOf(vol, img, at, end);
      if r.Intact? {
        ScanStore(vol, img, img', at + OpSize(r.op), end);
      }
    } else {
      ScanBeyond(vol, img, at, end);
      ScanBeyond(vol, img', at, end);
    }
  }

  lemma ScanBeyond(vol: Volume, img: Image, at: nat, end: nat)
    requires vol.Sound() && |img| == vol.sectors && end <= at
    ensures Scan(vol, img, at, end) == Clean([])
  {
  }

  /**
    Two views of one walk. On every image it starts by applying the operations
    the scan decoded, in order; from there a clean log is done, a corrupt one
    stops with its error, and a wild one goes on with the stray record.
   */
  lemma {:induction false} RedoneScan(vol: Volume, img: Image, at: nat, end: nat)
    requires vol.Sound() && |img| == vol.sectors && at <= end
    ensures
      var scan := Scan(vol, img, at, end);
      var mid := ApplyOps(img[..vol.FsSectors()], scan.ops) + img[vol.FsSectors()..];
      var k := at + LogSize(scan.ops);
      Redone(vol, img, at, end) == if scan.Wild? then Redone(vol, mid, k, end) else Outcome(mid, scan.Verdict())
    decreases end - at
  {
    hide RecordOf, Scan, Redone, Overwrite, Lands, Landing;
    var base, scan := vol.FsSectors(), Scan(vol, img, at, end);
    assert img[..base] + img[base..] == img;
    if at == end {
      ScanEnd(vol, img, end);
      RedoneEnd(vol, img, at, end);
      ApplyNone(img[..base]);
    } else {
      ScanStep(vol, img, at, end);
      RedoneStep(vol, img, at, end);
      var r := RecordOf(vol, img, at, end);
      if r.Intact? {
        var op, next := r.op, at + OpSize(r.op);
        var img' := Overwrite(img, op.target, op.data);
        var rest := Scan(vol, img, next, end);
        OverwriteBelow(img, op, base);
        ScanStore(vol, img, img', next, end);
        RedoneScan(vol, img', next, end);
        assert ([op] + rest.ops)[1..] == rest.ops;
        ApplyCons(img[..base], op, rest.ops);
        LogSizeCons(op, rest.ops);
      } else {
        ApplyNone(img[..base]);
      }
    }
  }

  lemma OverwriteBelow(img: Image, op: Op, base: nat)
    requires base <= |img| && OpFits(op, base)
    ensures Overwrite(img, op.target, op.data)[..base] == Overwrite(img[..base], op.target, op.data)
    ensures Overwrite(img, op.target, op.data)[base..] == img[base..]
    ensures forall k :: base <= k < |img| ==> Overwrite(img, op.target, op.data)[k] == img[k]
  {
  }

  lemma ApplyCons(fs: Image, op: Op, ops: seq<Op>)
    requires OpFits(op, |fs|) && OpsFit(ops, |fs|)
    ensures OpsFit([op] + ops, |fs|)
    ensures ApplyOps(fs, [op] + ops) == ApplyOps(Overwrite(fs, op.target, op.data), ops)
  {
    assert ([op] + ops)[0] == op && ([op] + ops)[1..] == ops;
  }

  lemma LogSizeCons(op: Op, ops: seq<Op>)
    ensures LogSize([op] + ops) == OpSize(op) + LogSize(ops)
  {
    assert ([op] + ops)[0] == op && ([op] + ops)[1..] == ops;
  }

  // ------------------------------------------------------- appending

  /** Store sectors [at, at + OpSize(op)) hold an intact record of `op`. */
  ghost predicate RecordAt(vol: Volume, img: Image, at: nat, op: Op)
    requires vol.Sound() && |img| == vol.sectors
  {
    RecordOf(vol, img, at, at + OpSize(op)) == Intact(op)
  }

  /** A header sector followed by its data is an intact record. */
  lemma RecordWritten(vol: Volume, img: Image, at: nat, op: Op)
    requires vol.Sound() && |img| == vol.sectors
    requires OpFits(op, vol.FsSectors()) && at + OpSize(op) < vol.storeSize
    requires vol.HeaderOk(img[vol.FsSectors() + at])
    requires |op.data| < TWO32
    requires HeaderOf(img[vol.FsSectors() + at]) == OperHeader(op.target, |op.data|, vol.checksum(Flatten(op.data)))
    requires
      var first := vol.FsSectors() + at + 1;
      forall i :: first <= i < first + |op.data| ==> img[i] == op.data[i - first]
    ensures RecordAt(vol, img, at, op)
  {
    var base := vol.FsSectors();
    assert img[base + at + 1..base + at + OpSize(op)] == op.data;
    NoWrap(vol, |op.data|);
  }

  lemma RecordExtends(vol: Volume, img: Image, at: nat, end: nat, end': nat)
    requires vol.Sound() && |img| == vol.sectors
    requires end <= end' && RecordOf(vol, img, at, end).Intact?
    ensures RecordOf(vol, img, at, end') == RecordOf(vol, img, at, end)
  {
  }

  /** Log round trip, one step: a record appended to a clean log is read back last. */
  lemma {:induction false} ScanAppend(vol: Volume, img: Image, at: nat, end: nat, op: Op)
    requires vol.Sound() && |img| == vol.sectors
    requires at <= end && Scan(vol, img, at, end).Clean?
    requires RecordAt(vol, img, end, op)
    ensures Scan(vol, img, at, end + OpSize(op)) == Clean(Scan(vol, img, at, end).ops + [op])
    decreases end - at
  {
    hide RecordOf, Scan;
    if at == end {
      ScanStep(vol, img, end, end + OpSize(op));
      ScanEnd(vol, img, end);
      ScanEnd(vol, img, end + OpSize(op));
    } else {
      ScanStep(vol, img, at, end);
      ScanStep(vol, img, at, end + OpSize(op));
      var o := RecordOf(vol, img, at, end).op;
      RecordExtends(vol, img, at, end, end + OpSize(op));
      ScanAppend(vol, img, at + OpSize(o), end, op);
      var r := Scan(vol, img, at + OpSize(o), end).ops;
      assert [o] + (r + [op]) == ([o] + r) + [op];
    }
  }
}
