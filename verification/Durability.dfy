/**
  What a disk image is worth after a power loss. `Durable` is the file system a
  default mount will deliver; the lemmas say how the three kinds of disk update
  the journal makes - master record, log append, replay - move it.
 */
module Durability {
  import opened Layout
  import opened Log

  function Fs(vol: Volume, img: Image): Image
    requires vol.Sound() && |img| == vol.sectors
  {
    img[..vol.FsSectors()]
  }

  /** A record whose fields this component wrote for this volume. */
  predicate Genuine(vol: Volume, m: Master)
  {
    m.offset == vol.FsSectors() && m.nextFree + 2 <= vol.storeSize && m.status <= COMMIT
  }

  /** The record of this volume with that status and log end: what an instance keeps in memory. */
  function RecordFor(vol: Volume, status: Word, nextFree: Word): (m: Master)
    requires vol.Sound()
    ensures m.offset == vol.FsSectors()
  {
    StoreBelow(vol);
    Master(STORE_MARKER, vol.storeSize, vol.FsSectors(), nextFree, status, vol.Size(), vol.sectorSize)
  }

  /** Mount will find a committed transaction. */
  predicate Committed(vol: Volume, img: Image)
    requires vol.Sound() && |img| == vol.sectors
  {
    vol.Accepts(img[vol.Last()]) && MasterOf(img[vol.Last()]).status == COMMIT
  }

  /** The operations mount will redo. */
  function Pending(vol: Volume, img: Image): (ops: seq<Op>)
    requires vol.Sound() && |img| == vol.sectors
    ensures OpsFit(ops, vol.FsSectors())
  {
    if Committed(vol, img) then Scan(vol, img, 0, MasterOf(img[vol.Last()]).nextFree).ops else []
  }

  /** The file system that survives if the power fails now. */
  function Durable(vol: Volume, img: Image): (fs: Image)
    requires vol.Sound() && |img| == vol.sectors
    ensures |fs| == vol.FsSectors()
  {
    ApplyOps(Fs(vol, img), Pending(vol, img))
  }

  /** A recognisable record was written here, and a committed log is intact. */
  ghost predicate Recoverable(vol: Volume, img: Image)
    requires vol.Sound()
  {
    && |img| == vol.sectors
    && var s := img[vol.Last()];
    vol.Accepts(s) ==>
      && Genuine(vol, MasterOf(s))
      && (MasterOf(s).status == COMMIT ==> Scan(vol, img, 0, MasterOf(s).nextFree).Clean?)
  }

  /** Nothing is left to redo: the region already is what survives. */
  ghost predicate Settled(vol: Volume, img: Image)
    requires vol.Sound()
  {
    Recoverable(vol, img) && Durable(vol, img) == Fs(vol, img)
  }

  /** `after` differs from `before` at most in sectors [from, to). */
  ghost predicate SameOff(before: Image, after: Image, from: int, to: int)
  {
    |before| == |after| && forall i :: 0 <= i < |before| && !(from <= i < to) ==> after[i] == before[i]
  }

  /** The log sectors, all of them, are as before. */
  ghost predicate SameLog(vol: Volume, before: Image, after: Image)
    requires vol.Sound()
  {
    |before| == |after| == vol.sectors
    && forall i :: vol.FsSectors() <= i < vol.Last() ==> after[i] == before[i]
  }

  /**
    An update of the master record to `m` that may not have completed: the last
    sector is as before, or reads as `m`, or is not recognised by mount.
   */
  ghost predicate MasterStep(vol: Volume, before: Image, after: Image, m: Master)
    requires vol.Sound()
  {
    && |before| == vol.sectors
    && SameOff(before, after, vol.Last(), vol.sectors)
    && var s := after[vol.Last()];
    s == before[vol.Last()] || MasterOf(s) == m || !vol.Accepts(s)
  }

  /** esp_jrnl_read lets the range through, and the disk accepts it. */
  predicate Readable(vol: Volume, sector: Word, count: Word)
    requires vol.Sound()
  {
    && Add32(sector, count) < vol.FsSectors()
    && vol.Aligned(Mul32(sector, vol.sectorSize), Mul32(count, vol.sectorSize))
  }

  /** The sectors an accepted read returns: up to the wrapped sum, as many as its length covers. */
  function Window(vol: Volume, fs: Image, sector: Word, count: Word): (data: seq<Sector>)
    requires vol.Sound() && Readable(vol, sector, count) && |fs| == vol.FsSectors()
    ensures |data| == vol.SectorOf(Mul32(count, vol.sectorSize)) <= Add32(sector, count)
    ensures data == fs[Add32(sector, count) - |data|..Add32(sector, count)]
  {
    WrappedRange(vol, sector, count);
    fs[vol.SectorOf(Mul32(sector, vol.sectorSize))..Add32(sector, count)]
  }

  /** Without wrap-around those are the sectors asked for. */
  lemma WindowExact(vol: Volume, fs: Image, sector: Word, count: Word)
    requires vol.Sound() && sector + count < vol.FsSectors() == |fs|
    ensures Readable(vol, sector, count) && Window(vol, fs, sector, count) == fs[sector..sector + count]
  {
    StoreBelow(vol);
    SectorAddress(vol, sector, count);
  }

  lemma FsSlice(vol: Volume, img: Image, from: nat, to: nat)
    requires vol.Sound() && |img| == vol.sectors && from <= to <= vol.FsSectors()
    ensures Fs(vol, img)[from..to] == img[from..to]
  {
  }

  lemma ReflexiveAgree(fs: Image, ops: seq<Op>)
    ensures AgreeOff(fs, fs, ops)
  {
  }

  lemma NothingPending(vol: Volume, img: Image)
    requires vol.Sound() && |img| == vol.sectors
    requires Pending(vol, img) == []
    ensures Durable(vol, img) == Fs(vol, img)
  {
  }

  /** An erase and a program over the same sectors. */
  lemma UpdateDone(before: Image, mid: Image, after: Image, at: nat, data: seq<Sector>)
    requires at + |data| <= |before|
    requires SameOff(before, mid, at, at + |data|) && SameOff(mid, after, at, at + |data|)
    requires forall i :: at <= i < at + |data| ==> after[i] == data[i - at]
    ensures after == Overwrite(before, at, data)
  {
    forall i | 0 <= i < |before|
      ensures after[i] == Overwrite(before, at, data)[i]
    {
      if at <= i < at + |data| {
        assert after[i] == data[i - at];
      } else {
        assert after[i] == mid[i] == before[i];
      }
    }
  }

  lemma SameFs(vol: Volume, before: Image, after: Image, from: int, to: int)
    requires vol.Sound() && |before| == vol.sectors
    requires SameOff(before, after, from, to) && vol.FsSectors() <= from
    ensures Fs(vol, after) == Fs(vol, before)
  {
  }

  /** Writes outside the log leave a clean log as it was. */
  lemma SameScan(vol: Volume, before: Image, after: Image, from: int, to: int, at: nat, end: nat)
    requires vol.Sound() && |before| == vol.sectors
    requires SameOff(before, after, from, to)
    requires to <= vol.FsSectors() || vol.FsSectors() + end <= from
    requires Scan(vol, before, at, end).Clean?
    ensures Scan(vol, after, at, end) == Scan(vol, before, at, end)
  {
    ScanFrame(vol, before, after, at, end);
  }

  /**
    An update of the master, complete or not. The pending operations are those
    of before, or none, or - only when `m` is a commit mark - the log `m` names.
   */
  lemma MasterStepPending(vol: Volume, before: Image, after: Image, m: Master)
    requires vol.Sound() && Recoverable(vol, before)
    requires MasterStep(vol, before, after, m) && Genuine(vol, m)
    requires m.status == COMMIT ==> Scan(vol, before, 0, m.nextFree).Clean?
    ensures Recoverable(vol, after)
    ensures Fs(vol, after) == Fs(vol, before)
    ensures Scan(vol, before, 0, m.nextFree).Clean? ==>
      Scan(vol, after, 0, m.nextFree) == Scan(vol, before, 0, m.nextFree)
    ensures
      || Pending(vol, after) == Pending(vol, before)
      || Pending(vol, after) == []
      || (m.status == COMMIT && Pending(vol, after) == Scan(vol, before, 0, m.nextFree).ops)
  {
    hide RecordOf, Scan, MasterOf, Volume.Accepts;
    SameFs(vol, before, after, vol.Last(), vol.sectors);
    if Scan(vol, before, 0, m.nextFree).Clean? {
      SameScan(vol, before, after, vol.Last(), vol.sectors, 0, m.nextFree);
    }
    var s := after[vol.Last()];
    if vol.Accepts(s) && MasterOf(s).status == COMMIT && s == before[vol.Last()] {
      SameScan(vol, before, after, vol.Last(), vol.sectors, 0, MasterOf(s).nextFree);
    }
  }

  /** A settled volume stays settled under any update that is not a commit mark. */
  lemma MasterStepSettled(vol: Volume, before: Image, after: Image, m: Master)
    requires vol.Sound() && Settled(vol, before)
    requires MasterStep(vol, before, after, m) && Genuine(vol, m) && m.status != COMMIT
    ensures Settled(vol, after) && Fs(vol, after) == Fs(vol, before)
  {
    hide RecordOf, Scan, MasterOf, Volume.Accepts;
    MasterStepPending(vol, before, after, m);
  }

  /** While nothing is committed, the log may be rewritten at will. */
  lemma LogWriteSettled(vol: Volume, before: Image, after: Image)
    requires vol.Sound() && Recoverable(vol, before) && !Committed(vol, before)
    requires SameOff(before, after, vol.FsSectors(), vol.Last())
    ensures Recoverable(vol, after) && !Committed(vol, after)
    ensures Settled(vol, after) && Fs(vol, after) == Fs(vol, before)
  {
    hide RecordOf, Scan, MasterOf, Volume.Accepts;
    SameFs(vol, before, after, vol.FsSectors(), vol.Last());
  }

  /**
    Crash safety of replay: once the commit mark is on disk, any damage to the
    targets of the logged operations changes nothing about what survives.
   */
  lemma ReplayKeepsDurable(vol: Volume, before: Image, after: Image)
    requires vol.Sound() && Recoverable(vol, before) && Committed(vol, before)
    requires SameOff(before, after, 0, vol.FsSectors())
    requires AgreeOff(Fs(vol, before), Fs(vol, after), Pending(vol, before))
    ensures Recoverable(vol, after) && Committed(vol, after)
    ensures Pending(vol, after) == Pending(vol, before)
    ensures Durable(vol, after) == Durable(vol, before)
  {
    hide RecordOf, Scan, MasterOf, Volume.Accepts;
    SameScan(vol, before, after, 0, vol.FsSectors(), 0, MasterOf(before[vol.Last()]).nextFree);
    ReplayRestarts(Fs(vol, before), Fs(vol, after), Pending(vol, before));
  }

  /**
    A log append, complete or not, while nothing is committed: an intact record
    (or none) past `end`, then a master update that is not a commit mark.
   */
  lemma AppendSettled(vol: Volume, before: Image, mid: Image, after: Image, end: nat, m: Master)
    requires vol.Sound() && Recoverable(vol, before) && !Committed(vol, before)
    requires SameOff(before, mid, vol.FsSectors() + end, vol.Last())
    requires MasterStep(vol, mid, after, m) && Genuine(vol, m) && m.status != COMMIT
    ensures Settled(vol, after) && !Committed(vol, after) && Fs(vol, after) == Fs(vol, before)
  {
    hide RecordOf, Scan, MasterOf, Volume.Accepts, ApplyOps;
    LogWriteSettled(vol, before, mid);
    MasterStepSettled(vol, mid, after, m);
  }

  /** The log after an append: the old operations, then the new one. */
  lemma AppendScan(vol: Volume, before: Image, mid: Image, after: Image, end: nat, op: Op)
    requires vol.Sound() && |before| == vol.sectors
    requires Scan(vol, before, 0, end).Clean?
    requires SameOff(before, mid, vol.FsSectors() + end, vol.Last())
    requires RecordAt(vol, mid, end, op)
    requires SameOff(mid, after, vol.Last(), vol.sectors)
    ensures Scan(vol, after, 0, end + OpSize(op)) == Clean(Scan(vol, before, 0, end).ops + [op])
  {
    hide RecordOf, Scan;
    SameScan(vol, before, mid, vol.FsSectors() + end, vol.Last(), 0, end);
    ScanAppend(vol, mid, 0, end, op);
    assert end + OpSize(op) < vol.storeSize by {
      assert RecordOf(vol, mid, end, end + OpSize(op)) == Intact(op);
    }
    SameScan(vol, mid, after, vol.Last(), vol.sectors, 0, end + OpSize(op));
  }
}
