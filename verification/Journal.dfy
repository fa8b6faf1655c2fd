/**
  srcs/esp_jrnl.c: one journal instance and its API. `master` is the in-memory
  master record; everything else lives on the host's disk.
 */
module JournalInstance {
  import opened Layout
  import opened Log
  import opened Durability
  import opened HostDevice
  import opened Redo

  /** The guard of esp_jrnl_write: room for the record, the master kept apart. */
  predicate Room(vol: Volume, used: nat, op: Op)
  {
    used + OpSize(op) + 2 <= vol.storeSize
  }

  /** Only the `size` store sectors from `end` on, and the master, may differ. */
  ghost predicate AppendOnly(vol: Volume, before: Image, after: Image, end: nat, size: nat)
    requires vol.Sound()
  {
    && |before| == |after| == vol.sectors
    && forall i :: 0 <= i < vol.Last() && !(vol.FsSectors() + end <= i < vol.FsSectors() + end + size) ==>
         after[i] == before[i]
  }

  /** The address arithmetic of an iteration that copies a record. */
  lemma RecordAddresses(vol: Volume, r: Record)
    requires vol.Sound()
    requires r.Intact? ==> OpFits(r.op, vol.FsSectors())
    requires r.Stray? ==> |r.data| <= vol.sectors
    ensures r.Intact? ==>
      && |r.op.data| < TWO32
      && vol.Aligned(Mul32(r.op.target, vol.sectorSize), Mul32(|r.op.data|, vol.sectorSize))
      && vol.SectorOf(Mul32(r.op.target, vol.sectorSize)) == r.op.target
      && vol.SectorOf(Mul32(|r.op.data|, vol.sectorSize)) == |r.op.data|
    ensures r.Stray? ==>
      && |r.data| < TWO32
      && (Lands(vol, r.target, |r.data|) <==>
            vol.Aligned(Mul32(r.target, vol.sectorSize), Mul32(|r.data|, vol.sectorSize)))
      && Landing(vol, r.target) == vol.SectorOf(Mul32(r.target, vol.sectorSize))
      && vol.SectorOf(Mul32(|r.data|, vol.sectorSize)) == |r.data|
  {
    StoreBelow(vol);
    match r
    case Intact(op) => SectorAddress(vol, op.target, |op.data|);
    case Stray(_, data) => SectorAddress(vol, 0, |data|);
    case Refused(_) =>
  }

  class Journal {
    const host: Host
    var master: Master

    /** calloc of the instance: every field zero. */
    constructor (host: Host)
      ensures this.host == host && master == Master(0, 0, 0, 0, 0, 0, 0)
    {
      this.host := host;
      this.master := Master(0, 0, 0, 0, 0, 0, 0);
    }

    /** The record in memory describes this volume; its log fields may be anything. */
    ghost predicate Attached()
      reads this, host
    {
      && host.Valid()
      && master.volumeSize == host.vol.Size()
      && master.sectorSize == host.vol.sectorSize
      && master.storeSize == host.vol.storeSize
    }

    /**
      The state-machine invariant of every mounted instance: no open transaction
      means an empty log, and the log never reaches the sector before the master.
     */
    ghost predicate Valid()
      reads this, host
    {
      && Attached()
      && master.magic == STORE_MARKER
      && Genuine(host.vol, master)
      && (master.status in {READY, FS_DIRECT} ==> master.nextFree == 0)
    }

    /** The record on disk is the record in memory. */
    ghost predicate Synced()
      requires host.Valid()
      reads this, host
    {
      MasterOf(host.image[host.vol.Last()]) == master
    }

    /** What the log in memory's view holds. */
    ghost function LogView(): LogScan
      requires host.Valid()
      reads this, host
    {
      Scan(host.vol, host.image, 0, master.nextFree)
    }

    /** What replaying that log makes of the disk when nothing fails. */
    ghost function ReplayView(): Outcome
      requires host.Valid()
      reads this, host
    {
      Redone(host.vol, host.image, 0, master.nextFree)
    }

    ghost function FsView(): Image
      requires host.Valid()
      reads this, host
    {
      Fs(host.vol, host.image)
    }

    /** jrnl_get_target_disk_sector */
    function TargetSector(sector: Word): Word
      reads this
    {
      Add32(master.offset, sector)
    }

    /**
      jrnl_erase_range_raw and jrnl_write_raw over the same `count` sectors, for all
      32-bit arguments: the disk sees the wrapped address and length.
     */
    method RawUpdate(sector: Word, data: seq<Sector>, count: Word) returns (err: Err)
      requires Attached()
      requires |data| == count as int
      modifies host`image, host`powered, host`diskFailures
      ensures host.Valid() && FailFast(err, old(host.Faults()), host.Faults())
      ensures host.powered ==> old(host.powered)
      ensures
        var addr, size := Mul32(sector, host.vol.sectorSize), Mul32(count, host.vol.sectorSize);
        if !host.vol.Aligned(addr, size) then
          err == InvalidSize && host.image == old(host.image) && host.Failures() == old(host.Failures())
        else
          && err in {Ok, Io}
          && (err == Ok <==> host.Failures() == old(host.Failures()))
          && var first, n := host.vol.SectorOf(addr), host.vol.SectorOf(size);
          && first + n <= host.vol.sectors
          && SameOff(old(host.image), host.image, first, first + n)
          && (n == count as int ==>
                && (err == Ok ==> host.image == Overwrite(old(host.image), first, data))
                && (first + n == host.vol.sectors && 0 < n ==>
                      var s := host.image[host.vol.Last()];
                      || s == old(host.image)[host.vol.Last()]
                      || MasterOf(s) == MasterOf(data[n - 1])
                      || !host.vol.Accepts(s)))
    {
      hide MasterOf, Volume.Blank, Volume.Aligned, Volume.SectorOf, Mul32, Overwrite;
      var addr, size := Mul32(sector, master.sectorSize), Mul32(count, master.sectorSize);
      WrappedLength(host.vol, count);
      BlankNotAccepted(host.vol);
      ghost var before := host.image;
      err := host.EraseRange(addr, size);
      if err == Ok {
        ghost var mid := host.image;
        err := host.WriteRange(addr, data, size);
        if err == Ok && host.vol.SectorOf(size) == count as int {
          UpdateDone(before, mid, host.image, host.vol.SectorOf(addr), data);
        }
      }
    }

    /** jrnl_write_internal */
    method WriteInternal(buff: seq<Sector>, sector: Word, count: Word) returns (err: Err)
      requires Attached()
      requires |buff| == count as int
      modifies host`image, host`powered, host`diskFailures
      ensures host.Valid() && FailFast(err, old(host.Faults()), host.Faults())
      ensures host.powered ==> old(host.powered)
      ensures sector >= host.vol.storeSize ==>
        err == InvalidArg && host.image == old(host.image) && host.Failures() == old(host.Failures())
      ensures master.offset == host.vol.FsSectors() && sector + count <= host.vol.storeSize && 0 < count ==>
        && err in {Ok, Io}
        && (err == Ok <==> host.Failures() == old(host.Failures()))
        && var first := host.vol.FsSectors() + sector;
        && SameOff(old(host.image), host.image, first, first + count)
        && (err == Ok ==> host.image == Overwrite(old(host.image), first, buff))
        && (sector + count == host.vol.storeSize ==>
              var s := host.image[host.vol.Last()];
              s == old(host.image)[host.vol.Last()] || MasterOf(s) == MasterOf(buff[count - 1]) || !host.vol.Accepts(s))
    {
      if sector >= master.storeSize {
        return InvalidArg;
      }
      StoreBelow(host.vol);
      if master.offset == host.vol.FsSectors() && sector + count <= host.vol.storeSize {
        SectorAddress(host.vol, host.vol.FsSectors() + sector, count);
      }
      hide MasterOf, Volume.Accepts, Volume.Aligned, Volume.SectorOf, Mul32;
      err := RawUpdate(TargetSector(sector), buff, count);
    }

    /** jrnl_read_internal */
    method ReadInternal(sector: Word, count: Word) returns (err: Err, data: seq<Sector>)
      requires Attached()
      modifies host`powered, host`diskFailures
      ensures FailFast(err, old(host.Faults()), host.Faults())
      ensures host.powered ==> old(host.powered)
      ensures sector >= host.vol.storeSize ==> err == InvalidArg && host.Failures() == old(host.Failures())
      ensures master.offset == host.vol.FsSectors() && sector < host.vol.storeSize < sector + count
              && !host.vol.Vast(count) ==>
        err == InvalidSize && host.Failures() == old(host.Failures())
      ensures master.offset == host.vol.FsSectors() && sector < host.vol.storeSize
              && sector + count <= host.vol.storeSize ==>
        && err in {Ok, Io}
        && (err == Ok <==> host.Failures() == old(host.Failures()))
        && var first := host.vol.FsSectors() + sector;
        (err == Ok ==> data == host.image[first..first + count])
      ensures err == Ok ==> |data| == host.vol.SectorOf(Mul32(count, host.vol.sectorSize))
    {
      data := [];
      if sector >= master.storeSize {
        return InvalidArg, [];
      }
      var target := TargetSector(sector);
      var ss := master.sectorSize;
      StoreBelow(host.vol);
      if master.offset == host.vol.FsSectors() {
        if sector + count <= host.vol.storeSize {
          SectorAddress(host.vol, host.vol.FsSectors() + sector, count);
        } else if !host.vol.Vast(count) {
          PastTheEnd(host.vol, host.vol.FsSectors() + sector, count);
        }
      }
      hide Volume.Aligned, Volume.SectorOf, Volume.Vast, Mul32;
      err, data := host.ReadRange(Mul32(target, ss), Mul32(count, ss));
    }

    /** jrnl_update_master */
    method UpdateMaster() returns (err: Err)
      requires Attached()
      modifies host`image, host`powered, host`diskFailures
      ensures host.Valid() && FailFast(err, old(host.Faults()), host.Faults())
      ensures host.powered ==> old(host.powered)
      ensures master.offset == host.vol.FsSectors() ==>
        && err in {Ok, Io}
        && (err == Ok <==> host.Failures() == old(host.Failures()))
        && MasterStep(host.vol, old(host.image), host.image, master)
        && (err == Ok ==> Synced())
    {
      var tail: seq<Byte> := *;
      if |tail| != host.vol.sectorSize - MASTER_BYTES {
        tail := seq(host.vol.sectorSize - MASTER_BYTES, i => 0);
      }
      var s := EncodeMaster(host.vol, master, tail);
      err := WriteInternal([s], Sub32(master.storeSize, 1), 1);
      assert err == Ok && master.offset == host.vol.FsSectors() ==> host.image[host.vol.Last()] == [s][0];
    }

    /** First half of an iteration of jrnl_replay: read and check the record at `at`. */
    method ReadRecord(at: Word) returns (err: Err, h: OperHeader, data: seq<Sector>)
      requires Attached() && at < master.nextFree
      modifies host`powered, host`diskFailures, host`refusals
      ensures FailFast(err, old(host.Faults()), host.Faults())
      ensures host.powered ==> old(host.powered)
      ensures err == Ok ==> |data| == h.count as int && at + 1 + h.count < TWO32
      ensures master.offset == host.vol.FsSectors() ==>
        match RecordOf(host.vol, host.image, at, master.nextFree)
        case Refused(why) => err != Ok && (host.Failures() == old(host.Failures()) ==> err == why)
        case Intact(op) =>
          && (err == Ok <==> host.Failures() == old(host.Failures()))
          && (err == Ok ==> h.target == op.target && data == op.data)
        case Stray(target, found) =>
          && (err == Ok <==> host.Failures() == old(host.Failures()))
          && (err == Ok ==> h.target == target && data == found)
    {
      hide WordAt, Flatten, Volume.SectorOf, Mul32;
      var vol := host.vol;
      var header;
      data, h := [], OperHeader(0, 0, 0);
      StoreBelow(vol);
      ExactLength(vol, 1);
      err, header := ReadInternal(at, 1);
      if err == Ok {
        h := HeaderOf(header[0]);
        if !vol.HeaderOk(header[0]) {
          err := InvalidCrc;
        } else {
          var ok := host.Calloc(h.count, master.sectorSize);
          if !ok {
            err := NoMem;
          } else {
            ExactLength(vol, h.count);
            err, data := ReadInternal(Add32(at, 1), h.count);
            if err == Ok && vol.checksum(Flatten(data)) != h.crcData {
              err := InvalidCrc;
            }
          }
        }
      }
    }

    /**
      One iteration of jrnl_replay's loop: check the record at store sector `at`
      and copy its data to the target, wherever that lands. `next` is where the following record starts.
     */
    method ReplayRecord(at: Word) returns (err: Err, next: Word)
      requires Attached() && at < master.nextFree
      modifies host
      ensures host.Valid() && FailFast(err, old(host.Faults()), host.Faults())
      ensures host.powered ==> old(host.powered)
      ensures err == Ok ==> at < next
      ensures master.offset == host.vol.FsSectors() ==>
        RecordDone(host.vol, old(host.image), host.image, at, next, master.nextFree, err,
                   host.Failures() == old(host.Failures()))
    {
      hide RecordOf, Overwrite;
      var h, data;
      err, h, data := ReadRecord(at);
      next := at;
      if err == Ok {
        if master.offset == host.vol.FsSectors() {
          RecordAddresses(host.vol, RecordOf(host.vol, host.image, at, master.nextFree));
        }
        hide Volume.Aligned, Volume.SectorOf, Mul32;
        err := RawUpdate(h.target, data, h.count);
        if err == Ok {
          next := Add32(at, Add32(1, h.count));
        }
      }
    }

    /** jrnl_reset_master */
    method ResetMaster(fsDirect: bool) returns (err: Err)
      requires Attached()
      modifies this`master, host`image, host`powered, host`diskFailures
      ensures master == Reset(old(master), fsDirect)
      ensures host.Valid() && FailFast(err, old(host.Faults()), host.Faults())
      ensures host.powered ==> old(host.powered)
      ensures master.offset == host.vol.FsSectors() ==>
        && err in {Ok, Io}
        && (err == Ok <==> host.Failures() == old(host.Failures()))
        && MasterStep(host.vol, old(host.image), host.image, master)
        && (err == Ok ==> Synced())
    {
      master := master.(magic := STORE_MARKER);
      master := master.(nextFree := 0);
      master := master.(status := if fsDirect then FS_DIRECT else READY);
      err := UpdateMaster();
    }

    /**
      The loop of jrnl_replay over the log [0, next_free_sector). Without failures
      it is the walk `Redone`, on every image. For a log without stray records
      `copied` records reached their targets: every intact one before the first
      that is refused. Whatever fails, only targets of those are written.
     */
    method ReplayLog() returns (err: Err, copied: nat)
      requires Attached()
      modifies host
      ensures host.Valid() && FailFast(err, old(host.Faults()), host.Faults())
      ensures host.powered ==> old(host.powered)
      ensures master.offset == host.vol.FsSectors() ==>
        && (err == Ok ==> host.Failures() == old(host.Failures()))
        && (host.Failures() == old(host.Failures()) ==> Outcome(host.image, err) == old(ReplayView()))
      ensures master.offset == host.vol.FsSectors() && !old(LogView()).Wild? ==>
        && SameOff(old(host.image), host.image, 0, host.vol.FsSectors())
        && AgreeOff(old(FsView()), FsView(), old(LogView()).ops)
        && (err == Ok ==> old(LogView()).Clean?)
        && (host.Failures() == old(host.Failures()) ==>
              && err == old(LogView()).Verdict()
              && copied == |old(LogView()).ops|
              && FsView() == ApplyOps(old(FsView()), old(LogView()).ops))
    {
      hide RecordOf, Scan, ApplyOps, MasterOf, Volume.Accepts, Redone, RecordDone, Walking, Tamed, AgreeOff;
      ghost var vol, end := host.vol, master.nextFree;
      ghost var start := host.image;
      ghost var own := master.offset == vol.FsSectors();
      ghost var tame := own && !LogView().Wild?;
      WalkStart(vol, start, end, NoMem);
      var at: Word := 0;
      ghost var done: seq<Op> := [];
      copied := 0;
      ExactLength(vol, 1);
      var ok := host.Calloc(1, master.sectorSize);
      err := if ok then Ok else NoMem;
      while err == Ok && at < master.nextFree
        invariant Attached() && master == old(master)
        invariant FailFast(err, old(host.Faults()), host.Faults())
        invariant host.powered ==> old(host.powered)
        invariant own && err == Ok ==> host.Failures() == old(host.Failures())
        invariant own ==> Walking(vol, start, host.image, at, end, err, host.Failures() == old(host.Failures()))
        invariant tame ==> Tamed(vol, start, host.image, done, at, end, err, host.Failures() == old(host.Failures()))
        invariant tame ==> copied == |done|
        decreases if err == Ok then 1 else 0, master.nextFree - at
      {
        ghost var img, at0 := host.image, at;
        err, at := ReplayRecord(at);
        if own {
          WalkStep(vol, start, img, host.image, at0, at, end, err, host.Failures() == old(host.Failures()));
        }
        if tame {
          done := TameStep(vol, start, img, host.image, done, at0, at, end, err, host.Failures() == old(host.Failures()));
        }
        if err == Ok {
          copied := copied + 1;
        }
      }
      if own {
        WalkEnd(vol, start, host.image, done, at, end, err, host.Failures() == old(host.Failures()));
      }
    }

    /**
      jrnl_replay. A commit is redone record by record and then closed; an open
      transaction is dropped; anything else is left alone. With `scan` the log as
      found, without failures replay is the walk `ReplayView` on every image, and for
      every log without a stray record:
      - only targets of intact records before the first bad one are written;
      - without failures exactly those records are applied, and a bad record stops
        the replay with its error and the master record still saying COMMIT;
      - the record is closed only after the whole of a clean log was applied;
      - whatever happens, what survives a power loss stays the same.
     */
    method Replay() returns (err: Err)
      requires Attached()
      modifies this`master, host
      ensures Attached() && FailFast(err, old(host.Faults()), host.Faults())
      ensures host.powered ==> old(host.powered)
      ensures master in {old(master), Reset(old(master), false)}
      ensures old(master.status) == READY ==> err == Ok
      ensures old(master.status) == FS_DIRECT ==> err == Aborted
      ensures old(master.status) > COMMIT ==> err == InvalidState
      ensures old(master.status) !in {OPEN, COMMIT} ==>
        master == old(master) && host.image == old(host.image) && host.Failures() == old(host.Failures())
      ensures old(master.status) == OPEN ==> master == Reset(old(master), false)
      ensures old(master.status) == OPEN && master.offset == host.vol.FsSectors() ==>
        && (err == Ok <==> host.Failures() == old(host.Failures()))
        && MasterStep(host.vol, old(host.image), host.image, master)
        && (err == Ok ==> Synced())
      ensures old(master.status) == COMMIT && master.offset == host.vol.FsSectors() ==>
        && (err == Ok ==> host.Failures() == old(host.Failures()) && Synced())
        && (host.Failures() == old(host.Failures()) ==>
              && err == old(ReplayView()).err
              && FsView() == Fs(host.vol, old(ReplayView()).img)
              && (err != Ok ==> host.image == old(ReplayView()).img))
      ensures old(master.status) == COMMIT && master.offset == host.vol.FsSectors() && !old(LogView()).Wild? ==>
        && SameLog(host.vol, old(host.image), host.image)
        && AgreeOff(old(FsView()), FsView(), old(LogView()).ops)
        && (err == Ok ==> old(LogView()).Clean?)
        && (host.Failures() == old(host.Failures()) ==>
              && err == old(LogView()).Verdict()
              && FsView() == ApplyOps(old(FsView()), old(LogView()).ops))
        && (master != old(master) && host.diskFailures == old(host.diskFailures) ==> Synced())
        && (master == old(master) ==>
              err != Ok && host.image[host.vol.Last()] == old(host.image)[host.vol.Last()])
        && (master != old(master) ==>
              && old(LogView()).Clean? && FsView() == ApplyOps(old(FsView()), old(LogView()).ops)
              && var s := host.image[host.vol.Last()];
              s == old(host.image)[host.vol.Last()] || MasterOf(s) == master || !host.vol.Accepts(s))
        && (Recoverable(host.vol, old(host.image)) && Committed(host.vol, old(host.image))
            && Pending(host.vol, old(host.image)) == old(LogView()).ops ==>
              && Recoverable(host.vol, host.image)
              && Durable(host.vol, host.image) == Durable(host.vol, old(host.image))
              && (master.status == READY ==> Settled(host.vol, host.image))
              && (master.status == COMMIT ==>
                    Committed(host.vol, host.image) && Pending(host.vol, host.image) == old(LogView()).ops))
    {
      hide RecordOf, Scan, ApplyOps, MasterOf, Volume.Accepts, Redone;
      if master.status == FS_DIRECT {
        return Aborted;
      }
      if master.status != COMMIT {
        if master.status == READY {
          return Ok;
        } else if master.status == OPEN {
          err := ResetMaster(false);
          return;
        } else {
          return InvalidState;
        }
      }
      ghost var vol, start, scan := host.vol, host.image, LogView();
      ghost var tame := master.offset == vol.FsSectors() && !scan.Wild?;
      ghost var live := tame && Recoverable(vol, start) && Committed(vol, start) && Pending(vol, start) == scan.ops;
      var copied;
      err, copied := ReplayLog();
      ghost var mid := host.image;
      if live {
        ReplayKeepsDurable(vol, start, mid);
      }
      if err == Ok {
        err := ResetMaster(false);
        if master.offset == vol.FsSectors() {
          SameFs(vol, mid, host.image, vol.Last(), vol.sectors);
        }
        if live {
          MasterStepSettled(vol, mid, host.image, master);
        }
      }
    }

    /** esp_jrnl_start */
    method Start() returns (err: Err)
      requires Valid()
      modifies this`master, host`image, host`powered, host`diskFailures
      ensures Valid() && FailFast(err, old(host.Faults()), host.Faults())
      ensures host.powered ==> old(host.powered)
      ensures old(master.status) != READY ==>
        && err == InvalidState
        && master == old(master) && host.image == old(host.image) && host.Failures() == old(host.Failures())
      ensures old(master.status) == READY ==>
        && master == old(master).(status := OPEN)
        && (err == Ok <==> host.Failures() == old(host.Failures()))
        && (err == Ok ==> Synced())
        && MasterStep(host.vol, old(host.image), host.image, master)
        && (Settled(host.vol, old(host.image)) ==> Settled(host.vol, host.image) && FsView() == old(FsView()))
        && (err == Ok && Settled(host.vol, old(host.image)) ==> !Committed(host.vol, host.image))
        && LogView() == Clean([])
    {
      if master.status == READY {
        assert master.nextFree == 0;  // the assertion of the source never fires
        ghost var before := host.image;
        master := master.(status := OPEN);
        err := UpdateMaster();
        hide MasterOf, Volume.Accepts, RecordOf;
        if Settled(host.vol, before) {
          MasterStepSettled(host.vol, before, host.image, master);
        }
      } else {
        err := InvalidState;
      }
    }

    /** The three raw operations of a log append: erase, header, data. */
    method ProgramRecord(header: Sector, data: seq<Sector>, count: Word) returns (err: Err)
      requires Valid()
      requires |data| == count as int
      requires master.nextFree + 1 + count < host.vol.storeSize
      modifies host`image, host`powered, host`diskFailures
      ensures host.Valid() && FailFast(err, old(host.Faults()), host.Faults())
      ensures host.powered ==> old(host.powered)
      ensures err in {Ok, Io} && (err == Ok <==> host.Failures() == old(host.Failures()))
      ensures var first := host.vol.FsSectors() + master.nextFree;
        && SameOff(old(host.image), host.image, first, first + 1 + count)
        && (err == Ok ==>
              && host.image[first] == header
              && forall i :: first + 1 <= i < first + 1 + count ==> host.image[i] == data[i - (first + 1)])
    {
      ghost var first := host.vol.FsSectors() + master.nextFree;
      var ss := master.sectorSize;
      RecordAddress(host.vol, first, count);
      hide MasterOf, Volume.Accepts, Volume.Blank, Volume.Aligned, Volume.SectorOf, Volume.Size, Mul32, Add32, Sub32;
      var addr := Mul32(TargetSector(master.nextFree), ss);
      var size := Mul32(Add32(count, 1), ss);
      err := host.EraseRange(addr, size);
      if err == Ok {
        err := host.WriteRange(addr, [header], ss);
        if err == Ok {
          err := host.WriteRange(Add32(addr, ss), data, Sub32(size, ss));
        }
      }
    }

    /** esp_jrnl_write up to the master update. */
    method AppendRecord(sector: Word, data: seq<Sector>, count: Word) returns (err: Err)
      requires Valid()
      requires |data| == count as int
      requires OpFits(Op(sector, data), host.vol.FsSectors()) && Room(host.vol, master.nextFree, Op(sector, data))
      modifies host
      ensures host.Valid() && FailFast(err, old(host.Faults()), host.Faults())
      ensures host.powered ==> old(host.powered)
      ensures err in {Ok, NoMem, Io} && (err == Ok <==> host.Failures() == old(host.Failures()))
      ensures var first := host.vol.FsSectors() + master.nextFree;
        SameOff(old(host.image), host.image, first, first + 1 + count)
      ensures err != Ok && host.diskFailures == old(host.diskFailures) ==> host.image == old(host.image)
      ensures err == Ok ==> RecordAt(host.vol, host.image, master.nextFree, Op(sector, data))
    {
      hide MasterOf, Volume.Accepts, RecordOf;
      ExactLength(host.vol, 1);
      var ok := host.Calloc(1, master.sectorSize);
      if !ok {
        return NoMem;
      }
      var header := OperHeader(sector, count, host.vol.checksum(Flatten(data)));
      HeaderRoundTrip(host.vol, header);
      err := ProgramRecord(HeaderSector(host.vol, header), data, count);
      if err == Ok {
        RecordWritten(host.vol, host.image, master.nextFree, Op(sector, data));
      }
    }

    /**
      esp_jrnl_write in an open transaction with room left. An operation whose
      write reports an error may still be in the log: when only the master update
      failed.
     */
    method LogOperation(sector: Word, data: seq<Sector>, count: Word) returns (err: Err)
      requires Valid() && master.status == OPEN
      requires |data| == count as int
      requires OpFits(Op(sector, data), host.vol.FsSectors()) && Room(host.vol, master.nextFree, Op(sector, data))
      modifies this`master, host
      ensures Valid() && FailFast(err, old(host.Faults()), host.Faults())
      ensures host.powered ==> old(host.powered)
      ensures err == Ok <==> host.Failures() == old(host.Failures())
      ensures AppendOnly(host.vol, old(host.image), host.image, old(master.nextFree), 1 + count)
      ensures master == old(master) || master == old(master).(nextFree := old(master.nextFree) + 1 + count)
      ensures err == Ok ==> master != old(master) && Synced()
      ensures err != Ok && host.diskFailures == old(host.diskFailures) ==>
        master == old(master) && host.image == old(host.image)
      ensures old(LogView()).Clean? ==>
        LogView() == Clean(old(LogView()).ops + if master == old(master) then [] else [Op(sector, data)])
      ensures Recoverable(host.vol, old(host.image)) && !Committed(host.vol, old(host.image)) ==>
        Settled(host.vol, host.image) && !Committed(host.vol, host.image)
    {
      hide RecordOf, Scan, MasterOf, Volume.Accepts, ApplyOps;
      ghost var vol, before, end := host.vol, host.image, master.nextFree;
      ghost var calm := Recoverable(vol, before) && !Committed(vol, before);
      StoreBelow(vol);
      err := AppendRecord(sector, data, count);
      ghost var mid := host.image;
      if err == Ok {
        master := master.(nextFree := Add32(master.nextFree, Add32(1, count)));
        err := UpdateMaster();
        if Scan(vol, before, 0, end).Clean? {
          AppendScan(vol, before, mid, host.image, end, Op(sector, data));
        }
        if calm {
          AppendSettled(vol, before, mid, host.image, end, master);
        }
      } else {
        if Scan(vol, before, 0, end).Clean? {
          SameScan(vol, before, mid, vol.FsSectors() + end, vol.Last(), 0, end);
        }
        assert old(LogView()).ops + [] == old(LogView()).ops;
        if calm {
          LogWriteSettled(vol, before, mid);
        }
      }
    }

    /**
      esp_jrnl_write. Direct mode goes to the target; an open transaction logs the
      operation if it fits; any other state refuses.
     */
    method Write(sector: Word, data: seq<Sector>, count: Word) returns (err: Err)
      requires Valid()
      requires |data| == count as int
      requires OpFits(Op(sector, data), host.vol.FsSectors())
      modifies this`master, host
      ensures Valid() && FailFast(err, old(host.Faults()), host.Faults())
      ensures host.powered ==> old(host.powered)
      ensures master.status == old(master.status)
      // the outcome, when nothing fails below; without a disk failure a refusal touches nothing
      ensures err == Ok ==> host.Failures() == old(host.Failures())
      ensures host.Failures() == old(host.Failures()) ==>
        err == (if old(Accepting(Op(sector, data))) then Ok else if old(master.status) == OPEN then NoMem else InvalidState)
      ensures !old(Accepting(Op(sector, data))) ==> host.Failures() == old(host.Failures())
      ensures err != Ok && host.diskFailures == old(host.diskFailures) ==>
        master == old(master) && host.image == old(host.image)
      // direct mode
      ensures old(master.status) == FS_DIRECT ==>
        && host.refusals == old(host.refusals)
        && master == old(master)
        && SameOff(old(host.image), host.image, sector, sector + count)
        && (err == Ok ==> host.image == Overwrite(old(host.image), sector, data))
      // open transaction
      ensures old(master.status) == OPEN ==>
        && AppendOnly(host.vol, old(host.image), host.image, old(master.nextFree), 1 + count)
        && FsView() == old(FsView())
        && (master == old(master) || master == old(master).(nextFree := old(master.nextFree) + 1 + count))
        && (err == Ok ==> master != old(master) && Synced())
      ensures old(master.status) == OPEN && old(LogView()).Clean? ==>
        LogView() == Clean(old(LogView()).ops + if master == old(master) then [] else [Op(sector, data)])
      ensures old(master.status) == OPEN && Recoverable(host.vol, old(host.image))
              && !Committed(host.vol, old(host.image)) ==>
        Settled(host.vol, host.image) && !Committed(host.vol, host.image)
    {
      hide RecordOf, Scan, MasterOf, Volume.Accepts, ApplyOps;
      if master.status == FS_DIRECT {
        SectorAddress(host.vol, sector, count);
        err := RawUpdate(sector, data, count);
      } else if master.status == OPEN {
        StoreBelow(host.vol);
        if Add32(Add32(master.nextFree, 1), count) < Sub32(master.storeSize, 1) {
          err := LogOperation(sector, data, count);
        } else {
          err := NoMem;
          assert old(LogView()).ops + [] == old(LogView()).ops;
          if Recoverable(host.vol, host.image) && !Committed(host.vol, host.image) {
            NothingPending(host.vol, host.image);
          }
        }
        SameFs(host.vol, old(host.image), host.image, host.vol.FsSectors() + old(master.nextFree), host.vol.sectors);
      } else {
        err := InvalidState;
      }
    }

    /** esp_jrnl_write would attempt the operation in this state. */
    ghost predicate Accepting(op: Op)
      reads this, host
    {
      master.status == FS_DIRECT || (master.status == OPEN && Room(host.vol, master.nextFree, op))
    }

    /** First half of a commit: the commit mark, written or cut. */
    method MarkCommit() returns (err: Err)
      requires Valid() && master.status == OPEN
      modifies this`master, host`image, host`powered, host`diskFailures
      ensures Valid() && FailFast(err, old(host.Faults()), host.Faults())
      ensures host.powered ==> old(host.powered)
      ensures master == old(master).(status := COMMIT)
      ensures err == Ok <==> host.Failures() == old(host.Failures())
      ensures err == Ok ==> Synced() && Committed(host.vol, host.image)
      ensures SameLog(host.vol, old(host.image), host.image) && FsView() == old(FsView())
      ensures old(LogView()).Clean? ==> LogView() == old(LogView())
      ensures old(LogView()).Clean? && Recoverable(host.vol, old(host.image))
              && !Committed(host.vol, old(host.image)) ==>
        && Recoverable(host.vol, host.image)
        && Pending(host.vol, host.image) == (if Committed(host.vol, host.image) then old(LogView()).ops else [])
    {
      hide RecordOf, Scan, MasterOf, ApplyOps;
      ghost var vol, before, scan := host.vol, host.image, LogView();
      master := master.(status := COMMIT);
      err := UpdateMaster();
      SameFs(vol, before, host.image, vol.Last(), vol.sectors);
      if scan.Clean? {
        SameScan(vol, before, host.image, vol.Last(), vol.sectors, 0, master.nextFree);
        if Recoverable(vol, before) && !Committed(vol, before) {
          MasterStepPending(vol, before, host.image, master);
        }
      }
    }

    /**
      esp_jrnl_stop(commit = true). With `ops` the clean log of the open
      transaction, whatever fails and wherever the power is cut: afterwards the
      volume is worth the old file system or the old file system with all of
      `ops`, the log is still there while the record in memory says COMMIT, and
      the record is READY again only when all of `ops` are in place.
     */
    method Commit() returns (err: Err)
      requires Valid()
      modifies this`master, host
      ensures Valid() && FailFast(err, old(host.Faults()), host.Faults())
      ensures host.powered ==> old(host.powered)
      ensures old(master.status) != OPEN ==>
        && err == InvalidState
        && master == old(master) && host.image == old(host.image) && host.Failures() == old(host.Failures())
      ensures old(master.status) == OPEN && old(LogView()).Clean? ==>
        var ops, fs := old(LogView()).ops, old(FsView());
        && SameLog(host.vol, old(host.image), host.image)
        && AgreeOff(fs, FsView(), ops)
        && (err == Ok <==> host.Failures() == old(host.Failures()))
        && (err == Ok ==> master.status == READY && Synced())
        && (host.diskFailures == old(host.diskFailures) ==> Synced())
        && master.status in {READY, COMMIT}
        && (master.status == READY ==> FsView() == ApplyOps(fs, ops))
        && (master.status == COMMIT ==> master == old(master).(status := COMMIT))
        && LogView() == Clean(if master.status == COMMIT then ops else [])
      ensures old(master.status) == OPEN && old(LogView()).Clean?
              && Recoverable(host.vol, old(host.image)) && !Committed(host.vol, old(host.image)) ==>
        var ops, fs := old(LogView()).ops, old(FsView());
        && Recoverable(host.vol, host.image)
        && Durable(host.vol, host.image) ==
             (if Committed(host.vol, host.image) || master.status == READY then ApplyOps(fs, ops) else fs)
        && (master.status == READY ==> Settled(host.vol, host.image))
        && (master.status == COMMIT ==>
              if Committed(host.vol, host.image) then Pending(host.vol, host.image) == ops else FsView() == fs)
    {
      hide RecordOf, Scan, MasterOf, ApplyOps, Volume.Accepts;
      if master.status == OPEN {
        ghost var vol, before, scan := host.vol, host.image, LogView();
        ReflexiveAgree(Fs(vol, before), scan.ops);
        err := MarkCommit();
        if scan.Clean? && Recoverable(vol, before) && !Committed(vol, before) && !Committed(vol, host.image) {
          NothingPending(vol, host.image);
        }
        if err == Ok {
          err := Replay();
          if scan.Clean? && master.status == COMMIT {
            ScanFrame(vol, before, host.image, 0, master.nextFree);
          }
        }
        ScanEnd(vol, host.image, 0);
      } else {
        err := InvalidState;
      }
    }

    /**
      esp_jrnl_stop(commit = false). There is no status check: the record is reset
      in every state, and what survives is the region as it stands, unless the
      reset itself did not reach the disk.
     */
    method Cancel() returns (err: Err)
      requires Valid()
      modifies this`master, host`image, host`powered, host`diskFailures
      ensures Valid() && FailFast(err, old(host.Faults()), host.Faults())
      ensures host.powered ==> old(host.powered)
      ensures master == Reset(old(master), false)
      ensures err == Ok <==> host.Failures() == old(host.Failures())
      ensures err == Ok ==> Synced()
      ensures MasterStep(host.vol, old(host.image), host.image, master) && FsView() == old(FsView())
      ensures err == Ok ==> Settled(host.vol, host.image) && Durable(host.vol, host.image) == old(FsView())
      ensures Settled(host.vol, old(host.image)) ==> Settled(host.vol, host.image)
    {
      hide RecordOf, Scan, MasterOf, ApplyOps;
      ghost var vol, before := host.vol, host.image;
      err := ResetMaster(false);
      SameFs(vol, before, host.image, vol.Last(), vol.sectors);
      if err == Ok {
        NothingPending(vol, host.image);
      }
      if Settled(vol, before) {
        MasterStepSettled(vol, before, host.image, master);
      }
    }

    /** esp_jrnl_set_direct_io */
    method SetDirectIo(direct: bool) returns (err: Err)
      requires Valid()
      modifies this`master, host`image, host`powered, host`diskFailures
      ensures Valid() && FailFast(err, old(host.Faults()), host.Faults())
      ensures host.powered ==> old(host.powered)
      ensures old(master.status) !in {FS_DIRECT, READY} ==>
        && err == InvalidState
        && master == old(master) && host.image == old(host.image) && host.Failures() == old(host.Failures())
      ensures old(master.status) in {FS_DIRECT, READY} ==>
        && master == old(master).(status := if direct then FS_DIRECT else READY)
        && (err == Ok <==> host.Failures() == old(host.Failures()))
        && (err == Ok ==> Synced() && Settled(host.vol, host.image))
        && MasterStep(host.vol, old(host.image), host.image, master)
        && FsView() == old(FsView())
        && (Settled(host.vol, old(host.image)) ==> Settled(host.vol, host.image))
    {
      hide RecordOf, Scan, MasterOf, ApplyOps;
      ghost var vol, before := host.vol, host.image;
      if master.status != FS_DIRECT && master.status != READY {
        err := InvalidState;
      } else {
        master := master.(status := if direct then FS_DIRECT else READY);
        err := UpdateMaster();
        SameFs(vol, before, host.image, vol.Last(), vol.sectors);
        if err == Ok {
          NothingPending(vol, host.image);
        }
        if Settled(vol, before) {
          MasterStepSettled(vol, before, host.image, master);
        }
      }
    }

    /**
      esp_jrnl_read, for all 32-bit arguments: an accepted read returns
      consecutive sectors of the file-system region, never a store sector, and
      exactly the requested ones unless sector + count wraps around.
     */
    method Read(sector: Word, count: Word) returns (err: Err, data: seq<Sector>)
      requires Valid()
      modifies host`powered, host`diskFailures
      ensures FailFast(err, old(host.Faults()), host.Faults())
      ensures host.powered ==> old(host.powered)
      ensures !Readable(host.vol, sector, count) ==> err == InvalidSize && host.Failures() == old(host.Failures())
      ensures Readable(host.vol, sector, count) ==>
        && (err == Ok <==> host.Failures() == old(host.Failures()))
        && (err == Ok ==> data == Window(host.vol, FsView(), sector, count))
      ensures sector + count < host.vol.FsSectors() ==>
        Readable(host.vol, sector, count) && (err == Ok ==> data == FsView()[sector..sector + count])
    {
      hide RecordOf, Scan, MasterOf, Volume.Accepts, ApplyOps;
      var vol := host.vol;
      if sector + count < vol.FsSectors() {
        WindowExact(vol, FsView(), sector, count);
      }
      if Add32(sector, count) >= master.offset {
        return InvalidSize, [];
      }
      var addr, size := Mul32(sector, master.sectorSize), Mul32(count, master.sectorSize);
      ghost var first, n := vol.SectorOf(addr), vol.SectorOf(size);
      if vol.Aligned(addr, size) {
        WrappedRange(vol, sector, count);
      }
      err, data := host.ReadRange(addr, size);
      if err == Ok {
        FsSlice(vol, host.image, first, first + n);
      }
    }

    /** esp_jrnl_get_sector_count: the file system ends where the store begins. */
    method SectorCount() returns (count: Word)
      requires Valid()
      ensures count == host.vol.FsSectors() == master.offset
    {
      StoreOffset(host.vol);
      count := Sub32(Div32(master.volumeSize, master.sectorSize), master.storeSize);
    }
  }

  function Reset(m: Master, fsDirect: bool): Master
  {
    m.(magic := STORE_MARKER, nextFree := 0, status := if fsDirect then FS_DIRECT else READY)
  }
}
