/**
  esp_jrnl_mount, seen from one volume: what it makes of every image it may find.
  The table of instances is in module Handles.
 */
module Mounting {
  import opened Layout
  import opened Log
  import opened Durability
  import opened HostDevice
  import opened JournalInstance

  /** esp_jrnl_config_t */
  datatype Config = Config(overwriteExisting: bool, replayAfterMount: bool, forceFormat: bool, storeSize: Word) {
    /** The flags of ESP_JRNL_DEFAULT_CONFIG. */
    predicate Default()
    {
      !overwriteExisting && !forceFormat && replayAfterMount
    }
  }

  const INSTANCE_BYTES: Word := 52

  /** A recognised record names this volume's store: every mount writes this offset. */
  ghost predicate Own(vol: Volume, img: Image)
    requires vol.Sound() && |img| == vol.sectors
  {
    var s := img[vol.Last()];
    vol.Accepts(s) ==> MasterOf(s).offset == vol.FsSectors()
  }

  /** What replaying the log the record names makes of the disk when nothing fails. */
  ghost function Resumed(vol: Volume, img: Image): (r: Outcome)
    requires vol.Sound() && |img| == vol.sectors
    ensures |r.img| == vol.sectors
  {
    Redone(vol, img, 0, MasterOf(img[vol.Last()]).nextFree)
  }

  /** The images a mount accepts when nothing fails. */
  ghost predicate Mountable(vol: Volume, img: Image, cfg: Config)
    requires vol.Sound() && |img| == vol.sectors
  {
    var s := img[vol.Last()];
    var m := MasterOf(s);
    || cfg.overwriteExisting || cfg.forceFormat
    || m.magic != STORE_MARKER
    || (vol.Accepts(s) &&
        (|| !cfg.replayAfterMount
         || m.status in {READY, OPEN}
         || (m.status == COMMIT && Resumed(vol, img).err == Ok)))
  }

  /** The record says COMMIT and replay refuses some record of the log. */
  ghost predicate CorruptCommit(vol: Volume, img: Image)
    requires vol.Sound() && |img| == vol.sectors
  {
    Committed(vol, img) && Scan(vol, img, 0, MasterOf(img[vol.Last()]).nextFree).Corrupt?
  }

  /** The error replay stops with. */
  ghost function Verdict(vol: Volume, img: Image): Err
    requires vol.Sound() && |img| == vol.sectors && CorruptCommit(vol, img)
  {
    Scan(vol, img, 0, MasterOf(img[vol.Last()]).nextFree).err
  }

  /** A record of this volume whose status is none of a journaled volume: direct mode, or no status at all. */
  ghost predicate Unjournaled(vol: Volume, img: Image)
    requires vol.Sound() && |img| == vol.sectors
  {
    vol.Accepts(img[vol.Last()]) && MasterOf(img[vol.Last()]).status !in {READY, OPEN, COMMIT}
  }

  /**
    A record write of this volume cut after `n` bytes: a default mount accepts
    what is left if and only if the cut came before the marker was complete, or
    after the record was, and then exactly as it accepts the complete record. Cut
    in between, the volume is refused.
   */
  lemma TornRecordMountable(vol: Volume, img: Image, m: Master, tail: seq<Byte>, n: nat, cfg: Config)
    requires vol.Sound() && |img| == vol.sectors && cfg.Default()
    requires m.magic == STORE_MARKER && m.volumeSize == vol.Size()
    requires m.sectorSize == vol.sectorSize && m.storeSize == vol.storeSize
    requires |tail| == vol.sectorSize - MASTER_BYTES && n <= vol.sectorSize
    requires img[vol.Last()] == TornWrite(MasterBytes(m) + tail, n)
    ensures Mountable(vol, img, cfg) <==>
      || n < 4
      || (MASTER_BYTES <= n &&
          (m.status in {READY, OPEN} || (m.status == COMMIT && Resumed(vol, img).err == Ok)))
  {
    hide MasterOf, TornWrite, Redone;
    TornMaster(vol, m, tail, n);
  }

  /** A record erase cut after any byte but none: every mount starts afresh. */
  lemma TornEraseMountable(vol: Volume, img: Image, s: Sector, n: nat, cfg: Config)
    requires vol.Sound() && |img| == vol.sectors
    requires 1 <= n <= |s| && img[vol.Last()] == TornErase(s, n)
    ensures Mountable(vol, img, cfg) && Recoverable(vol, img) && Durable(vol, img) == Fs(vol, img)
  {
    hide MasterOf, TornErase, Scan, RecordOf;
    TornEraseUnmarked(s, n);
    NothingPending(vol, img);
  }

  /**
    The first half of a mount: read the record found on disk, check it and let
    jrnl_replay roll it forward or back.
   */
  method Resume(host: Host, j: Journal, cfg: Config) returns (err: Err)
    requires host.Valid() && j.host == host && !cfg.overwriteExisting && !cfg.forceFormat
    modifies j, host
    ensures host.Valid() && FailFast(err, old(host.Faults()), host.Faults())
    ensures host.powered ==> old(host.powered)
    ensures !cfg.replayAfterMount ==> host.image == old(host.image)
    ensures !host.vol.Accepts(old(host.image)[host.vol.Last()]) ==>
      && host.image == old(host.image)
      && (MasterOf(old(host.image)[host.vol.Last()]).magic == STORE_MARKER ==>
            err != Ok && (host.Failures() == old(host.Failures()) ==> err == InvalidState))
    ensures cfg.replayAfterMount && Unjournaled(host.vol, old(host.image)) ==>
      && err != Ok && host.image == old(host.image)
      && (host.Failures() == old(host.Failures()) ==>
            err == if MasterOf(old(host.image)[host.vol.Last()]).status == FS_DIRECT then Aborted else InvalidState)
    ensures Own(host.vol, old(host.image)) ==>
      && (err == Ok ==> host.Failures() == old(host.Failures()))
      && (host.Failures() == old(host.Failures()) ==> (err == Ok <==> Mountable(host.vol, old(host.image), cfg)))
      && (!cfg.replayAfterMount || !Committed(host.vol, old(host.image)) ==>
            SameOff(old(host.image), host.image, host.vol.Last(), host.vol.sectors))
    ensures cfg.replayAfterMount && Recoverable(host.vol, old(host.image)) ==>
      && Recoverable(host.vol, host.image)
      && Durable(host.vol, host.image) == Durable(host.vol, old(host.image))
      && (err == Ok ==> Settled(host.vol, host.image))
    ensures cfg.replayAfterMount && Own(host.vol, old(host.image)) && Committed(host.vol, old(host.image)) ==>
      && (host.Failures() == old(host.Failures()) ==>
            && err == Resumed(host.vol, old(host.image)).err
            && Fs(host.vol, host.image) == Fs(host.vol, Resumed(host.vol, old(host.image)).img)
            && (err != Ok ==> host.image == Resumed(host.vol, old(host.image)).img))
    ensures cfg.replayAfterMount && Own(host.vol, old(host.image)) && CorruptCommit(host.vol, old(host.image)) ==>
      && err != Ok
      && AgreeOff(Fs(host.vol, old(host.image)), Fs(host.vol, host.image), Pending(host.vol, old(host.image)))
      && host.image[host.vol.FsSectors()..] == old(host.image)[host.vol.FsSectors()..]
      && (host.Failures() == old(host.Failures()) ==>
            && err == Verdict(host.vol, old(host.image))
            && Fs(host.vol, host.image) == ApplyOps(Fs(host.vol, old(host.image)), Pending(host.vol, old(host.image))))
  {
    hide RecordOf, Scan, Redone, MasterOf, ApplyOps, WordAt;
    ghost var vol, before := host.vol, host.image;
    ghost var s := before[vol.Last()];
    var volumeSize, sectorSize := host.vol.Size(), host.vol.sectorSize;
    MasterAddress(vol);
    var bytes;
    err, bytes := host.ReadHead(Sub32(volumeSize, sectorSize), MASTER_BYTES);
    if Recoverable(vol, before) && !Committed(vol, before) {
      NothingPending(vol, before);
    }
    if err != Ok {
      return;
    }
    j.master := MasterOf(bytes);
    MasterPrefix(s);
    if j.master.magic == STORE_MARKER {
      if !(volumeSize == j.master.volumeSize && sectorSize == j.master.sectorSize && host.vol.storeSize == j.master.storeSize) {
        return InvalidState;
      }
      if cfg.replayAfterMount {
        err := j.Replay();
        if j.master.status == READY && MasterOf(s).status == OPEN && Own(vol, before) {
          SameFs(vol, before, host.image, vol.Last(), vol.sectors);
          if Recoverable(vol, before) {
            MasterStepSettled(vol, before, host.image, j.master);
          }
        }
      }
    }
  }

  /** The second half of a mount: an empty store with a record for this volume. */
  method CreateStore(host: Host, j: Journal, cfg: Config, needFresh: bool) returns (err: Err)
    requires host.Valid() && j.host == host && cfg.storeSize == host.vol.storeSize
    modifies j, host`image, host`powered, host`diskFailures
    ensures host.Valid() && FailFast(err, old(host.Faults()), host.Faults())
    ensures host.powered ==> old(host.powered)
    ensures err == Ok <==> host.Failures() == old(host.Failures())
    ensures j.Valid() && j.master.status == (if needFresh then FS_DIRECT else READY)
    ensures SameOff(old(host.image), host.image, host.vol.Last(), host.vol.sectors)
    ensures Fs(host.vol, host.image) == Fs(host.vol, old(host.image))
    ensures err == Ok ==> j.Synced() && Settled(host.vol, host.image)
    ensures Settled(host.vol, old(host.image)) ==> Settled(host.vol, host.image)
  {
    hide RecordOf, Scan, Redone, MasterOf, ApplyOps, WordAt;
    ghost var vol, before := host.vol, host.image;
    StoreOffset(vol);
    hide Volume.Size, Div32;
    j.master := j.master.(storeSize := cfg.storeSize);
    j.master := j.master.(offset := Sub32(Div32(host.vol.Size(), host.vol.sectorSize), cfg.storeSize));
    j.master := j.master.(volumeSize := host.vol.Size(), sectorSize := host.vol.sectorSize);
    err := j.ResetMaster(needFresh);
    SameFs(vol, before, host.image, vol.Last(), vol.sectors);
    if err == Ok {
      NothingPending(vol, host.image);
    }
    if Settled(vol, before) {
      MasterStepSettled(vol, before, host.image, j.master);
    }
  }

  /**
    esp_jrnl_mount. For every image, of any contents, whose record names this store:
    - without failures it succeeds exactly on the `Mountable` images, and redoes a
      committed log, whatever it holds, as `Resumed` says;
    - success means READY (or direct mode, for a fresh store) with an empty log;
    - with the default flags what survives a power loss never changes, at
      whatever point the mount is cut, and success delivers exactly that;
    - the region changes only to redo a committed transaction;
    - a record of other geometry is refused and nothing is written;
    - a default mount refuses a volume left in direct mode and writes nothing.
   */
  method Mount(host: Host, cfg: Config) returns (err: Err, j: Journal?)
    requires host.Valid()
    requires MIN_STORE_SIZE <= cfg.storeSize ==> cfg.storeSize == host.vol.storeSize
    modifies host
    ensures host.Valid() && FailFast(err, old(host.Faults()), host.Faults())
    ensures host.powered ==> old(host.powered)
    ensures err == Ok <==> j != null
    ensures j != null ==>
      && fresh(j) && j.host == host && j.Valid() && j.Synced()
      && j.master.status == (if cfg.overwriteExisting || cfg.forceFormat then FS_DIRECT else READY)
      && Settled(host.vol, host.image)
    ensures cfg.storeSize < MIN_STORE_SIZE ==> err == InvalidArg && host.image == old(host.image)
    ensures cfg.overwriteExisting || cfg.forceFormat || !cfg.replayAfterMount ==>
      SameOff(old(host.image), host.image, host.vol.Last(), host.vol.sectors)
    ensures (cfg.overwriteExisting || cfg.forceFormat) && MIN_STORE_SIZE <= cfg.storeSize ==>
      (err == Ok <==> host.Failures() == old(host.Failures()))
    ensures !cfg.overwriteExisting && !cfg.forceFormat && MasterOf(old(host.image)[host.vol.Last()]).magic == STORE_MARKER
            && !host.vol.Accepts(old(host.image)[host.vol.Last()]) ==>
      && err != Ok && host.image == old(host.image)
      && (host.Failures() == old(host.Failures()) && MIN_STORE_SIZE <= cfg.storeSize ==> err == InvalidState)
    ensures !cfg.overwriteExisting && !cfg.forceFormat && cfg.replayAfterMount
            && Unjournaled(host.vol, old(host.image)) ==>
      && err != Ok && host.image == old(host.image)
      && (host.Failures() == old(host.Failures()) && MIN_STORE_SIZE <= cfg.storeSize ==>
            err == if MasterOf(old(host.image)[host.vol.Last()]).status == FS_DIRECT then Aborted else InvalidState)
    ensures Own(host.vol, old(host.image)) && MIN_STORE_SIZE <= cfg.storeSize ==>
      && (err == Ok ==> host.Failures() == old(host.Failures()))
      && (host.Failures() == old(host.Failures()) ==> (err == Ok <==> Mountable(host.vol, old(host.image), cfg)))
    ensures Own(host.vol, old(host.image))
            && (cfg.overwriteExisting || cfg.forceFormat || !cfg.replayAfterMount
                || !Committed(host.vol, old(host.image))) ==>
      SameOff(old(host.image), host.image, host.vol.Last(), host.vol.sectors)
    ensures !cfg.overwriteExisting && !cfg.forceFormat && cfg.replayAfterMount
            && Recoverable(host.vol, old(host.image)) ==>
      && Recoverable(host.vol, host.image)
      && Durable(host.vol, host.image) == Durable(host.vol, old(host.image))
      && (err == Ok ==> Fs(host.vol, host.image) == Durable(host.vol, old(host.image)))
    ensures !cfg.overwriteExisting && !cfg.forceFormat && cfg.replayAfterMount
            && Own(host.vol, old(host.image)) && Committed(host.vol, old(host.image)) ==>
      && (host.Failures() == old(host.Failures()) && MIN_STORE_SIZE <= cfg.storeSize ==>
            && err == Resumed(host.vol, old(host.image)).err
            && Fs(host.vol, host.image) == Fs(host.vol, Resumed(host.vol, old(host.image)).img)
            && (err != Ok ==> host.image == Resumed(host.vol, old(host.image)).img))
    ensures !cfg.overwriteExisting && !cfg.forceFormat && cfg.replayAfterMount
            && Own(host.vol, old(host.image)) && CorruptCommit(host.vol, old(host.image)) ==>
      && err != Ok
      && AgreeOff(Fs(host.vol, old(host.image)), Fs(host.vol, host.image), Pending(host.vol, old(host.image)))
      && host.image[host.vol.FsSectors()..] == old(host.image)[host.vol.FsSectors()..]
      && (host.Failures() == old(host.Failures()) && MIN_STORE_SIZE <= cfg.storeSize ==>
            && err == Verdict(host.vol, old(host.image))
            && Fs(host.vol, host.image) == ApplyOps(Fs(host.vol, old(host.image)), Pending(host.vol, old(host.image))))
  {
    hide RecordOf, Scan, Redone, MasterOf, ApplyOps, WordAt;
    ghost var vol, before := host.vol, host.image;
    ReflexiveAgree(Fs(vol, before), Pending(vol, before));
    j := null;
    if cfg.storeSize < MIN_STORE_SIZE {
      err := InvalidArg;
    } else {
      ExactLength(vol, 1);
      var ok := host.Calloc(1, INSTANCE_BYTES);
      if !ok {
        err := NoMem;
      } else {
        var inst := new Journal(host);
        err := Ok;
        var needFresh := cfg.forceFormat || cfg.overwriteExisting;
        if !needFresh {
          err := Resume(host, inst, cfg);
        }
        if err == Ok {
          err := CreateStore(host, inst, cfg, needFresh);
          if err == Ok {
            j := inst;
          }
        }
      }
    }
  }

  /** A volume with the marker and another geometry is refused by every default mount, untouched. */
  method Retry(host: Host, cfg: Config, tries: nat) returns (errs: seq<Err>)
    requires host.Valid() && cfg.Default() && cfg.storeSize == host.vol.storeSize
    requires MasterOf(host.image[host.vol.Last()]).magic == STORE_MARKER
    requires !host.vol.Accepts(host.image[host.vol.Last()])
    modifies host
    ensures host.Valid() && host.image == old(host.image)
    ensures |errs| == tries && Ok !in errs
    ensures host.Failures() == old(host.Failures()) ==> forall i :: 0 <= i < tries ==> errs[i] == InvalidState
  {
    hide RecordOf, Scan, Redone, MasterOf, ApplyOps, WordAt;
    errs := [];
    while |errs| < tries
      invariant host.Valid() && host.image == old(host.image)
      invariant host.diskFailures >= old(host.diskFailures) && host.refusals >= old(host.refusals)
      invariant |errs| <= tries && Ok !in errs
      invariant host.Failures() == old(host.Failures()) ==> forall i :: 0 <= i < |errs| ==> errs[i] == InvalidState
    {
      host.powered := true;
      var err, j := Mount(host, cfg);
      errs := errs + [err];
    }
  }

  /** A recoverable volume is refused by a default mount for one of two reasons only. */
  lemma RefusedVolume(vol: Volume, img: Image, cfg: Config)
    requires vol.Sound() && Recoverable(vol, img) && cfg.Default() && !Mountable(vol, img, cfg)
    ensures
      || (MasterOf(img[vol.Last()]).magic == STORE_MARKER && !vol.Accepts(img[vol.Last()]))
      || Unjournaled(vol, img)
  {
    hide Scan, Redone, MasterOf, RecordOf;
    if vol.Accepts(img[vol.Last()]) {
      RedoneScan(vol, img, 0, MasterOf(img[vol.Last()]).nextFree);
    }
  }

  /** A default mount is idempotent: mounting again finds nothing to do. */
  method Remount(host: Host, cfg: Config) returns (err: Err, again: Err)
    requires host.Valid() && cfg.Default() && cfg.storeSize == host.vol.storeSize
    requires Recoverable(host.vol, host.image)
    modifies host
    ensures host.Valid() && Recoverable(host.vol, host.image)
    ensures err == Ok ==>
      Fs(host.vol, host.image) == Durable(host.vol, host.image) == Durable(host.vol, old(host.image))
    ensures err == Ok && host.Failures() == old(host.Failures()) ==> again == Ok
  {
    hide RecordOf, Scan, Redone, MasterOf, ApplyOps, WordAt;
    var j;
    again := InvalidState;
    err, j := Mount(host, cfg);
    if err == Ok {
      again, j := Mount(host, cfg);
    }
  }
}
