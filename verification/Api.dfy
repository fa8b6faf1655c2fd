/**
  The API outside the wrappers' discipline: arbitrary sequences of calls, direct
  mode, and a cancel where there is a commit to lose.
 */
module Api {
  import opened Layout
  import opened Log
  import opened Durability
  import opened HostDevice
  import opened JournalInstance
  import opened Mounting

  datatype ApiCall =
    | DoStart
    | DoWrite(op: Op)
    | DoRead(sector: Word, count: Word)
    | DoCommit
    | DoCancel
    | DoDirect(on: bool)

  ghost predicate CallsInRange(calls: seq<ApiCall>, size: int)
  {
    forall i :: 0 <= i < |calls| && calls[i].DoWrite? ==> OpFits(calls[i].op, size)
  }

  // ------------------------------------------------------- the reference machine

  /** A journal without its disk: a status, the file system, and the logged writes. */
  datatype Spec = Spec(status: Word, fs: Image, log: seq<Op>)

  ghost predicate SpecOk(vol: Volume, m: Spec)
    requires vol.Sound()
  {
    |m.fs| == vol.FsSectors() && OpsFit(m.log, |m.fs|)
  }

  /** What a call answers when nothing fails. */
  function Reply(vol: Volume, m: Spec, c: ApiCall): Err
    requires vol.Sound()
  {
    match c
    case DoStart => if m.status == READY then Ok else InvalidState
    case DoWrite(op) =>
      if m.status == FS_DIRECT then Ok
      else if m.status != OPEN then InvalidState
      else if LogSize(m.log) + 1 + |op.data| + 2 <= vol.storeSize then Ok
      else NoMem
    case DoRead(sector, count) => if Readable(vol, sector, count) then Ok else InvalidSize
    case DoCommit => if m.status == OPEN then Ok else InvalidState
    case DoCancel => Ok
    case DoDirect(on) => if m.status == FS_DIRECT || m.status == READY then Ok else InvalidState
  }

  /** What a call that answers Ok does. */
  function Next(vol: Volume, m: Spec, c: ApiCall): (m': Spec)
    requires vol.Sound() && |m.fs| == vol.FsSectors() && OpsFit(m.log, |m.fs|)
    requires c.DoWrite? ==> OpFits(c.op, vol.FsSectors())
    ensures |m'.fs| == |m.fs| && OpsFit(m'.log, |m.fs|)
  {
    match c
    case DoStart => Spec(OPEN, m.fs, [])
    case DoWrite(op) =>
      if m.status == FS_DIRECT then m.(fs := Overwrite(m.fs, op.target, op.data)) else m.(log := m.log + [op])
    case DoRead(_, _) => m
    case DoCommit => Spec(READY, ApplyOps(m.fs, m.log), [])
    case DoCancel => Spec(READY, m.fs, [])
    case DoDirect(on) => m.(status := if on then FS_DIRECT else READY)
  }

  /**
    What a call in which something fails may leave behind. The record in memory
    moves on all the same; a write may or may not be in the log; a direct write may
    be torn; a commit is either done or frozen with its log.
   */
  ghost predicate Broken(vol: Volume, m: Spec, c: ApiCall, m': Spec)
    requires vol.Sound() && SpecOk(vol, m) && (c.DoWrite? ==> OpFits(c.op, vol.FsSectors()))
  {
    match c
    case DoStart => m' == Next(vol, m, c)
    case DoWrite(op) =>
      if m.status == FS_DIRECT then
        m'.status == m.status && m'.log == m.log && AgreeOff(m.fs, m'.fs, [op])
      else
        m' == m || m' == Next(vol, m, c)
    case DoRead(_, _) => m' == m
    case DoCommit =>
      || m' == Next(vol, m, c)
      || (m'.status == COMMIT && m'.log == m.log && AgreeOff(m.fs, m'.fs, m.log))
    case DoCancel => m' == Next(vol, m, c)
    case DoDirect(_) => m' == Next(vol, m, c)
  }

  /** The machine and what has failed below it so far. */
  datatype ApiState = ApiState(spec: Spec, faults: Tally)

  /** All a call may answer and do. */
  ghost predicate ApiStep(vol: Volume, s: ApiState, c: ApiCall, err: Err, data: seq<Sector>, s': ApiState)
    requires vol.Sound() && SpecOk(vol, s.spec) && (c.DoWrite? ==> OpFits(c.op, vol.FsSectors()))
  {
    && FailFast(err, s.faults, s'.faults)
    && if Reply(vol, s.spec, c) != Ok then
         err == Reply(vol, s.spec, c) && s' == s
       else if s'.faults == s.faults then
         && err == Ok && s'.spec == Next(vol, s.spec, c)
         && (c.DoRead? ==> data == Window(vol, s.spec.fs, c.sector, c.count))
       else
         err != Ok && Broken(vol, s.spec, c, s'.spec)
  }

  // ------------------------------------------------------- the code

  /** The invariant of an instance under any calls at all. */
  ghost predicate Consistent(j: Journal)
    reads j, j.host
  {
    j.Valid() && j.LogView().Clean?
  }

  /** Every mount delivers a consistent instance. */
  lemma MountedConsistent(j: Journal)
    requires j.Valid() && j.master.status in {READY, FS_DIRECT}
    ensures Consistent(j) && j.LogView() == Clean([])
  {
    ScanEnd(j.host.vol, j.host.image, 0);
  }

  ghost function SpecOf(j: Journal): Spec
    requires j.host.Valid()
    reads j, j.host
  {
    Spec(j.master.status, j.FsView(), j.LogView().ops)
  }

  ghost function ApiNow(j: Journal): ApiState
    requires j.host.Valid()
    reads j, j.host
  {
    ApiState(SpecOf(j), j.host.Faults())
  }

  /** Any call on any consistent instance is a step of the reference machine. */
  method Invoke(j: Journal, c: ApiCall) returns (err: Err, data: seq<Sector>)
    requires Consistent(j) && (c.DoWrite? ==> OpFits(c.op, j.host.vol.FsSectors()))
    modifies j`master, j.host
    ensures Consistent(j) && SpecOk(j.host.vol, old(SpecOf(j)))
    ensures ApiStep(j.host.vol, old(ApiNow(j)), c, err, data, ApiNow(j))
    ensures j.host.diskFailures == old(j.host.diskFailures) && old(j.Synced()) ==> j.Synced()
    ensures Reply(j.host.vol, old(SpecOf(j)), c) != Ok || c.DoRead? ==>
      j.master == old(j.master) && j.host.image == old(j.host.image)
  {
    hide RecordOf, Scan, MasterOf, Volume.Accepts, ApplyOps, Window, Readable, Overwrite, LogSize, AgreeOff;
    ghost var vol, before := j.host.vol, j.host.image;
    ghost var m := SpecOf(j);
    StoreBelow(vol);
    LogEnds(j);
    ScanEnd(vol, before, 0);
    data := [];
    match c {
      case DoStart => err := j.Start();
      case DoWrite(op) =>
        err := j.Write(op.target, op.data, |op.data|);
        if j.master.status != OPEN {
          DirectKeepsLog(vol, before, j.host.image, op, j.master.nextFree);
          DirectWrite(vol, before, j.host.image, op);
        }
        assert m.log + [] == m.log;
      case DoRead(sector, count) =>
        err, data := j.Read(sector, count);
      case DoCommit => err := j.Commit();
      case DoCancel => err := j.Cancel();
      case DoDirect(on) =>
        err := j.SetDirectIo(on);
    }
    if c.DoStart? || c.DoCancel? || c.DoDirect? {
      ScanEnd(vol, j.host.image, 0);
    }
  }

  lemma LogEnds(j: Journal)
    requires Consistent(j)
    ensures LogSize(j.LogView().ops) == j.master.nextFree
  {
  }

  lemma DirectWrite(vol: Volume, before: Image, after: Image, op: Op)
    requires vol.Sound() && |before| == vol.sectors && OpFits(op, vol.FsSectors())
    requires SameOff(before, after, op.target, op.target + |op.data|)
    ensures AgreeOff(Fs(vol, before), Fs(vol, after), [op])
    ensures after == Overwrite(before, op.target, op.data) ==>
      Fs(vol, after) == Overwrite(Fs(vol, before), op.target, op.data)
  {
    forall i | 0 <= i < vol.FsSectors() && !Hit([op], i)
      ensures Fs(vol, before)[i] == Fs(vol, after)[i]
    {
      assert !InOp([op][0], i);
    }
  }

  lemma DirectKeepsLog(vol: Volume, before: Image, after: Image, op: Op, end: nat)
    requires vol.Sound() && |before| == vol.sectors && OpFits(op, vol.FsSectors())
    requires SameOff(before, after, op.target, op.target + |op.data|)
    requires Scan(vol, before, 0, end).Clean?
    ensures Scan(vol, after, 0, end) == Scan(vol, before, 0, end)
  {
    hide Scan;
    SameScan(vol, before, after, op.target, op.target + |op.data|, 0, end);
  }

  ghost predicate ApiRun(vol: Volume, calls: seq<ApiCall>, errs: seq<Err>, data: seq<seq<Sector>>, trail: seq<ApiState>)
    requires vol.Sound() && CallsInRange(calls, vol.FsSectors())
  {
    && |errs| == |data| == |calls| && |trail| == |calls| + 1
    && (forall i :: 0 <= i < |trail| ==> SpecOk(vol, trail[i].spec))
    && forall i :: 0 <= i < |calls| ==> ApiStep(vol, trail[i], calls[i], errs[i], data[i], trail[i + 1])
  }

  /**
    Any sequence of calls, whatever fails, is a run of the reference machine; the
    state-machine invariant holds in every reachable state; while no raw disk
    operation has failed memory and disk agree after every call; and after a commit
    that did not complete, no call but a cancel changes a single sector or field, so
    the redo information stays.
   */
  method Exercise(j: Journal, calls: seq<ApiCall>)
    returns (errs: seq<Err>, data: seq<seq<Sector>>, ghost trail: seq<ApiState>)
    requires Consistent(j)
    requires forall i :: 0 <= i < |calls| && calls[i].DoWrite? ==> OpFits(calls[i].op, j.host.vol.FsSectors())
    modifies j`master, j.host
    ensures Consistent(j)
    ensures ApiRun(j.host.vol, calls, errs, data, trail)
    ensures trail[0] == old(ApiNow(j)) && trail[|calls|] == ApiNow(j)
    ensures j.host.diskFailures >= old(j.host.diskFailures) && j.host.refusals >= old(j.host.refusals)
    ensures j.host.diskFailures == old(j.host.diskFailures) && old(j.Synced()) ==> j.Synced()
    ensures old(j.master.status) == COMMIT && (forall i :: 0 <= i < |calls| ==> !calls[i].DoCancel?) ==>
      && j.master == old(j.master) && j.host.image == old(j.host.image)
      && forall i :: 0 <= i < |calls| && !calls[i].DoRead? ==> errs[i] == InvalidState
  {
    hide RecordOf, Scan, MasterOf, ApiStep, SpecOk, Next, Broken;
    hide ApiNow;
    errs, data := [], [];
    trail := [ApiNow(j)];
    var n := 0;
    SpecFits(j);
    while n < |calls|
      invariant 0 <= n <= |calls| && |errs| == |data| == n && |trail| == n + 1
      invariant Consistent(j)
      invariant trail[0] == old(ApiNow(j)) && trail[n] == ApiNow(j)
      invariant forall i :: 0 <= i <= n ==> SpecOk(j.host.vol, trail[i].spec)
      invariant forall i :: 0 <= i < n ==> ApiStep(j.host.vol, trail[i], calls[i], errs[i], data[i], trail[i + 1])
      invariant j.host.diskFailures >= old(j.host.diskFailures) && j.host.refusals >= old(j.host.refusals)
      invariant j.host.diskFailures == old(j.host.diskFailures) && old(j.Synced()) ==> j.Synced()
      invariant old(j.master.status) == COMMIT && (forall i :: 0 <= i < |calls| ==> !calls[i].DoCancel?) ==>
        && j.master == old(j.master) && j.host.image == old(j.host.image)
        && forall i :: 0 <= i < n && !calls[i].DoRead? ==> errs[i] == InvalidState
    {
      ghost var s := ApiNow(j);
      NowParts(j);
      var err, d := Invoke(j, calls[n]);
      SpecFits(j);
      NowParts(j);
      StepParts(j.host.vol, s, calls[n], err, d, ApiNow(j));
      errs, data, trail := errs + [err], data + [d], trail + [ApiNow(j)];
      n := n + 1;
    }
  }

  lemma SpecFits(j: Journal)
    requires Consistent(j)
    ensures SpecOk(j.host.vol, SpecOf(j)) && ApiNow(j).spec == SpecOf(j)
  {
    hide Scan;
  }

  lemma NowParts(j: Journal)
    requires Consistent(j)
    ensures ApiNow(j).spec.status == j.master.status && ApiNow(j).faults == j.host.Faults()
  {
  }

  lemma StepParts(vol: Volume, s: ApiState, c: ApiCall, err: Err, data: seq<Sector>, s': ApiState)
    requires vol.Sound() && SpecOk(vol, s.spec) && (c.DoWrite? ==> OpFits(c.op, vol.FsSectors()))
    requires ApiStep(vol, s, c, err, data, s')
    ensures s.faults.disk <= s'.faults.disk && s.faults.heap <= s'.faults.heap
    ensures s.spec.status == COMMIT && !c.DoCancel? && !c.DoRead? ==> err == InvalidState
  {
  }

  /** Without failures the run is the one of the machine alone: every state and every answer. */
  ghost function RunSpec(vol: Volume, m: Spec, calls: seq<ApiCall>): (m': Spec)
    requires vol.Sound() && SpecOk(vol, m) && CallsInRange(calls, vol.FsSectors())
    ensures SpecOk(vol, m')
    decreases |calls|
  {
    if calls == [] then m else
      var last, init := calls[|calls| - 1], RunSpec(vol, m, calls[..|calls| - 1]);
      if Reply(vol, init, last) == Ok then Next(vol, init, last) else init
  }

  lemma {:induction false} QuietRun(vol: Volume, calls: seq<ApiCall>, errs: seq<Err>, data: seq<seq<Sector>>,
                                    trail: seq<ApiState>, n: nat)
    requires vol.Sound() && CallsInRange(calls, vol.FsSectors()) && n <= |calls|
    requires ApiRun(vol, calls, errs, data, trail) && trail[n].faults == trail[0].faults
    ensures trail[n].spec == RunSpec(vol, trail[0].spec, calls[..n])
    ensures n > 0 ==> errs[n - 1] == Reply(vol, RunSpec(vol, trail[0].spec, calls[..n - 1]), calls[n - 1])
    decreases n
  {
    hide Reply, Next, Window, SpecOk, Broken;
    if n > 0 {
      TrailMonotone(vol, calls, errs, data, trail, n - 1);
      assert ApiStep(vol, trail[n - 1], calls[n - 1], errs[n - 1], data[n - 1], trail[n]);
      QuietRun(vol, calls, errs, data, trail, n - 1);
      assert calls[..n][..n - 1] == calls[..n - 1];
    }
  }

  lemma {:induction false} TrailMonotone(vol: Volume, calls: seq<ApiCall>, errs: seq<Err>, data: seq<seq<Sector>>,
                                         trail: seq<ApiState>, n: nat)
    requires vol.Sound() && CallsInRange(calls, vol.FsSectors()) && n <= |calls|
    requires ApiRun(vol, calls, errs, data, trail)
    ensures trail[0].faults.disk <= trail[n].faults.disk && trail[0].faults.heap <= trail[n].faults.heap
    decreases n
  {
    hide ApiStep, SpecOk;
    if n > 0 {
      TrailMonotone(vol, calls, errs, data, trail, n - 1);
      StepParts(vol, trail[n - 1], calls[n - 1], errs[n - 1], data[n - 1], trail[n]);
    }
  }

  /**
    A commit that failed is finished later. From the state it left, after any calls
    but cancel and a reboot, what survives is what survived right then (by
    Journal.Commit: all operations if the mark was on disk, else the untouched
    file system); a mount that succeeds delivers exactly that, and one without
    failures succeeds whenever the mark was on disk.
   */
  method FinishLater(j: Journal, calls: seq<ApiCall>, cfg: Config) returns (mounted: Err)
    requires Consistent(j) && j.master.status == COMMIT
    requires Recoverable(j.host.vol, j.host.image)
    requires forall i :: 0 <= i < |calls| && calls[i].DoWrite? ==> OpFits(calls[i].op, j.host.vol.FsSectors())
    requires forall i :: 0 <= i < |calls| ==> !calls[i].DoCancel?
    requires cfg.Default() && cfg.storeSize == j.host.vol.storeSize
    modifies j`master, j.host
    ensures j.host.Valid() && Recoverable(j.host.vol, j.host.image)
    ensures j.host.diskFailures >= old(j.host.diskFailures) && j.host.refusals >= old(j.host.refusals)
    ensures Durable(j.host.vol, j.host.image) == Durable(j.host.vol, old(j.host.image))
    ensures mounted == Ok ==> j.FsView() == Durable(j.host.vol, old(j.host.image))
    ensures j.host.Failures() == old(j.host.Failures()) ==>
      (mounted == Ok <==> Mountable(j.host.vol, old(j.host.image), cfg))
    ensures j.host.Failures() == old(j.host.Failures()) && Committed(j.host.vol, old(j.host.image)) ==> mounted == Ok
  {
    hide RecordOf, Scan, MasterOf, ApplyOps, Mountable, Own, Recoverable, Committed, Durable;
    CommitMountable(j.host.vol, j.host.image, cfg);
    var errs, data, trail := Exercise(j, calls);
    j.host.powered := true;
    var again;
    mounted, again := Mount(j.host, cfg);
  }

  lemma CommitMountable(vol: Volume, img: Image, cfg: Config)
    requires vol.Sound() && Recoverable(vol, img) && cfg.Default()
    ensures Own(vol, img) && (Committed(vol, img) ==> Mountable(vol, img, cfg))
  {
    hide Scan, Redone, MasterOf, RecordOf;
    RedoneScan(vol, img, 0, MasterOf(img[vol.Last()]).nextFree);
  }

  /** An open transaction is committed, and finished by a reboot if that fails half-way. */
  method CommitOrFinish(j: Journal, calls: seq<ApiCall>, cfg: Config) returns (err: Err, mounted: Err)
    requires Consistent(j) && j.master.status == OPEN
    requires Recoverable(j.host.vol, j.host.image) && !Committed(j.host.vol, j.host.image)
    requires forall i :: 0 <= i < |calls| && calls[i].DoWrite? ==> OpFits(calls[i].op, j.host.vol.FsSectors())
    requires forall i :: 0 <= i < |calls| ==> !calls[i].DoCancel?
    requires cfg.Default() && cfg.storeSize == j.host.vol.storeSize
    modifies j`master, j.host
    ensures j.host.Valid() && Recoverable(j.host.vol, j.host.image)
    ensures
      var fs, all := old(j.FsView()), ApplyOps(old(j.FsView()), old(j.LogView()).ops);
      && Durable(j.host.vol, j.host.image) in {fs, all}
      && (j.host.Failures() == old(j.host.Failures()) ==> err == Ok)
      && (err == Ok ==> j.FsView() == Durable(j.host.vol, j.host.image) == all && j.master.status == READY)
      && (mounted == Ok ==> j.FsView() == Durable(j.host.vol, j.host.image))
      && (j.host.diskFailures == old(j.host.diskFailures) && old(j.Synced()) ==>
            Durable(j.host.vol, j.host.image) == all)
  {
    hide RecordOf, Scan, MasterOf, ApplyOps;
    mounted := InvalidState;
    err := j.Commit();
    if j.master.status == COMMIT {
      mounted := FinishLater(j, calls, cfg);
    }
  }

  // ------------------------------------------------------- direct execution

  /** Writes in direct mode: each goes straight to its target, the store is left alone. */
  method WriteAll(j: Journal, ops: seq<Op>) returns (ok: bool)
    requires j.Valid() && j.master.status == FS_DIRECT
    requires OpsFit(ops, j.host.vol.FsSectors())
    modifies j`master, j.host
    ensures j.Valid() && j.host.diskFailures >= old(j.host.diskFailures) && j.host.refusals >= old(j.host.refusals)
    ensures j.master == old(j.master) && SameOff(old(j.host.image), j.host.image, 0, j.host.vol.FsSectors())
    ensures ok <==> j.host.Failures() == old(j.host.Failures())
    ensures ok ==> j.FsView() == ApplyOps(old(j.FsView()), ops)
    ensures old(j.Synced()) ==> j.Synced()
  {
    hide RecordOf, Scan, MasterOf, Volume.Accepts, ApplyOps, Overwrite;
    ghost var vol, fs := j.host.vol, j.FsView();
    StoreBelow(vol);
    assert ops[..0] == [];
    ApplyNone(fs);
    ok := true;
    var n := 0;
    while ok && n < |ops|
      invariant 0 <= n <= |ops|
      invariant j.Valid() && j.master == old(j.master)
      invariant j.host.diskFailures >= old(j.host.diskFailures) && j.host.refusals >= old(j.host.refusals)
      invariant SameOff(old(j.host.image), j.host.image, 0, vol.FsSectors())
      invariant ok <==> j.host.Failures() == old(j.host.Failures())
      invariant ok ==> j.FsView() == ApplyOps(fs, ops[..n])
      decreases |ops| - n, ok
    {
      ghost var img, prefix := j.host.image, ops[..n];
      var err := j.Write(ops[n].target, ops[n].data, |ops[n].data|);
      ok := err == Ok;
      assert ops[..n + 1] == prefix + [ops[n]];
      ApplyAppend(fs, prefix, [ops[n]]);
      ApplyOne(Fs(vol, img), ops[n]);
      OverwriteFs(vol, img, ops[n]);
      n := n + 1;
    }
    assert ok ==> ops[..n] == ops;
  }

  /** Direct mode: switched on for the writes, and off again. */
  method RunDirect(j: Journal, ops: seq<Op>) returns (ok: bool)
    requires j.Valid() && j.master.status in {READY, FS_DIRECT}
    requires OpsFit(ops, j.host.vol.FsSectors())
    modifies j`master, j.host
    ensures j.Valid() && j.host.diskFailures >= old(j.host.diskFailures) && j.host.refusals >= old(j.host.refusals)
    ensures ok <==> j.host.Failures() == old(j.host.Failures())
    ensures ok ==> j.FsView() == ApplyOps(old(j.FsView()), ops) && j.master.status == READY
  {
    hide RecordOf, Scan, MasterOf, Volume.Accepts, ApplyOps;
    var err := j.SetDirectIo(true);
    ok := err == Ok;
    if ok {
      ok := WriteAll(j, ops);
      if ok {
        err := j.SetDirectIo(false);
        ok := err == Ok;
      }
    }
  }

  /**
    A power loss in direct mode, at any point between two writes: no default mount
    succeeds from then on, and none changes a sector.
   */
  method LoseDirectMode(j: Journal, cfg: Config, tries: nat) returns (errs: seq<Err>)
    requires j.Valid() && j.master.status == FS_DIRECT && j.Synced()
    requires cfg.Default() && cfg.storeSize == j.host.vol.storeSize
    modifies j.host
    ensures j.host.Valid() && j.host.image == old(j.host.image)
    ensures |errs| == tries && Ok !in errs
    ensures j.host.Failures() == old(j.host.Failures()) ==> forall i :: 0 <= i < tries ==> errs[i] == Aborted
  {
    hide RecordOf, Scan, MasterOf, ApplyOps;
    errs := [];
    while |errs| < tries
      invariant j.host.Valid() && j.host.image == old(j.host.image)
      invariant j.host.diskFailures >= old(j.host.diskFailures) && j.host.refusals >= old(j.host.refusals)
      invariant |errs| <= tries && Ok !in errs
      invariant j.host.Failures() == old(j.host.Failures()) ==> forall i :: 0 <= i < |errs| ==> errs[i] == Aborted
    {
      j.host.powered := true;
      var err, none := Mount(j.host, cfg);
      errs := errs + [err];
    }
  }

  lemma OverwriteFs(vol: Volume, img: Image, op: Op)
    requires vol.Sound() && |img| == vol.sectors && OpFits(op, vol.FsSectors())
    ensures Fs(vol, Overwrite(img, op.target, op.data)) == Overwrite(Fs(vol, img), op.target, op.data)
  {
  }

  /** The same writes through the log: start, write each, commit. */
  method RunJournaled(j: Journal, ops: seq<Op>) returns (ok: bool)
    requires j.Valid() && j.master.status == READY && Settled(j.host.vol, j.host.image)
    requires OpsFit(ops, j.host.vol.FsSectors())
    modifies j`master, j.host
    ensures j.Valid() && j.host.diskFailures >= old(j.host.diskFailures) && j.host.refusals >= old(j.host.refusals)
    ensures ok ==> j.FsView() == ApplyOps(old(j.FsView()), ops) && j.master.status == READY
    ensures !ok && j.master.status == OPEN ==> j.FsView() == old(j.FsView())
    ensures Recoverable(j.host.vol, j.host.image)
    ensures Durable(j.host.vol, j.host.image) in {old(j.FsView()), ApplyOps(old(j.FsView()), ops)}
    ensures j.host.Failures() == old(j.host.Failures()) ==> (ok <==> LogSize(ops) + 2 <= j.host.vol.storeSize)
  {
    hide RecordOf, Scan, MasterOf, Volume.Accepts, ApplyOps;
    ghost var vol, fs := j.host.vol, j.FsView();
    StoreBelow(vol);
    var err := j.Start();
    if err != Ok {
      return false;
    }
    assert ops[..0] == [];
    var n := 0;
    while n < |ops|
      invariant 0 <= n <= |ops|
      invariant j.Valid()
      invariant j.master.status == OPEN
      invariant j.host.diskFailures >= old(j.host.diskFailures) && j.host.refusals >= old(j.host.refusals)
      invariant Recoverable(vol, j.host.image) && !Committed(vol, j.host.image)
      invariant j.FsView() == fs && j.LogView() == Clean(ops[..n])
    {
      ghost var done, op, rest := ops[..n], ops[n], ops[n + 1..];
      assert ops == (done + [op]) + rest && ops[..n + 1] == done + [op];
      LogSizeAppend(done + [op], rest);
      LogSizeAppend(done, [op]);
      assert [op][1..] == [];
      err := j.Write(ops[n].target, ops[n].data, |ops[n].data|);
      if err != Ok {
        return false;
      }
      n := n + 1;
    }
    assert ops[..n] == ops;
    err := j.Commit();
    ok := err == Ok;
  }

  /** Journaled execution refines direct execution. */
  method SameAsDirect(journaled: Journal, direct: Journal, ops: seq<Op>) returns (ok: bool)
    requires journaled.host != direct.host && journaled != direct
    requires journaled.Valid() && direct.Valid() && journaled.host.vol == direct.host.vol
    requires journaled.master.status == READY == direct.master.status
    requires Settled(journaled.host.vol, journaled.host.image)
    requires journaled.FsView() == direct.FsView()
    requires OpsFit(ops, direct.host.vol.FsSectors())
    modifies journaled`master, journaled.host, direct`master, direct.host
    ensures journaled.Valid() && direct.Valid()
    ensures ok ==>
      && journaled.FsView() == direct.FsView() == ApplyOps(old(direct.FsView()), ops)
      && journaled.master.status == READY == direct.master.status
    ensures journaled.host.Failures() == old(journaled.host.Failures())
            && direct.host.Failures() == old(direct.host.Failures()) ==>
      (ok <==> LogSize(ops) + 2 <= journaled.host.vol.storeSize)
  {
    hide RecordOf, Scan, MasterOf, Volume.Accepts, ApplyOps;
    var logged := RunJournaled(journaled, ops);
    var written := RunDirect(direct, ops);
    ok := logged && written;
  }

  // ------------------------------------------------------- cancel and commit

  /** The images an interrupted replay of the commit on `img` may leave behind. */
  ghost predicate MidReplay(vol: Volume, img: Image, b: Image)
    requires vol.Sound() && |img| == vol.sectors
  {
    && Shaped(vol, b)
    && SameOff(img, b, 0, vol.FsSectors())
    && AgreeOff(Fs(vol, img), Fs(vol, b), Pending(vol, img))
  }

  /** Resetting the record keeps what survives, wherever the replay had stopped. */
  ghost predicate CancelSafe(vol: Volume, img: Image)
    requires vol.Sound() && |img| == vol.sectors
  {
    forall b :: MidReplay(vol, img, b) ==> Durable(vol, b) == Fs(vol, b)
  }

  /**
    esp_jrnl_stop(false) makes the region as it stands the surviving one. That
    keeps the surviving file system, for every point a replay may have reached, if
    and only if there is no committed log: the status on disk is not COMMIT, or
    the log is empty. After a failed commit a cancel loses the transaction.
   */
  lemma CancelSafeExactly(vol: Volume, img: Image)
    requires vol.Sound() && Recoverable(vol, img) && Shaped(vol, img)
    ensures CancelSafe(vol, img) <==> !Committed(vol, img) || MasterOf(img[vol.Last()]).nextFree == 0
  {
    hide RecordOf, Scan, MasterOf, Volume.Accepts, ApplyOps;
    var ops := Pending(vol, img);
    assert ops == [] <==> !Committed(vol, img) || MasterOf(img[vol.Last()]).nextFree == 0 by {
      if Committed(vol, img) && ops != [] {
        assert LogSize(ops) >= OpSize(ops[0]);
      }
    }
    if ops == [] {
      forall b | MidReplay(vol, img, b)
        ensures Durable(vol, b) == Fs(vol, b)
      {
        if Committed(vol, img) {
          ReplayKeepsDurable(vol, img, b);
        }
        NothingPending(vol, b);
      }
    } else {
      var b := TornTarget(vol, img);
      assert MidReplay(vol, img, b);
    }
  }

  function Zeros(vol: Volume): (s: Sector)
    ensures |s| == vol.sectorSize
  {
    seq(vol.sectorSize, i => 0)
  }

  /**
    A replay stopped between the erase and the write of a target, or in that
    write if the target is to be blank: the region is not what survives.
   */
  lemma TornTarget(vol: Volume, img: Image) returns (b: Image)
    requires vol.Sound() && Recoverable(vol, img) && Shaped(vol, img) && Pending(vol, img) != []
    ensures MidReplay(vol, img, b) && Durable(vol, b) != Fs(vol, b)
  {
    hide RecordOf, Scan, MasterOf, Volume.Accepts, ApplyOps;
    var ops, end := Pending(vol, img), Durable(vol, img);
    var i := ops[0].target;
    assert OpFits(ops[0], vol.FsSectors()) && InOp(ops[0], i);
    var torn := if end[i] == vol.Blank() then Zeros(vol) else vol.Blank();
    assert Zeros(vol)[0] != vol.Blank()[0];
    b := img[i := torn];
    assert Hit(ops, i);
    ReplayKeepsDurable(vol, img, b);
    assert Fs(vol, b)[i] == torn;
  }

  /**
    An erased volume after the commit mark of its first transaction, one write of
    `data` to sector `target`, whose replay has not begun.
   */
  function CommitImage(vol: Volume, target: Word, data: Sector): (img: Image)
    requires vol.Sound() && 4 <= vol.storeSize < vol.sectors
    ensures |img| == vol.sectors
  {
    var base := vol.FsSectors();
    var header := HeaderSector(vol, OperHeader(target, 1, vol.checksum(Flatten([data]))));
    seq(base, i => vol.Blank()) + [header, data] + seq(vol.storeSize - 3, i => vol.Blank())
    + [MasterBytes(RecordFor(vol, COMMIT, 2)) + seq(vol.sectorSize - MASTER_BYTES, i => 0)]
  }

  lemma CommitImageRead(vol: Volume, target: Word, data: Sector)
    requires vol.Sound() && 4 <= vol.storeSize < vol.sectors && |data| == vol.sectorSize
    ensures var img, base := CommitImage(vol, target, data), vol.FsSectors();
      && Shaped(vol, img) && Committed(vol, img) && MasterOf(img[vol.Last()]) == RecordFor(vol, COMMIT, 2)
      && vol.HeaderOk(img[base]) && img[base + 1..base + 2] == [data]
      && HeaderOf(img[base]) == OperHeader(target, 1, vol.checksum(Flatten([data])))
      && forall i :: 0 <= i < base ==> img[i] == vol.Blank()
  {
    hide MasterOf, WordAt, HeaderOf, Volume.HeaderOk;
    MasterRoundTrip(RecordFor(vol, COMMIT, 2), seq(vol.sectorSize - MASTER_BYTES, i => 0));
    HeaderRoundTrip(vol, OperHeader(target, 1, vol.checksum(Flatten([data]))));
  }

  /** The commit of a zero sector to sector 0. */
  function FirstCommit(vol: Volume): (img: Image)
    requires vol.Sound() && 4 <= vol.storeSize < vol.sectors
    ensures |img| == vol.sectors
  {
    CommitImage(vol, 0, Zeros(vol))
  }

  lemma FirstCommitPending(vol: Volume)
    requires vol.Sound() && 4 <= vol.storeSize < vol.sectors
    ensures var img := FirstCommit(vol);
      && Shaped(vol, img) && Recoverable(vol, img) && Committed(vol, img)
      && Pending(vol, img) == [Op(0, [Zeros(vol)])]
      && Durable(vol, img) != Fs(vol, img)
  {
    hide MasterOf, WordAt, ApplyOps, Scan, RecordOf, CommitImage, HeaderOf, Volume.HeaderOk;
    var img, op := FirstCommit(vol), Op(0, [Zeros(vol)]);
    CommitImageRead(vol, 0, Zeros(vol));
    assert img[vol.FsSectors() + 1] == img[vol.FsSectors() + 1..vol.FsSectors() + 2][0];
    RecordWritten(vol, img, 0, op);
    ScanEnd(vol, img, 0);
    ScanAppend(vol, img, 0, 0, op);
    assert [] + [op] == [op];
    ApplyOne(Fs(vol, img), op);
    assert Fs(vol, img)[0] == vol.Blank() && Zeros(vol)[0] != vol.Blank()[0];
  }

  /**
    On that image of any volume with room for a transaction, a cancel that
    succeeds loses the committed write.
   */
  method CancelLosesCommit(j: Journal) returns (err: Err)
    requires j.Valid() && 4 <= j.host.vol.storeSize < j.host.vol.sectors
    requires j.host.image == FirstCommit(j.host.vol)
    modifies j`master, j.host
    ensures j.host.Valid() && Committed(j.host.vol, old(j.host.image)) && Shaped(j.host.vol, old(j.host.image))
    ensures err == Ok <==> j.host.Failures() == old(j.host.Failures())
    ensures err == Ok ==>
      Settled(j.host.vol, j.host.image) && Durable(j.host.vol, j.host.image) != Durable(j.host.vol, old(j.host.image))
  {
    hide MasterOf, WordAt, ApplyOps, Scan, RecordOf, FirstCommit;
    FirstCommitPending(j.host.vol);
    err := j.Cancel();
  }

  // ------------------------------------------------------- a target in the store

  /** A sector that is no record header, for any checksum. */
  function NoHeader(vol: Volume): (s: Sector)
    requires vol.Sound()
    ensures |s| == vol.sectorSize && !vol.HeaderOk(s)
  {
    var body := WordBytes(0) + WordBytes(0) + WordBytes(0);
    var crc := Add32(vol.checksum(body), 1);
    var s := body + WordBytes(crc) + seq(vol.sectorSize - 16, i => 0);
    WordFound(s, body, crc, seq(vol.sectorSize - 16, i => 0));
    assert s[..HEADER_BYTES] == body;
    s
  }

  /**
    esp_jrnl_write checks no target, and replay checks none either. With a record
    whose target is its own header sector replay is not restartable: the first run
    succeeds, and one that starts over from the disk it leaves finds a bad
    checksum, so a power loss before the record is closed bars every default mount.
   */
  lemma StrayNotRestartable(vol: Volume, cfg: Config)
    requires vol.Sound() && 4 <= vol.storeSize < vol.sectors && cfg.Default()
    ensures var img := CommitImage(vol, RecordFor(vol, COMMIT, 2).offset, NoHeader(vol));
      && Shaped(vol, img) && Committed(vol, img) && Own(vol, img)
      && Resumed(vol, img).err == Ok && Mountable(vol, img, cfg)
      && var left := Resumed(vol, img).img;
      Committed(vol, left) && Resumed(vol, left).err == InvalidCrc && !Mountable(vol, left, cfg)
  {
    hide MasterOf, WordAt, WordBytes, HeaderOf, Volume.HeaderOk, Redone, CommitImage, NoHeader;
    var base, data := RecordFor(vol, COMMIT, 2).offset, NoHeader(vol);
    var img := CommitImage(vol, base, data);
    CommitImageRead(vol, base, data);
    SectorAddress(vol, base, 1);
    assert !vol.Vast(1);
    assert RecordOf(vol, img, 0, 2) == Stray(base, [data]);
    RedoneStep(vol, img, 0, 2);
    var left := Overwrite(img, base, [data]);
    RedoneEnd(vol, left, 2, 2);
    assert left[base] == data && left[vol.Last()] == img[vol.Last()];
    RedoneStep(vol, left, 0, 2);
  }
}
