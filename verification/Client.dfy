/**
  The journal's only client, the wrappers of srcs/fatfs/vfs/vfs_jrnl_fat.c: every
  file-system call runs between esp_jrnl_start and esp_jrnl_stop. The call itself
  (FatFS) is any finite list of in-range sector reads and writes and a verdict.
 */
module Client {
  import opened Layout
  import opened Log
  import opened Durability
  import opened HostDevice
  import opened JournalInstance

  datatype Access = Put(op: Op) | Get(sector: Word, count: Word)
  datatype Reply = Wrote(err: Err) | Got(err: Err, data: seq<Sector>)

  ghost predicate InRange(accesses: seq<Access>, size: int)
  {
    forall i :: 0 <= i < |accesses| && accesses[i].Put? ==> OpFits(accesses[i].op, size)
  }

  function Puts(accesses: seq<Access>): seq<Op>
  {
    if accesses == [] then [] else
      var a := accesses[|accesses| - 1];
      Puts(accesses[..|accesses| - 1]) + if a.Put? then [a.op] else []
  }

  lemma OpsFitParts(a: seq<Op>, b: seq<Op>, size: int)
    ensures OpsFit(a + b, size) <==> OpsFit(a, size) && OpsFit(b, size)
  {
    hide OpFits;
    if OpsFit(a + b, size) {
      assert forall i :: 0 <= i < |a| ==> a[i] == (a + b)[i];
      assert forall i :: 0 <= i < |b| ==> b[i] == (a + b)[|a| + i];
    }
  }

  /** A call is in range exactly when its writes are operations of the region. */
  lemma {:induction false} InRangePuts(accesses: seq<Access>, size: int)
    ensures InRange(accesses, size) <==> OpsFit(Puts(accesses), size)
    decreases |accesses|
  {
    hide OpFits;
    if accesses != [] {
      var n := |accesses| - 1;
      var a, init := accesses[n], accesses[..n];
      InRangePuts(init, size);
      assert InRange(accesses, size) <==> InRange(init, size) && (a.Put? ==> OpFits(a.op, size));
      var puts, more := Puts(init), if a.Put? then [a.op] else [];
      assert Puts(accesses) == puts + more;
      OpsFitParts(puts, more, size);
      if a.Put? {
        assert OpsFit(more, size) <==> OpFits(more[0], size);
      }
    }
  }

  /** The writes a log with `used` sectors taken has room for, each in its turn. */
  function Admitted(vol: Volume, used: nat, accesses: seq<Access>): seq<Op>
  {
    if accesses == [] then [] else
      var a, kept := accesses[|accesses| - 1], Admitted(vol, used, accesses[..|accesses| - 1]);
      if a.Put? && Room(vol, used + LogSize(kept), a.op) then kept + [a.op] else kept
  }

  /**
    `kept` is a subsequence of the writes that leaves out none of those that
    were answered Ok.
   */
  ghost predicate Selected(accesses: seq<Access>, replies: seq<Reply>, kept: seq<Op>)
    decreases |accesses|
  {
    && |replies| == |accesses|
    && if accesses == [] then kept == [] else
         var n := |accesses| - 1;
         var a := accesses[n];
         || (a.Put? && kept != [] && kept[|kept| - 1] == a.op && Selected(accesses[..n], replies[..n], kept[..|kept| - 1]))
         || ((a.Put? ==> replies[n].err != Ok) && Selected(accesses[..n], replies[..n], kept))
  }

  /** What a read may return: sectors of `fs`, the requested ones unless the sum wraps. */
  ghost predicate ReadFrom(fs: Image, sector: Word, count: Word, data: seq<Sector>)
  {
    var end := Add32(sector, count);
    && |data| <= end < |fs| && data == fs[end - |data|..end]
    && (sector + count < |fs| ==> data == fs[sector..sector + count])
  }

  ghost predicate Isolated(fs: Image, accesses: seq<Access>, replies: seq<Reply>)
  {
    && |replies| == |accesses|
    && forall i :: 0 <= i < |accesses| && accesses[i].Get? && replies[i].err == Ok ==>
         replies[i].Got? && ReadFrom(fs, accesses[i].sector, accesses[i].count, replies[i].data)
  }

  /**
    One access of an open transaction on the region `fs` with `used` log sectors
    taken: everything it may answer, the writes `more` it logs, and the failures
    below it, `io` of the disk and `heap` of the allocator. The answer Io of a
    write leaves open whether the write is in the log.
   */
  ghost predicate Answer(vol: Volume, used: nat, fs: Image, a: Access, r: Reply, more: seq<Op>, io: nat, heap: nat)
    requires vol.Sound() && |fs| == vol.FsSectors()
  {
    match a
    case Put(op) =>
      && r.Wrote?
      && if !Room(vol, used, op) then
           r.err == NoMem && more == [] && io == 0 && heap == 0
         else
           || (r.err == Ok && more == [op] && io == 0 && heap == 0)
           || (r.err == NoMem && more == [] && io == 0 && heap == 1)
           || (r.err == Io && (more == [] || more == [op]) && io == 1 && heap == 0)
    case Get(sector, count) =>
      && r.Got? && more == [] && heap == 0
      && if !Readable(vol, sector, count) then
           r.err == InvalidSize && io == 0
         else
           || (r.err == Ok && io == 0 && r.data == Window(vol, fs, sector, count))
           || (r.err == Io && io == 1)
  }

  /** The same for a whole call: each access in its turn, `kept` the writes logged. */
  ghost predicate Answered(vol: Volume, used: nat, fs: Image, accesses: seq<Access>,
                           replies: seq<Reply>, kept: seq<Op>, io: nat, heap: nat)
    requires vol.Sound() && |fs| == vol.FsSectors()
    decreases |accesses|
  {
    && |replies| == |accesses|
    && if accesses == [] then kept == [] && io == 0 && heap == 0 else
         var n := |accesses| - 1;
         exists cut: nat, i: nat, h: nat :: cut <= |kept| && i <= io && h <= heap
           && Answered(vol, used, fs, accesses[..n], replies[..n], kept[..cut], i, h)
           && Answer(vol, used + LogSize(kept[..cut]), fs, accesses[n], replies[n], kept[cut..], io - i, heap - h)
  }

  /** The answers of a call while nothing fails below: exactly the admitted writes succeed. */
  ghost predicate Truthful(vol: Volume, used: nat, fs: Image, accesses: seq<Access>, replies: seq<Reply>)
    requires vol.Sound() && |fs| == vol.FsSectors()
  {
    && |replies| == |accesses|
    && forall i :: 0 <= i < |accesses| ==>
         TruthfulAt(vol, used, fs, accesses[i], Admitted(vol, used, accesses[..i]), replies[i])
  }

  ghost predicate TruthfulAt(vol: Volume, used: nat, fs: Image, a: Access, kept: seq<Op>, r: Reply)
    requires vol.Sound() && |fs| == vol.FsSectors()
  {
    match a
    case Put(op) => r.err == if Room(vol, used + LogSize(kept), op) then Ok else NoMem
    case Get(sector, count) => r.err == if Readable(vol, sector, count) then Ok else InvalidSize
  }

  lemma SelectedStep(accesses: seq<Access>, replies: seq<Reply>, kept: seq<Op>, n: nat, r: Reply, more: seq<Op>)
    requires n < |accesses|
    requires Selected(accesses[..n], replies, kept)
    requires (more == [] && (accesses[n].Put? ==> r.err != Ok)) || (accesses[n].Put? && more == [accesses[n].op])
    ensures Selected(accesses[..n + 1], replies + [r], kept + more)
  {
    var acc, rep, k := accesses[..n + 1], replies + [r], kept + more;
    assert acc[..n] == accesses[..n] && rep[..n] == replies && acc[n] == accesses[n] && rep[n] == r;
    if more == [] {
      assert k == kept;
    } else {
      assert k[..|k| - 1] == kept && k[|k| - 1] == accesses[n].op;
    }
  }

  lemma AdmittedStep(vol: Volume, used: nat, accesses: seq<Access>, n: nat)
    requires n < |accesses|
    ensures
      var kept, a := Admitted(vol, used, accesses[..n]), accesses[n];
      Admitted(vol, used, accesses[..n + 1]) ==
        if a.Put? && Room(vol, used + LogSize(kept), a.op) then kept + [a.op] else kept
  {
    assert accesses[..n + 1][..n] == accesses[..n];
  }

  lemma TruthfulStep(vol: Volume, used: nat, fs: Image, accesses: seq<Access>, replies: seq<Reply>, n: nat, r: Reply)
    requires vol.Sound() && |fs| == vol.FsSectors()
    requires n < |accesses| && Truthful(vol, used, fs, accesses[..n], replies)
    requires TruthfulAt(vol, used, fs, accesses[n], Admitted(vol, used, accesses[..n]), r)
    ensures Truthful(vol, used, fs, accesses[..n + 1], replies + [r])
  {
    hide TruthfulAt, Admitted;
    forall i | 0 <= i < n + 1
      ensures TruthfulAt(vol, used, fs, accesses[..n + 1][i],
                         Admitted(vol, used, accesses[..n + 1][..i]), (replies + [r])[i])
    {
      assert accesses[..n + 1][..i] == accesses[..i];
      if i < n {
        assert accesses[..n][..i] == accesses[..i] && accesses[..n][i] == accesses[i];
      }
    }
  }

  lemma IsolatedStep(fs: Image, accesses: seq<Access>, replies: seq<Reply>, n: nat, r: Reply)
    requires n < |accesses| && Isolated(fs, accesses[..n], replies)
    requires accesses[n].Get? && r.err == Ok ==> r.Got? && ReadFrom(fs, accesses[n].sector, accesses[n].count, r.data)
    ensures Isolated(fs, accesses[..n + 1], replies + [r])
  {
    hide ReadFrom;
  }

  lemma NoneAnswered(vol: Volume, used: nat, fs: Image, accesses: seq<Access>)
    requires vol.Sound() && |fs| == vol.FsSectors()
    ensures Answered(vol, used, fs, accesses[..0], [], [], 0, 0)
  {
  }

  /** One more access. */
  lemma AnsweredStep(vol: Volume, used: nat, fs: Image, accesses: seq<Access>, n: nat, replies: seq<Reply>,
                     kept: seq<Op>, io: nat, heap: nat, r: Reply, more: seq<Op>, io': nat, heap': nat)
    requires vol.Sound() && |fs| == vol.FsSectors() && n < |accesses| && io <= io' && heap <= heap'
    requires Answered(vol, used, fs, accesses[..n], replies, kept, io, heap)
    requires Answer(vol, used + LogSize(kept), fs, accesses[n], r, more, io' - io, heap' - heap)
    ensures Answered(vol, used, fs, accesses[..n + 1], replies + [r], kept + more, io', heap')
  {
    hide Answer, LogSize;
    var acc, rep, all := accesses[..n + 1], replies + [r], kept + more;
    assert acc[..n] == accesses[..n] && rep[..n] == replies && acc[n] == accesses[n] && rep[n] == r;
    assert all[..|kept|] == kept && all[|kept|..] == more;
    assert Answered(vol, used, fs, acc[..n], rep[..n], all[..|kept|], io, heap);
  }

  lemma AnswerMeans(vol: Volume, used: nat, fs: Image, a: Access, r: Reply, more: seq<Op>, io: nat, heap: nat)
    requires vol.Sound() && |fs| == vol.FsSectors()
    requires Answer(vol, used, fs, a, r, more, io, heap)
    ensures more == [] || (a.Put? && more == [a.op])
    ensures a.Put? && r.err == Ok ==> more == [a.op]
    ensures a.Get? && r.err == Ok ==> r.Got? && ReadFrom(fs, a.sector, a.count, r.data)
    ensures io == 0 && heap == 0 ==>
      && more == (if a.Put? && Room(vol, used, a.op) then [a.op] else [])
      && r.err == (match a
                   case Put(op) => if Room(vol, used, op) then Ok else NoMem
                   case Get(sector, count) => if Readable(vol, sector, count) then Ok else InvalidSize)
  {
    if a.Get? && r.err == Ok && a.sector + a.count < |fs| {
      WindowExact(vol, fs, a.sector, a.count);
    }
  }

  lemma AnsweredSplit(vol: Volume, used: nat, fs: Image, accesses: seq<Access>, replies: seq<Reply>,
                      kept: seq<Op>, io: nat, heap: nat) returns (cut: nat, i: nat, h: nat)
    requires vol.Sound() && |fs| == vol.FsSectors() && accesses != []
    requires Answered(vol, used, fs, accesses, replies, kept, io, heap)
    ensures |replies| == |accesses| && cut <= |kept| && i <= io && h <= heap
    ensures var n := |accesses| - 1;
      && Answered(vol, used, fs, accesses[..n], replies[..n], kept[..cut], i, h)
      && Answer(vol, used + LogSize(kept[..cut]), fs, accesses[n], replies[n], kept[cut..], io - i, heap - h)
  {
    hide Answer;
    var n := |accesses| - 1;
    cut, i, h :| cut <= |kept| && i <= io && h <= heap
      && Answered(vol, used, fs, accesses[..n], replies[..n], kept[..cut], i, h)
      && Answer(vol, used + LogSize(kept[..cut]), fs, accesses[n], replies[n], kept[cut..], io - i, heap - h);
  }

  lemma NoAccess(vol: Volume, used: nat, fs: Image, replies: seq<Reply>, kept: seq<Op>, io: nat, heap: nat)
    requires vol.Sound() && |fs| == vol.FsSectors()
    requires Answered(vol, used, fs, [], replies, kept, io, heap)
    ensures replies == [] && kept == [] && Selected([], replies, kept) && Isolated(fs, [], replies)
    ensures OpsFit(kept, |fs|) && kept == Admitted(vol, used, []) && Truthful(vol, used, fs, [], replies)
  {
  }

  lemma RangeParts(accesses: seq<Access>, size: int, n: nat)
    requires InRange(accesses, size) && n < |accesses|
    ensures InRange(accesses[..n], size) && (accesses[n].Put? ==> OpFits(accesses[n].op, size))
  {
    hide OpFits;
  }

  lemma KeptParts(kept: seq<Op>, cut: nat, size: int)
    requires cut <= |kept| && OpsFit(kept[..cut], size)
    requires kept[cut..] == [] || (exists op :: kept[cut..] == [op] && OpFits(op, size))
    ensures OpsFit(kept, size)
  {
    hide OpFits;
    forall i | 0 <= i < |kept|
      ensures OpFits(kept[i], size)
    {
      if i < cut {
        assert kept[..cut][i] == kept[i];
      } else {
        assert kept[cut..][i - cut] == kept[i];
      }
    }
  }

  /**
    What the answers amount to, whatever failed: what was acknowledged is in the
    log, and every accepted read saw the region as it was. When nothing failed the
    log holds exactly the admitted writes, and no others were refused.
   */
  lemma {:induction false} AnsweredMeans(vol: Volume, used: nat, fs: Image, accesses: seq<Access>,
                                         replies: seq<Reply>, kept: seq<Op>, io: nat, heap: nat)
    requires vol.Sound() && |fs| == vol.FsSectors() && InRange(accesses, |fs|)
    requires Answered(vol, used, fs, accesses, replies, kept, io, heap)
    ensures Selected(accesses, replies, kept) && Isolated(fs, accesses, replies) && OpsFit(kept, |fs|)
    ensures io == 0 && heap == 0 ==>
      kept == Admitted(vol, used, accesses) && Truthful(vol, used, fs, accesses, replies)
    decreases |accesses|
  {
    hide Answered, Answer, Selected, Isolated, Admitted, Truthful, ReadFrom, Room, Readable, LogSize, OpsFit, OpFits;
    if accesses == [] {
      NoAccess(vol, used, fs, replies, kept, io, heap);
    } else {
      var n := |accesses| - 1;
      var cut, i, h := AnsweredSplit(vol, used, fs, accesses, replies, kept, io, heap);
      RangeParts(accesses, |fs|, n);
      AnsweredMeans(vol, used, fs, accesses[..n], replies[..n], kept[..cut], i, h);
      AnswerMeans(vol, used + LogSize(kept[..cut]), fs, accesses[n], replies[n], kept[cut..], io - i, heap - h);
      KeptParts(kept, cut, |fs|);
      assert accesses[..n + 1] == accesses && replies[..n] + [replies[n]] == replies;
      assert kept[..cut] + kept[cut..] == kept;
      SelectedStep(accesses, replies[..n], kept[..cut], n, replies[n], kept[cut..]);
      IsolatedStep(fs, accesses, replies[..n], n, replies[n]);
      if io == 0 && heap == 0 {
        AdmittedStep(vol, used, accesses, n);
        TruthfulStep(vol, used, fs, accesses, replies[..n], n, replies[n]);
      }
    }
  }

  /** Between wrapper calls: recoverable, and nothing left to redo when READY. */
  ghost predicate Calm(j: Journal)
    reads j, j.host
  {
    && j.Valid() && j.master.status != FS_DIRECT
    && Recoverable(j.host.vol, j.host.image)
    && (j.master.status == READY ==> Settled(j.host.vol, j.host.image))
  }

  /** An open transaction: a clean log, and nothing committed on disk. */
  ghost predicate InTransaction(j: Journal)
    reads j, j.host
  {
    && j.Valid() && j.master.status == OPEN
    && Recoverable(j.host.vol, j.host.image) && !Committed(j.host.vol, j.host.image)
    && j.LogView().Clean?
  }

  /** One access of an open transaction; `more` is what it added to the log. */
  method Serve(j: Journal, a: Access) returns (reply: Reply, more: seq<Op>)
    requires InTransaction(j)
    requires a.Put? ==> OpFits(a.op, j.host.vol.FsSectors())
    modifies j`master, j.host
    ensures InTransaction(j)
    ensures j.host.diskFailures >= old(j.host.diskFailures) && j.host.refusals >= old(j.host.refusals)
    ensures j.host.powered ==> old(j.host.powered)
    ensures j.LogView().ops == old(j.LogView()).ops + more
    ensures j.FsView() == old(j.FsView())
    ensures Answer(j.host.vol, LogSize(old(j.LogView()).ops), old(j.FsView()), a, reply, more,
                   j.host.diskFailures - old(j.host.diskFailures), j.host.refusals - old(j.host.refusals))
    ensures j.host.diskFailures == old(j.host.diskFailures) && old(j.Synced()) ==> j.Synced()
  {
    hide RecordOf, Scan, MasterOf, Volume.Accepts, ApplyOps, Durable, Window, Readable;
    StoreBelow(j.host.vol);
    more := [];
    match a {
      case Put(op) =>
        var m := j.master;
        var err := j.Write(op.target, op.data, |op.data|);
        reply := Wrote(err);
        if j.master != m {
          more := [op];
        }
      case Get(sector, count) =>
        var err, data := j.Read(sector, count);
        reply := Got(err, data);
        assert j.LogView().ops + [] == j.LogView().ops;
    }
  }

  /**
    The file-system call inside an open transaction, whatever fails below. Every
    access is answered as `Answer` says, with the failures it met and no others:
    the region does not change, every accepted read sees it as it was, and the log
    grows by exactly the writes it keeps.
   */
  method Perform(j: Journal, accesses: seq<Access>) returns (replies: seq<Reply>, kept: seq<Op>)
    requires InTransaction(j)
    requires InRange(accesses, j.host.vol.FsSectors())
    modifies j`master, j.host
    ensures InTransaction(j)
    ensures j.host.diskFailures >= old(j.host.diskFailures) && j.host.refusals >= old(j.host.refusals)
    ensures j.host.powered ==> old(j.host.powered)
    ensures j.LogView().ops == old(j.LogView()).ops + kept
    ensures j.FsView() == old(j.FsView())
    ensures Answered(j.host.vol, LogSize(old(j.LogView()).ops), old(j.FsView()), accesses, replies, kept,
                     j.host.diskFailures - old(j.host.diskFailures), j.host.refusals - old(j.host.refusals))
    ensures Selected(accesses, replies, kept) && OpsFit(kept, j.host.vol.FsSectors())
    ensures Isolated(old(j.FsView()), accesses, replies)
    ensures j.host.Failures() == old(j.host.Failures()) ==>
      var used := LogSize(old(j.LogView()).ops);
      kept == Admitted(j.host.vol, used, accesses) && Truthful(j.host.vol, used, old(j.FsView()), accesses, replies)
    ensures j.host.diskFailures == old(j.host.diskFailures) && old(j.Synced()) ==> j.Synced()
  {
    hide RecordOf, Scan, MasterOf, Volume.Accepts, Recoverable, Committed, Answer, Answered;
    hide Selected, Isolated, Admitted, ReadFrom, Truthful;
    hide Genuine, LogSize, OpFits, OpsFit, Journal.Synced, Volume.Size, Room;
    replies, kept := [], [];
    ghost var vol, ops, fs := j.host.vol, j.LogView().ops, j.FsView();
    ghost var disk, heap := j.host.diskFailures, j.host.refusals;
    NoneAnswered(vol, LogSize(ops), fs, accesses);
    assert ops + [] == ops;
    var n := 0;
    while n < |accesses|
      invariant 0 <= n <= |accesses|
      invariant InTransaction(j)
      invariant j.host.diskFailures >= disk && j.host.refusals >= heap
      invariant j.host.powered ==> old(j.host.powered)
      invariant j.LogView().ops == ops + kept && j.FsView() == fs
      invariant Answered(vol, LogSize(ops), fs, accesses[..n], replies, kept,
                         j.host.diskFailures - disk, j.host.refusals - heap)
      invariant j.host.diskFailures == old(j.host.diskFailures) && old(j.Synced()) ==> j.Synced()
    {
      ghost var io, refused := j.host.diskFailures - disk, j.host.refusals - heap;
      var reply, more := Serve(j, accesses[n]);
      LogSizeAppend(ops, kept);
      AnsweredStep(vol, LogSize(ops), fs, accesses, n, replies, kept, io, refused, reply, more,
                   j.host.diskFailures - disk, j.host.refusals - heap);
      assert (ops + kept) + more == ops + (kept + more);
      replies, kept := replies + [reply], kept + more;
      n := n + 1;
    }
    assert accesses[..n] == accesses;
    AnsweredMeans(vol, LogSize(ops), fs, accesses, replies, kept, j.host.diskFailures - disk, j.host.refusals - heap);
  }

  // ------------------------------------------------------- one wrapper call

  /** The journal in memory, if there is one. */
  datatype Memory = Off | On(master: Master)

  /** Everything there is between two calls: the disk, the memory, what has failed. */
  datatype State = State(img: Image, mem: Memory, faults: Tally)

  ghost function Now(j: Journal): State
    reads j, j.host
  {
    State(j.host.image, On(j.master), j.host.Faults())
  }

  /**
    The stop of a call on the region `fs` that logged `kept`. Either the record is
    closed, and the region has all of `kept` on a positive verdict and none on a
    negative one; or a commit failed half-way, and the log is still there.
   */
  ghost predicate Ended(vol: Volume, fs: Image, success: bool, kept: seq<Op>, err: Err, s': State)
    requires vol.Sound() && |fs| == vol.FsSectors()
  {
    && Recoverable(vol, s'.img) && s'.mem.On? && OpsFit(kept, |fs|)
    && var m := s'.mem.master;
    || (m == RecordFor(vol, READY, 0) && Settled(vol, s'.img)
        && Fs(vol, s'.img) == if success then ApplyOps(fs, kept) else fs)
    || (success && err != Ok && m == RecordFor(vol, COMMIT, m.nextFree) && m.nextFree == LogSize(kept)
        && if Committed(vol, s'.img) then Pending(vol, s'.img) == kept && AgreeOff(fs, Fs(vol, s'.img), kept)
           else Fs(vol, s'.img) == fs)
  }

  /**
    What a wrapper call on the state `s` may do and answer, whatever fails, with
    `mid` the tally when the stop begins: the accesses are answered with the
    failures up to `mid`, and the stop takes place in every case and succeeds
    unless something fails in it.
   */
  ghost predicate Stopped(vol: Volume, s: State, accesses: seq<Access>, success: bool, err: Err,
                          replies: seq<Reply>, kept: seq<Op>, s': State, mid: Tally)
    requires vol.Sound() && |s.img| == vol.sectors
  {
    && s.faults.disk <= mid.disk && s.faults.heap <= mid.heap
    && Answered(vol, 0, Fs(vol, s.img), accesses, replies, kept, mid.disk - s.faults.disk, mid.heap - s.faults.heap)
    && FailFast(err, mid, s'.faults) && (err == Ok <==> s'.faults == mid)
    && Ended(vol, Fs(vol, s.img), success, kept, err, s')
    && (s'.faults.disk == mid.disk ==> MasterOf(s'.img[vol.Last()]) == s'.mem.master)
  }

  /** The start failed: nothing was done, and the record in memory says OPEN. */
  ghost predicate NotStarted(vol: Volume, s: State, err: Err, replies: seq<Reply>, kept: seq<Op>, s': State)
    requires vol.Sound() && |s.img| == vol.sectors
  {
    && err == Io && replies == [] && kept == []
    && s'.mem == On(RecordFor(vol, OPEN, 0)) && s'.faults == Tally(s.faults.disk + 1, s.faults.heap)
    && MasterStep(vol, s.img, s'.img, RecordFor(vol, OPEN, 0))
  }

  ghost predicate Called(vol: Volume, s: State, accesses: seq<Access>, success: bool, err: Err,
                         replies: seq<Reply>, kept: seq<Op>, s': State)
    requires vol.Sound() && |s.img| == vol.sectors && s.mem.On?
  {
    if s.mem.master.status != READY then
      err == InvalidState && replies == [] && kept == [] && s' == s
    else
      || NotStarted(vol, s, err, replies, kept, s')
      || exists mid :: Stopped(vol, s, accesses, success, err, replies, kept, s', mid)
  }

  lemma RecordOfValid(j: Journal)
    requires j.Valid()
    ensures j.master == RecordFor(j.host.vol, j.master.status, j.master.nextFree)
  {
  }

  /** esp_jrnl_stop with the verdict of the call. */
  method Stop(j: Journal, success: bool) returns (err: Err)
    requires InTransaction(j)
    modifies j`master, j.host
    ensures Calm(j) && FailFast(err, old(j.host.Faults()), j.host.Faults())
    ensures j.host.powered ==> old(j.host.powered)
    ensures err == Ok <==> j.host.Faults() == old(j.host.Faults())
    ensures Ended(j.host.vol, old(j.FsView()), success, old(j.LogView()).ops, err, Now(j))
    ensures j.host.diskFailures == old(j.host.diskFailures) ==> j.Synced()
  {
    hide RecordOf, Scan, MasterOf, Volume.Accepts, ApplyOps, LogSize, OpsFit;
    ghost var vol, ops := j.host.vol, j.LogView().ops;
    assert LogSize(ops) == j.master.nextFree by {
      LogEnd(vol, j.host.image, j.master.nextFree);
    }
    if success {
      err := j.Commit();
    } else {
      NothingPending(vol, j.host.image);
      err := j.Cancel();
    }
    RecordOfValid(j);
  }

  lemma LogEnd(vol: Volume, img: Image, end: nat)
    requires vol.Sound() && |img| == vol.sectors && Scan(vol, img, 0, end).Clean?
    ensures LogSize(Scan(vol, img, 0, end).ops) == end
  {
  }

  /**
    A journaled wrapper: start, the call, stop with its verdict. `Called` says all
    it may do. Crash atomicity of one call, with the power cut anywhere inside it:
    what survives is the file system before, or - only on a positive verdict - that
    with all kept writes. A call that was served never leaves the transaction open.
    Progress: when nothing fails below, a READY journal is READY again, whatever
    the call wrote and however many of its writes did not fit.
   */
  method Transact(j: Journal, accesses: seq<Access>, success: bool)
    returns (err: Err, replies: seq<Reply>, kept: seq<Op>)
    requires Calm(j)
    requires InRange(accesses, j.host.vol.FsSectors())
    modifies j`master, j.host
    ensures Calm(j)
    ensures j.host.powered ==> old(j.host.powered)
    ensures Called(j.host.vol, old(Now(j)), accesses, success, err, replies, kept, Now(j))
    ensures replies != [] ==> j.master.status == READY || (success && j.master.status == COMMIT)
  {
    hide RecordOf, Scan, MasterOf, Volume.Accepts, ApplyOps, Answered, Ended, Recoverable, Committed, Durable;
    hide Selected, Isolated, Admitted, Truthful;
    replies, kept := [], [];
    ghost var vol, s := j.host.vol, Now(j);
    err := j.Start();
    RecordOfValid(j);
    if err == Ok {
      StartLog(j);
      replies, kept := Perform(j, accesses);
      ghost var mid := j.host.Faults();
      assert j.LogView().ops == kept;
      err := Stop(j, success);
      EndedStatus(vol, Fs(vol, s.img), success, kept, err, Now(j));
      assert Stopped(vol, s, accesses, success, err, replies, kept, Now(j), mid);
    }
  }

  lemma StartLog(j: Journal)
    requires j.Valid() && j.LogView() == Clean([])
    ensures LogSize(j.LogView().ops) == 0
  {
  }

  lemma EndedStatus(vol: Volume, fs: Image, success: bool, kept: seq<Op>, err: Err, s': State)
    requires vol.Sound() && |fs| == vol.FsSectors() && Ended(vol, fs, success, kept, err, s')
    ensures s'.mem.master.status == READY || (success && err != Ok && s'.mem.master.status == COMMIT)
  {
  }

  /**
    Crash atomicity of one call, read off `Called`: what survives moves by a whole
    transaction or not at all; a call that reported success took its whole effect;
    one without failures is served, admits exactly what fits and reports success.
   */
  lemma CalledMeans(vol: Volume, s: State, accesses: seq<Access>, success: bool, err: Err,
                    replies: seq<Reply>, kept: seq<Op>, s': State)
    requires vol.Sound() && |s.img| == vol.sectors && s.mem.On? && InRange(accesses, vol.FsSectors())
    requires Recoverable(vol, s.img) && (s.mem.master.status == READY ==> Settled(vol, s.img))
    requires Called(vol, s, accesses, success, err, replies, kept, s')
    ensures s'.mem.On? && Recoverable(vol, s'.img) && OpsFit(kept, vol.FsSectors())
    ensures var before, after := Durable(vol, s.img), Durable(vol, s'.img);
      && (after == before || (success && after == ApplyOps(before, kept)))
      && (|| (replies == [] && kept == [])
          || (Selected(accesses, replies, kept) && Isolated(before, accesses, replies)))
      && (err == Ok ==>
            && s'.mem.master.status == READY && MasterOf(s'.img[vol.Last()]) == s'.mem.master
            && Fs(vol, s'.img) == after == (if success then ApplyOps(before, kept) else before)
            && Selected(accesses, replies, kept) && Isolated(before, accesses, replies))
      && (s'.faults == s.faults && s.mem.master.status == READY ==>
            && err == Ok && kept == Admitted(vol, 0, accesses)
            && Truthful(vol, 0, before, accesses, replies))
    ensures s'.faults.disk == s.faults.disk && MasterOf(s.img[vol.Last()]) == s.mem.master ==>
      MasterOf(s'.img[vol.Last()]) == s'.mem.master
  {
    hide RecordOf, Scan, MasterOf, Volume.Accepts, ApplyOps, Answered, Selected, Isolated, Admitted, Truthful;
    if s.mem.master.status == READY {
      if NotStarted(vol, s, err, replies, kept, s') {
        MasterStepSettled(vol, s.img, s'.img, RecordFor(vol, OPEN, 0));
      } else {
        var mid :| Stopped(vol, s, accesses, success, err, replies, kept, s', mid);
        AnsweredMeans(vol, 0, Fs(vol, s.img), accesses, replies, kept, mid.disk - s.faults.disk, mid.heap - s.faults.heap);
        EndedDurable(vol, Fs(vol, s.img), success, kept, err, s');
      }
    }
  }

  lemma EndedDurable(vol: Volume, fs: Image, success: bool, kept: seq<Op>, err: Err, s': State)
    requires vol.Sound() && |fs| == vol.FsSectors() && Ended(vol, fs, success, kept, err, s')
    ensures s'.mem.master.status == READY ==>
      Durable(vol, s'.img) == Fs(vol, s'.img) == if success then ApplyOps(fs, kept) else fs
    ensures s'.mem.master.status != READY ==>
      success && Durable(vol, s'.img) == if Committed(vol, s'.img) then ApplyOps(fs, kept) else fs
  {
    hide RecordOf, Scan, MasterOf, Volume.Accepts, ApplyOps;
    if s'.mem.master.status != READY {
      if Committed(vol, s'.img) {
        ReplayRestarts(fs, Fs(vol, s'.img), kept);
      } else {
        NothingPending(vol, s'.img);
      }
    }
  }

  /**
    Exact capacity: every write of a call is logged if and only if header and
    data sectors of all of them leave the last two sectors of the store free.
   */
  lemma {:induction false} AllAdmitted(vol: Volume, used: nat, accesses: seq<Access>)
    requires used + 2 <= vol.storeSize
    ensures Admitted(vol, used, accesses) == Puts(accesses) <==> used + LogSize(Puts(accesses)) + 2 <= vol.storeSize
    decreases |accesses|
  {
    AdmittedShorter(vol, used, accesses);
    if accesses != [] {
      var n := |accesses| - 1;
      var a, init := accesses[n], accesses[..n];
      AllAdmitted(vol, used, init);
      AdmittedShorter(vol, used, init);
      if a.Put? {
        LogSizeAppend(Puts(init), [a.op]);
        assert [a.op][1..] == [];
        var kept := Admitted(vol, used, init);
        if Admitted(vol, used, accesses) == Puts(accesses) {
          assert |kept| == |Puts(init)|;
          assert Puts(accesses)[..|Puts(init)|] == Puts(init);
          assert Admitted(vol, used, accesses)[..|kept|] == kept;
        }
      } else {
        assert Puts(accesses) == Puts(init);
      }
    }
  }

  /** A log never outgrows the store, and never keeps more than was written. */
  lemma {:induction false} AdmittedShorter(vol: Volume, used: nat, accesses: seq<Access>)
    requires used + 2 <= vol.storeSize
    ensures |Admitted(vol, used, accesses)| <= |Puts(accesses)|
    ensures used + LogSize(Admitted(vol, used, accesses)) + 2 <= vol.storeSize
    decreases |accesses|
  {
    if accesses != [] {
      var a, init := accesses[|accesses| - 1], accesses[..|accesses| - 1];
      AdmittedShorter(vol, used, init);
      if a.Put? {
        LogSizeAppend(Admitted(vol, used, init), [a.op]);
        assert [a.op][1..] == [];
      }
    }
  }
}
