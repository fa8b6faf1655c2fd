/**
  The loop of jrnl_replay, seen from the image it started on: after `done`
  operations the region is `ApplyOps(.., done)` and the rest of the log is intact.
 */
module Redo {
  import opened Layout
  import opened Log
  import opened Durability

  ghost predicate Progress(vol: Volume, start: Image, img: Image, done: seq<Op>, at: nat, end: nat)
    requires vol.Sound()
  {
    && |start| == vol.sectors
    && SameOff(start, img, 0, vol.FsSectors())
    && at <= end
    && Scan(vol, start, 0, end) == Scan(vol, start, at, end).AfterAll(done)
    && OpsFit(done, vol.FsSectors())
    && Fs(vol, img) == ApplyOps(Fs(vol, start), done)
  }

  lemma ProgressStart(vol: Volume, start: Image, end: nat)
    requires vol.Sound() && |start| == vol.sectors
    ensures Progress(vol, start, start, [], 0, end)
  {
    hide Scan;
    assert [] + Scan(vol, start, 0, end).ops == Scan(vol, start, 0, end).ops;
  }

  /** The record met next is the one the scan of the starting image met there. */
  lemma ProgressRecord(vol: Volume, start: Image, img: Image, done: seq<Op>, at: nat, end: nat)
    requires vol.Sound() && Progress(vol, start, img, done, at, end) && at < end
    ensures RecordOf(vol, img, at, end) == RecordOf(vol, start, at, end)
    ensures match RecordOf(vol, img, at, end)
      case Stray(_, _) => Scan(vol, start, 0, end) == Wild(done)
      case Refused(err) => Scan(vol, start, 0, end) == Corrupt(done, err)
      case Intact(op) => Scan(vol, start, 0, end) == Scan(vol, start, at + OpSize(op), end).AfterAll(done + [op])
  {
    hide RecordOf, Scan, ApplyOps;
    RecordFrame(vol, start, img, at, end);
    ScanStep(vol, start, at, end);
    match RecordOf(vol, start, at, end)
    case Stray(_, _) => assert done + [] == done;
    case Refused(_) => assert done + [] == done;
    case Intact(op) =>
      var rest := Scan(vol, start, at + OpSize(op), end);
      assert done + ([op] + rest.ops) == (done + [op]) + rest.ops;
  }

  lemma ProgressStep(vol: Volume, start: Image, img: Image, img': Image, done: seq<Op>, at: nat, end: nat, op: Op)
    requires vol.Sound() && Progress(vol, start, img, done, at, end) && at < end
    requires RecordOf(vol, img, at, end) == Intact(op)
    requires img' == Overwrite(img, op.target, op.data)
    ensures Progress(vol, start, img', done + [op], at + OpSize(op), end)
  {
    hide RecordOf, Scan, ApplyOps;
    ProgressRecord(vol, start, img, done, at, end);
    var fs, fs1 := Fs(vol, start), Fs(vol, img);
    ApplyAppend(fs, done, [op]);
    ApplyOne(fs1, op);
    assert Fs(vol, img') == Overwrite(fs1, op.target, op.data);
  }

  /** An interrupted copy damages nothing but targets of logged operations. */
  lemma ProgressTorn(vol: Volume, start: Image, img: Image, img': Image, done: seq<Op>, at: nat, end: nat, op: Op)
    requires vol.Sound() && Progress(vol, start, img, done, at, end) && at < end
    requires RecordOf(vol, img, at, end) == Intact(op)
    requires SameOff(img, img', op.target, op.target + |op.data|)
    ensures SameOff(start, img', 0, vol.FsSectors())
    ensures AgreeOff(Fs(vol, start), Fs(vol, img'), Scan(vol, start, 0, end).ops)
  {
    hide RecordOf, Scan, ApplyOps;
    ProgressRecord(vol, start, img, done, at, end);
    var fs, ops := Fs(vol, start), Scan(vol, start, 0, end).ops;
    var rest := Scan(vol, start, at + OpSize(op), end).ops;
    ApplyTouchesOnlyTargets(fs, done);
    forall i | 0 <= i < |fs| && !Hit(ops, i)
      ensures Fs(vol, img')[i] == fs[i]
    {
      HitAppend(done + [op], rest, i);
      HitAppend(done, [op], i);
      assert InOp(op, i) ==> InOp([op][0], i);
      assert Fs(vol, img)[i] == fs[i];
    }
  }

  /** Stopping between two records, too, damages only targets. */
  lemma ProgressAgrees(vol: Volume, start: Image, img: Image, done: seq<Op>, at: nat, end: nat)
    requires vol.Sound() && Progress(vol, start, img, done, at, end)
    ensures AgreeOff(Fs(vol, start), Fs(vol, img), Scan(vol, start, 0, end).ops)
  {
    hide RecordOf, Scan;
    var fs, ops := Fs(vol, start), Scan(vol, start, 0, end).ops;
    ApplyTouchesOnlyTargets(fs, done);
    forall i | 0 <= i < |fs| && !Hit(ops, i)
      ensures Fs(vol, img)[i] == fs[i]
    {
      HitAppend(done, Scan(vol, start, at, end).ops, i);
    }
  }

  /** The walk ends exactly on the end of a clean log, having applied all of it. */
  lemma ProgressEnd(vol: Volume, start: Image, img: Image, done: seq<Op>, at: nat, end: nat)
    requires vol.Sound() && Progress(vol, start, img, done, at, end) && end <= at
    ensures Scan(vol, start, 0, end) == Clean(done)
    ensures Fs(vol, img) == ApplyOps(Fs(vol, start), Scan(vol, start, 0, end).ops)
  {
    hide RecordOf;
    assert done + [] == done;
  }

  /**
    Replay is restartable, on the disk and with its verdict: for every log without
    a stray record, corrupt ones included, a replay that starts over from whatever
    an earlier one left in the targets ends with the same image and the same error.
   */
  lemma RedoneRestarts(vol: Volume, img: Image, b: Image, end: nat)
    requires vol.Sound() && |img| == vol.sectors && SameOff(img, b, 0, vol.FsSectors())
    requires !Scan(vol, img, 0, end).Wild?
    requires AgreeOff(Fs(vol, img), Fs(vol, b), Scan(vol, img, 0, end).ops)
    ensures Redone(vol, b, 0, end) == Redone(vol, img, 0, end)
  {
    hide RecordOf, Scan, Redone, ApplyOps, AgreeOff;
    ScanStore(vol, img, b, 0, end);
    RedoneScan(vol, img, 0, end);
    RedoneScan(vol, b, 0, end);
    ReplayRestarts(Fs(vol, img), Fs(vol, b), Scan(vol, img, 0, end).ops);
    assert img[vol.FsSectors()..] == b[vol.FsSectors()..];
  }

  // ------------------------------------------------------- one iteration, the loop

  /**
    What one iteration at `at` does: a refused record changes nothing; any other
    is copied to where its target lands, or damages only that. `quiet` says that
    nothing failed below.
   */
  ghost predicate RecordDone(vol: Volume, img: Image, img': Image, at: nat, next: nat, end: nat, err: Err, quiet: bool)
    requires vol.Sound() && |img| == vol.sectors
  {
    match RecordOf(vol, img, at, end)
    case Refused(why) => img' == img && err != Ok && (quiet ==> err == why)
    case Intact(op) =>
      && SameOff(img, img', op.target, op.target + |op.data|)
      && (err == Ok <==> quiet)
      && (err == Ok ==> next == at + OpSize(op) && img' == Overwrite(img, op.target, op.data))
    case Stray(target, data) =>
      if Lands(vol, target, |data|) then
        && SameOff(img, img', Landing(vol, target), Landing(vol, target) + |data|)
        && (err == Ok <==> quiet)
        && (err == Ok ==> next == at + 1 + |data| && img' == Overwrite(img, Landing(vol, target), data))
      else
        img' == img && err != Ok && (quiet ==> err == InvalidSize)
  }

  /** The loop has reached `at`, with `err` so far: what is known of any log ... */
  ghost predicate Walking(vol: Volume, start: Image, img: Image, at: nat, end: nat, err: Err, quiet: bool)
    requires vol.Sound() && |start| == vol.sectors
  {
    && |img| == vol.sectors
    && (err == Ok ==> quiet && Redone(vol, img, at, end) == Redone(vol, start, 0, end))
    && (err != Ok && quiet ==> Outcome(img, err) == Redone(vol, start, 0, end))
  }

  /** ... and of one without stray records. */
  ghost predicate Tamed(vol: Volume, start: Image, img: Image, done: seq<Op>, at: nat, end: nat, err: Err, quiet: bool)
    requires vol.Sound() && |start| == vol.sectors
  {
    && SameOff(start, img, 0, vol.FsSectors())
    && AgreeOff(Fs(vol, start), Fs(vol, img), Scan(vol, start, 0, end).ops)
    && (err == Ok ==> Progress(vol, start, img, done, at, end))
    && (err != Ok && quiet ==>
          && Scan(vol, start, 0, end) == Corrupt(done, err)
          && OpsFit(done, vol.FsSectors()) && Fs(vol, img) == ApplyOps(Fs(vol, start), done))
  }

  lemma WalkStart(vol: Volume, start: Image, end: nat, err: Err)
    requires vol.Sound() && |start| == vol.sectors
    ensures Walking(vol, start, start, 0, end, Ok, true)
    ensures Tamed(vol, start, start, [], 0, end, Ok, true)
    ensures err != Ok ==>
      Walking(vol, start, start, 0, end, err, false) && Tamed(vol, start, start, [], 0, end, err, false)
  {
    hide Scan, Redone, ApplyOps;
    ProgressStart(vol, start, end);
    ProgressAgrees(vol, start, start, [], 0, end);
  }

  lemma WalkStep(vol: Volume, start: Image, img: Image, img': Image, at: nat, next: nat, end: nat, err: Err, quiet: bool)
    requires vol.Sound() && |start| == |img| == |img'| == vol.sectors && at < end
    requires Walking(vol, start, img, at, end, Ok, true)
    requires RecordDone(vol, img, img', at, next, end, err, quiet)
    ensures Walking(vol, start, img', next, end, err, quiet) && (err == Ok ==> quiet)
  {
    hide RecordOf, Redone, Overwrite, Lands, Landing;
    RedoneStep(vol, img, at, end);
  }

  lemma TameStep(vol: Volume, start: Image, img: Image, img': Image, done: seq<Op>,
                 at: nat, next: nat, end: nat, err: Err, quiet: bool) returns (done': seq<Op>)
    requires vol.Sound() && |start| == |img| == vol.sectors && at < end
    requires Tamed(vol, start, img, done, at, end, Ok, true) && !Scan(vol, start, 0, end).Wild?
    requires RecordDone(vol, img, img', at, next, end, err, quiet)
    ensures Tamed(vol, start, img', done', next, end, err, quiet)
    ensures |done'| == if err == Ok then |done| + 1 else |done|
  {
    hide RecordOf, Scan, ApplyOps, Overwrite, Lands, Landing;
    ProgressRecord(vol, start, img, done, at, end);
    done' := done;
    match RecordOf(vol, img, at, end)
    case Intact(op) =>
      ProgressTorn(vol, start, img, img', done, at, end, op);
      if err == Ok {
        ProgressStep(vol, start, img, img', done, at, end, op);
        done' := done + [op];
      }
    case Refused(_) =>
      ProgressAgrees(vol, start, img, done, at, end);
    case Stray(_, _) =>
  }

  /** The loop has ended, `copied` records done. */
  lemma WalkEnd(vol: Volume, start: Image, img: Image, done: seq<Op>, at: nat, end: nat, err: Err, quiet: bool)
    requires vol.Sound() && |start| == vol.sectors
    requires err == Ok ==> end <= at
    requires Walking(vol, start, img, at, end, err, quiet)
    ensures quiet ==> Outcome(img, err) == Redone(vol, start, 0, end)
    ensures var scan := Scan(vol, start, 0, end);
      Tamed(vol, start, img, done, at, end, err, quiet) && !scan.Wild? ==>
        && SameOff(start, img, 0, vol.FsSectors())
        && AgreeOff(Fs(vol, start), Fs(vol, img), scan.ops)
        && (err == Ok ==> scan.Clean?)
        && (quiet ==>
              && err == scan.Verdict() && done == scan.ops
              && Fs(vol, img) == ApplyOps(Fs(vol, start), scan.ops))
  {
    hide RecordOf, Scan, Redone, ApplyOps;
    if err == Ok {
      RedoneEnd(vol, img, at, end);
      if Tamed(vol, start, img, done, at, end, err, quiet) {
        ProgressEnd(vol, start, img, done, at, end);
      }
    }
  }
}
