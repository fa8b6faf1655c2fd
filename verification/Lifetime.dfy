/**
  Whole runs: any sequence of boots and wrapper calls on one volume, with the
  power cut, and raw operations failing, wherever the host decides. `LifeRun` says
  which runs there are, event by event; `Recorded` what follows for all of them.
 */
module Lifetimes {
  import opened Layout
  import opened Log
  import opened Durability
  import opened HostDevice
  import opened JournalInstance
  import opened Mounting
  import opened Client

  /**
    Power comes (back), the memory is lost, the journal is mounted and set READY;
    or a file-system call is made.
   */
  datatype Event = Boot | Call(accesses: seq<Access>, success: bool)

  /** What an event answers; `kept` are the writes that reached the log. */
  datatype Reaction = Reaction(err: Err, replies: seq<Reply>, kept: seq<Op>)

  ghost predicate EventsInRange(events: seq<Event>, size: int)
  {
    forall i :: 0 <= i < |events| && events[i].Call? ==> InRange(events[i].accesses, size)
  }

  function DefaultConfig(vol: Volume): Config
  {
    Config(false, true, false, vol.storeSize)
  }

  // ------------------------------------------------------- the steps of a run

  /**
    All a boot may do. It keeps what survives. It succeeds exactly when nothing
    fails and the image is mountable, with a READY record in memory and on disk and
    nothing left to redo; a volume that is not mountable is refused untouched.
   */
  ghost predicate Booted(vol: Volume, s: State, o: Reaction, s': State)
    requires vol.Sound() && |s.img| == vol.sectors
  {
    var ready := RecordFor(vol, READY, 0);
    && o.replies == [] && o.kept == [] && FailFast(o.err, s.faults, s'.faults)
    && (o.err == Ok <==> s'.faults == s.faults && Mountable(vol, s.img, DefaultConfig(vol)))
    && s'.mem == (if o.err == Ok then On(ready) else Off)
    && Recoverable(vol, s'.img) && Durable(vol, s'.img) == Durable(vol, s.img)
    && (o.err == Ok ==> MasterOf(s'.img[vol.Last()]) == ready && Settled(vol, s'.img))
    && (!Mountable(vol, s.img, DefaultConfig(vol)) ==>
          && s'.img == s.img
          && (s'.faults == s.faults ==>
                o.err == if vol.Accepts(s.img[vol.Last()]) then Aborted else InvalidState))
  }

  /** All an event may do; without an instance in memory every call is refused. */
  ghost predicate EventStep(vol: Volume, s: State, e: Event, o: Reaction, s': State)
    requires vol.Sound() && |s.img| == vol.sectors
  {
    match e
    case Boot => Booted(vol, s, o, s')
    case Call(accesses, success) =>
      if s.mem.Off? then
        o == Reaction(InvalidState, [], []) && s' == s
      else
        Called(vol, s, accesses, success, o.err, o.replies, o.kept, s')
  }

  ghost predicate LifeRun(vol: Volume, events: seq<Event>, outs: seq<Reaction>, states: seq<State>)
    requires vol.Sound()
  {
    && |outs| == |events| && |states| == |events| + 1
    && (forall i :: 0 <= i < |states| ==> |states[i].img| == vol.sectors)
    && forall i :: 0 <= i < |events| ==> EventStep(vol, states[i], events[i], outs[i], states[i + 1])
  }

  /** The states of a run: recoverable, and with an instance that is calm. */
  ghost predicate Fine(vol: Volume, s: State)
    requires vol.Sound()
  {
    && Recoverable(vol, s.img)
    && (s.mem.On? && s.mem.master.status == READY ==> Settled(vol, s.img))
  }

  /** An instance is READY, on the disk as well, and the next boot will succeed. */
  ghost predicate Healthy(vol: Volume, s: State)
    requires vol.Sound() && |s.img| == vol.sectors
  {
    && Mountable(vol, s.img, DefaultConfig(vol))
    && (s.mem.On? ==> s.mem.master.status == READY && MasterOf(s.img[vol.Last()]) == s.mem.master)
  }

  // ------------------------------------------------------- what a step means

  /**
    What an event on the file system `fs` may have done: a whole transaction, or
    nothing. A call that was served reads `fs` and keeps at least the writes it
    answered Ok; one that succeeded was served.
   */
  ghost predicate Atomic(fs: Image, e: Event, o: Reaction, effect: seq<Op>)
  {
    match e
    case Boot => o.replies == [] && effect == []
    case Call(accesses, success) =>
      && ((o.replies == [] && o.kept == []) || Served(fs, accesses, o))
      && (o.err == Ok ==> Served(fs, accesses, o))
      && effect in {[], o.kept}
      && (!success ==> effect == [])
      && (success && o.err == Ok ==> effect == o.kept)
  }

  ghost predicate Served(fs: Image, accesses: seq<Access>, o: Reaction)
  {
    Selected(accesses, o.replies, o.kept) && Isolated(fs, accesses, o.replies)
  }

  /** What the event does when nothing fails: everything the log has room for. */
  ghost predicate Exact(vol: Volume, s: State, e: Event, o: Reaction, effect: seq<Op>)
    requires vol.Sound() && |s.img| == vol.sectors
  {
    match e
    case Boot => o.err == Ok
    case Call(accesses, success) =>
      s.mem.On? ==>
        && o.err == Ok && o.kept == Admitted(vol, 0, accesses)
        && effect == (if success then o.kept else [])
        && Truthful(vol, 0, Durable(vol, s.img), accesses, o.replies)
  }

  ghost predicate EffectsFit(effects: seq<seq<Op>>, size: int)
  {
    forall i :: 0 <= i < |effects| ==> OpsFit(effects[i], size)
  }

  /** The effects of a run, in order. */
  ghost function ApplyAll(fs: Image, effects: seq<seq<Op>>): (r: Image)
    requires EffectsFit(effects, |fs|)
    ensures |r| == |fs|
  {
    if effects == [] then fs
    else ApplyOps(ApplyAll(fs, effects[..|effects| - 1]), effects[|effects| - 1])
  }

  lemma ApplyAllStep(fs: Image, effects: seq<seq<Op>>, e: seq<Op>)
    requires EffectsFit(effects, |fs|) && OpsFit(e, |fs|)
    ensures EffectsFit(effects + [e], |fs|)
    ensures ApplyAll(fs, effects + [e]) == ApplyOps(ApplyAll(fs, effects), e)
  {
    assert (effects + [e])[..|effects|] == effects;
  }

  /** An erased partition is a place to start from, and mounts. */
  lemma BlankVolume(vol: Volume)
    requires vol.Sound()
    ensures var img := seq(vol.sectors, i => vol.Blank());
      && Recoverable(vol, img) && Mountable(vol, img, DefaultConfig(vol))
      && Durable(vol, img) == seq(vol.FsSectors(), i => vol.Blank())
  {
    var img := seq(vol.sectors, i => vol.Blank());
    assert img[vol.Last()] == vol.Blank();
    assert WordAt(vol.Blank(), 0) == 0xFFFFFFFF;
    NothingPending(vol, img);
  }

  lemma SyncedMountable(vol: Volume, img: Image)
    requires vol.Sound() && |img| == vol.sectors
    requires
      var m := MasterOf(img[vol.Last()]);
      && m.status == READY && m.volumeSize == vol.Size() && m.sectorSize == vol.sectorSize
      && m.storeSize == vol.storeSize && m.magic == STORE_MARKER
    ensures Mountable(vol, img, DefaultConfig(vol))
  {
  }

  /**
    One event: it is atomic; if it succeeds the volume is healthy; and if nothing
    fails on a healthy volume it succeeds with exactly its own effect.
   */
  lemma StepMeans(vol: Volume, s: State, e: Event, o: Reaction, s': State) returns (effect: seq<Op>)
    requires vol.Sound() && |s.img| == |s'.img| == vol.sectors && Fine(vol, s)
    requires e.Call? ==> InRange(e.accesses, vol.FsSectors())
    requires EventStep(vol, s, e, o, s')
    ensures Fine(vol, s') && OpsFit(effect, vol.FsSectors())
    ensures Atomic(Durable(vol, s.img), e, o, effect)
    ensures Durable(vol, s'.img) == ApplyOps(Durable(vol, s.img), effect)
    ensures o.err == Ok ==> s'.mem.On? && Healthy(vol, s')
    ensures Healthy(vol, s) && s'.faults == s.faults ==> Healthy(vol, s') && Exact(vol, s, e, o, effect)
    ensures s'.faults.disk == s.faults.disk && (s.mem.On? ==> MasterOf(s.img[vol.Last()]) == s.mem.master)
      ==> (s'.mem.On? ==> MasterOf(s'.img[vol.Last()]) == s'.mem.master)
  {
    hide RecordOf, Scan, Redone, MasterOf, WordAt, ApplyOps, Selected, Isolated, Admitted, Truthful, Answered;
    effect := [];
    ApplyNone(Durable(vol, s.img));
    if e.Call? && s.mem.On? {
      CalledMeans(vol, s, e.accesses, e.success, o.err, o.replies, o.kept, s');
      CalledFine(vol, s, e.accesses, e.success, o.err, o.replies, o.kept, s');
      if e.success && (o.err == Ok || Durable(vol, s'.img) != Durable(vol, s.img)) {
        effect := o.kept;
      }
    }
    if o.err == Ok {
      SyncedMountable(vol, s'.img);
    }
  }

  lemma CalledFine(vol: Volume, s: State, accesses: seq<Access>, success: bool, err: Err,
                   replies: seq<Reply>, kept: seq<Op>, s': State)
    requires vol.Sound() && |s.img| == vol.sectors && s.mem.On? && Fine(vol, s)
    requires Called(vol, s, accesses, success, err, replies, kept, s')
    ensures s'.mem.On? && (s'.mem.master.status == READY ==> s' == s || Settled(vol, s'.img))
    ensures err == Ok ==> s'.mem.master == RecordFor(vol, READY, 0)
  {
    hide RecordOf, Scan, MasterOf, WordAt, ApplyOps, Answered;
  }

  // ------------------------------------------------------- what a run means

  /** What survives after the first `i` effects of a run. */
  ghost function After(fs: Image, effects: seq<seq<Op>>, i: nat): (r: Image)
    requires EffectsFit(effects, |fs|) && i <= |effects|
    ensures |r| == |fs|
  {
    ApplyAll(fs, effects[..i])
  }

  /**
    Event `i` of a run: a whole transaction on the file system left by the earlier
    ones, or nothing. If it succeeds the volume is healthy; if nothing fails in it
    on a healthy volume it succeeds, with exactly its own effect.
   */
  ghost predicate Entry(vol: Volume, fs: Image, events: seq<Event>, outs: seq<Reaction>, states: seq<State>,
                        effects: seq<seq<Op>>, i: nat)
    requires vol.Sound() && LifeRun(vol, events, outs, states) && EffectsFit(effects, |fs|)
    requires i < |effects| <= |events|
  {
    && Fine(vol, states[i]) && Durable(vol, states[i].img) == After(fs, effects, i)
    && Atomic(After(fs, effects, i), events[i], outs[i], effects[i])
    && (outs[i].err == Ok ==> states[i + 1].mem.On? && Healthy(vol, states[i + 1]))
    && (Healthy(vol, states[i]) && states[i + 1].faults == states[i].faults ==>
          Healthy(vol, states[i + 1]) && Exact(vol, states[i], events[i], outs[i], effects[i]))
  }

  /** A run that started with `fs` as the surviving file system, and its effects. */
  ghost predicate Recorded(vol: Volume, fs: Image, events: seq<Event>, outs: seq<Reaction>, states: seq<State>,
                           effects: seq<seq<Op>>)
    requires vol.Sound() && LifeRun(vol, events, outs, states)
  {
    && |effects| == |events| && EffectsFit(effects, |fs|)
    && forall i :: 0 <= i < |events| ==> Entry(vol, fs, events, outs, states, effects, i)
  }

  lemma AfterExtends(fs: Image, effects: seq<seq<Op>>, e: seq<Op>, i: nat)
    requires EffectsFit(effects, |fs|) && OpsFit(e, |fs|) && i <= |effects|
    ensures EffectsFit(effects + [e], |fs|) && After(fs, effects + [e], i) == After(fs, effects, i)
    ensures i == |effects| ==> After(fs, effects, i) == ApplyAll(fs, effects)
  {
    assert (effects + [e])[..i] == effects[..i];
    assert effects[..|effects|] == effects;
  }

  lemma EntryKept(vol: Volume, fs: Image, events: seq<Event>, outs: seq<Reaction>, states: seq<State>,
                  effects: seq<seq<Op>>, e: seq<Op>, i: nat)
    requires vol.Sound() && LifeRun(vol, events, outs, states)
    requires EffectsFit(effects, |fs|) && OpsFit(e, |fs|) && i < |effects| < |events|
    requires Entry(vol, fs, events, outs, states, effects, i)
    ensures EffectsFit(effects + [e], |fs|) && Entry(vol, fs, events, outs, states, effects + [e], i)
  {
    hide Fine, Atomic, Exact, Healthy, After, Durable, LifeRun;
    AfterExtends(fs, effects, e, i);
  }

  /** Crash atomicity, durability, isolation and progress of every run there is. */
  lemma RunMeans(vol: Volume, events: seq<Event>, outs: seq<Reaction>, states: seq<State>) returns (effects: seq<seq<Op>>)
    requires vol.Sound() && LifeRun(vol, events, outs, states) && Fine(vol, states[0])
    requires EventsInRange(events, vol.FsSectors())
    ensures Recorded(vol, Durable(vol, states[0].img), events, outs, states, effects)
    ensures Fine(vol, states[|events|])
    ensures Durable(vol, states[|events|].img) == ApplyAll(Durable(vol, states[0].img), effects)
    ensures states[|events|].faults.disk == states[0].faults.disk && states[0].mem.Off? && states[|events|].mem.On? ==>
      MasterOf(states[|events|].img[vol.Last()]) == states[|events|].mem.master
  {
    hide Fine, Atomic, Exact, Healthy, EventStep, Durable, After, ApplyAll, InRange, MasterOf, Entry;
    var fs := Durable(vol, states[0].img);
    effects := [];
    NoEffects(fs);
    var n := 0;
    while n < |events|
      invariant 0 <= n == |effects| <= |events| && EffectsFit(effects, |fs|)
      invariant Fine(vol, states[n]) && Durable(vol, states[n].img) == ApplyAll(fs, effects)
      invariant forall i :: 0 <= i < n ==> Entry(vol, fs, events, outs, states, effects, i)
      invariant states[0].faults.disk <= states[n].faults.disk
      invariant states[n].faults.disk == states[0].faults.disk && states[0].mem.Off? && states[n].mem.On? ==>
        MasterOf(states[n].img[vol.Last()]) == states[n].mem.master
    {
      var effect := StepMeans(vol, states[n], events[n], outs[n], states[n + 1]);
      StepFaults(vol, states[n], events[n], outs[n], states[n + 1]);
      ApplyAllStep(fs, effects, effect);
      AfterExtends(fs, effects, effect, n);
      forall i | 0 <= i < n
        ensures Entry(vol, fs, events, outs, states, effects + [effect], i)
      {
        EntryKept(vol, fs, events, outs, states, effects, effect, i);
      }
      EntryNew(vol, fs, events, outs, states, effects + [effect], n);
      effects := effects + [effect];
      n := n + 1;
    }
  }

  lemma NoEffects(fs: Image)
    ensures EffectsFit([], |fs|) && ApplyAll(fs, []) == fs
  {
  }

  lemma EntryNew(vol: Volume, fs: Image, events: seq<Event>, outs: seq<Reaction>, states: seq<State>,
                 effects: seq<seq<Op>>, i: nat)
    requires vol.Sound() && LifeRun(vol, events, outs, states) && EffectsFit(effects, |fs|)
    requires i < |effects| <= |events|
    requires Fine(vol, states[i]) && Durable(vol, states[i].img) == After(fs, effects, i)
    requires Atomic(Durable(vol, states[i].img), events[i], outs[i], effects[i])
    requires outs[i].err == Ok ==> states[i + 1].mem.On? && Healthy(vol, states[i + 1])
    requires Healthy(vol, states[i]) && states[i + 1].faults == states[i].faults ==>
      Healthy(vol, states[i + 1]) && Exact(vol, states[i], events[i], outs[i], effects[i])
    ensures Entry(vol, fs, events, outs, states, effects, i)
  {
    hide Fine, Atomic, Exact, Healthy, After, Durable, LifeRun;
  }

  lemma StepFaults(vol: Volume, s: State, e: Event, o: Reaction, s': State)
    requires vol.Sound() && |s.img| == vol.sectors && EventStep(vol, s, e, o, s')
    ensures s.faults.disk <= s'.faults.disk && s.faults.heap <= s'.faults.heap
  {
    hide RecordOf, Scan, Redone, MasterOf, WordAt, ApplyOps, Answered, Mountable, Durable, Recoverable, Settled, Ended;
  }

  /**
    A boot that is refused although nothing fails in it shows on the disk for good:
    the volume is not mountable, and no later event changes a sector.
   */
  lemma RefusedForGood(vol: Volume, events: seq<Event>, outs: seq<Reaction>, states: seq<State>, i: nat)
    requires vol.Sound() && LifeRun(vol, events, outs, states) && i < |events|
    requires events[i].Boot? && states[i + 1].faults == states[i].faults && outs[i].err != Ok
    ensures states[|events|].mem.Off? && states[|events|].img == states[i].img
    ensures !Mountable(vol, states[|events|].img, DefaultConfig(vol))
  {
    hide Mountable, Durable, Recoverable, Settled, MasterOf, Volume.Accepts, Called;
    var n := i + 1;
    while n < |events|
      invariant i < n <= |events|
      invariant states[n].mem.Off? && states[n].img == states[i].img
    {
      assert EventStep(vol, states[n], events[n], outs[n], states[n + 1]);
      n := n + 1;
    }
  }

  // ------------------------------------------------------- the code

  /** The machine: no instance in memory, or one that is calm. */
  ghost predicate Machine(host: Host, j: Journal?)
    reads host, if j != null then {j, j.host} else {}
  {
    && host.Valid() && Recoverable(host.vol, host.image)
    && (j != null ==> j.host == host && Calm(j))
  }

  ghost function StateOf(host: Host, j: Journal?): State
    reads host, if j != null then {j} else {}
  {
    State(host.image, if j == null then Off else On(j.master), host.Faults())
  }

  /** Power comes (back): mount, and leave direct mode if the store is fresh. */
  method PowerUp(host: Host) returns (j: Journal?, err: Err)
    requires host.Valid() && Recoverable(host.vol, host.image)
    modifies host
    ensures Machine(host, j) && (j != null ==> fresh(j))
    ensures Booted(host.vol, old(StateOf(host, null)), Reaction(err, [], []), StateOf(host, j))
  {
    hide RecordOf, Scan, Redone, MasterOf, WordAt, ApplyOps, Resumed;
    ghost var vol, before := host.vol, host.image;
    host.powered := true;
    if !Mountable(vol, before, DefaultConfig(vol)) {
      RefusedVolume(vol, before, DefaultConfig(vol));
    }
    OwnIfRecoverable(vol, before);
    err, j := Mount(host, DefaultConfig(host.vol));
    if j != null {
      RecordOfValid(j);
      err := j.SetDirectIo(false);
      RecordOfValid(j);
      if err != Ok {
        j := null;
      }
    }
  }

  lemma OwnIfRecoverable(vol: Volume, img: Image)
    requires vol.Sound() && Recoverable(vol, img)
    ensures Own(vol, img)
    ensures Unjournaled(vol, img) ==> MasterOf(img[vol.Last()]).status == FS_DIRECT
  {
    hide Scan, MasterOf;
  }

  method Happen(host: Host, j: Journal?, e: Event) returns (j': Journal?, o: Reaction)
    requires Machine(host, j)
    requires e.Call? ==> InRange(e.accesses, host.vol.FsSectors())
    modifies host, if j != null then {j} else {}
    ensures Machine(host, j') && (j' != null ==> j' == j || fresh(j'))
    ensures EventStep(host.vol, old(StateOf(host, j)), e, o, StateOf(host, j'))
  {
    hide Recoverable, Durable, Settled, Mountable, MasterOf, Called, Volume.Accepts, Genuine;
    match e {
      case Boot =>
        var err;
        j', err := PowerUp(host);
        o := Reaction(err, [], []);
      case Call(accesses, success) =>
        j' := j;
        o := Reaction(InvalidState, [], []);
        if j != null {
          var err, replies, kept := Transact(j, accesses, success);
          o := Reaction(err, replies, kept);
        }
    }
  }

  /**
    The code refines `LifeRun`: whatever happens, its run is one of those. So,
    starting from any recoverable image, after any events, with any number of power
    losses and failures - also inside the mounts that recover from earlier ones -
    what survives is the initial file system with a sequence of whole transactions
    applied in order: every call that succeeded and reported success, with every
    write it answered Ok; none that reported failure; and each of the others
    entirely or not at all. Reads see the file system left by the earlier
    transactions. A READY instance has exactly what survives in its region. An
    event in which nothing fails, on a volume whose last event succeeded, succeeds.
    A boot is refused without a failure only if the final image shows why.
   */
  method Live(host: Host, events: seq<Event>)
    returns (j: Journal?, outs: seq<Reaction>, ghost states: seq<State>, ghost effects: seq<seq<Op>>)
    requires host.Valid() && Recoverable(host.vol, host.image)
    requires forall i :: 0 <= i < |events| && events[i].Call? ==> InRange(events[i].accesses, host.vol.FsSectors())
    modifies host
    ensures Machine(host, j)
    ensures LifeRun(host.vol, events, outs, states)
    ensures states[0] == old(StateOf(host, null)) && states[|events|] == StateOf(host, j)
    ensures Recorded(host.vol, Durable(host.vol, old(host.image)), events, outs, states, effects)
    ensures Durable(host.vol, host.image) == ApplyAll(Durable(host.vol, old(host.image)), effects)
    ensures j != null && j.master.status == READY ==>
      j.FsView() == ApplyAll(Durable(host.vol, old(host.image)), effects)
    ensures host.diskFailures == old(host.diskFailures) && j != null ==> j.Synced()
    ensures (exists i :: 0 <= i < |events| && events[i].Boot?
                         && states[i + 1].faults == states[i].faults && outs[i].err != Ok) ==>
      j == null && !Mountable(host.vol, host.image, DefaultConfig(host.vol))
  {
    hide Recoverable, Durable, Settled, Mountable, MasterOf, EventStep, Recorded, Volume.Accepts, Genuine, InRange, ApplyOps;
    j, outs := null, [];
    ghost var vol := host.vol;
    states := [StateOf(host, null)];
    var n := 0;
    while n < |events|
      invariant 0 <= n <= |events| && |outs| == n && |states| == n + 1
      invariant Machine(host, j) && (j != null ==> fresh(j))
      invariant states[0] == old(StateOf(host, null)) && states[n] == StateOf(host, j)
      invariant LifeRun(vol, events[..n], outs, states)
      modifies host, if j != null then {j} else {}
    {
      var o;
      j, o := Happen(host, j, events[n]);
      LifeStep(vol, events, n, outs, states, o, StateOf(host, j));
      outs, states := outs + [o], states + [StateOf(host, j)];
      n := n + 1;
    }
    assert events[..n] == events;
    FineStart(vol, states[0]);
    effects := RunMeans(vol, events, outs, states);
    MachineSettled(host, j);
    if i :| 0 <= i < |events| && events[i].Boot? && states[i + 1].faults == states[i].faults && outs[i].err != Ok {
      RefusedForGood(vol, events, outs, states, i);
    }
  }

  lemma FineStart(vol: Volume, s: State)
    requires vol.Sound() && Recoverable(vol, s.img) && s.mem.Off?
    ensures Fine(vol, s)
  {
  }

  lemma MachineSettled(host: Host, j: Journal?)
    requires Machine(host, j)
    ensures j != null && j.master.status == READY ==> j.FsView() == Durable(host.vol, host.image)
  {
  }

  lemma LifeStep(vol: Volume, events: seq<Event>, n: nat, outs: seq<Reaction>, states: seq<State>, o: Reaction, s: State)
    requires vol.Sound() && n < |events| && LifeRun(vol, events[..n], outs, states) && |s.img| == vol.sectors
    requires EventStep(vol, states[n], events[n], o, s)
    ensures LifeRun(vol, events[..n + 1], outs + [o], states + [s])
  {
    hide EventStep;
    var events', outs', states' := events[..n + 1], outs + [o], states + [s];
    forall i | 0 <= i < n + 1
      ensures EventStep(vol, states'[i], events'[i], outs'[i], states'[i + 1])
    {
      if i < n {
        assert EventStep(vol, states[i], events[..n][i], outs[i], states[i + 1]);
      }
    }
  }
}
