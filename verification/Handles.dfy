/**
  The three handle tables and the FatFS drive table: which instance serves which
  drive. srcs/esp_jrnl.c (s_jrnl_instance_ptrs), srcs/fatfs/diskio/diskio_jrnl.c
  (ff_jrnl_handles), srcs/fatfs/vfs/vfs_jrnl_fat.c (s_jrnl_handles) and the mount
  and unmount sequences of srcs/fatfs/vfs/vfs_jrnl_fat_spiflash.c over them.
 */
module Handles {
  import opened Layout

  const MAX_HANDLES := 8
  const NO_HANDLE := -1
  const NO_DRIVE := 0xFF

  ghost predicate RegisteredIn(diskio: seq<int>, instances: seq<bool>, drives: seq<bool>)
  {
    && (forall i :: 0 <= i < |diskio| && diskio[i] != NO_HANDLE ==>
          0 <= diskio[i] < |instances| && instances[diskio[i]] && i < |drives| && drives[i])
    && (forall i, k :: 0 <= i < k < |diskio| && diskio[i] != NO_HANDLE ==> diskio[i] != diskio[k])
  }

  ghost predicate AgreeIn(diskio: seq<int>, vfs: seq<int>, instances: seq<bool>, drives: seq<bool>)
  {
    && RegisteredIn(diskio, instances, drives)
    && vfs == diskio
    && forall h :: 0 <= h < |instances| && instances[h] ==> h in diskio
  }

  /** A new handle at a free drive keeps the tables in agreement. */
  lemma AgreeAdd(diskio: seq<int>, instances: seq<bool>, drives: seq<bool>, p: nat, h: nat)
    requires AgreeIn(diskio, diskio, instances, drives)
    requires p < |diskio| && p < |drives| && !drives[p] && h < |instances| && !instances[h]
    ensures diskio[p] == NO_HANDLE && h !in diskio
    ensures AgreeIn(diskio[p := h], diskio[p := h], instances[h := true], drives[p := true])
    ensures RegisteredIn(diskio[p := h], instances[h := true], drives[p := true])
  {
    var after := diskio[p := h];
    forall k | 0 <= k < |instances| && instances[h := true][k]
      ensures k in after
    {
      if k == h {
        assert after[p] == k;
      } else {
        var i :| 0 <= i < |diskio| && diskio[i] == k;
        assert after[i] == k;
      }
    }
  }

  /** Dropping a handle from all tables keeps them in agreement. */
  lemma AgreeDrop(diskio: seq<int>, instances: seq<bool>, drives: seq<bool>, p: nat)
    requires AgreeIn(diskio, diskio, instances, drives)
    requires p < |diskio| && diskio[p] != NO_HANDLE
    ensures p < |drives| && 0 <= diskio[p] < |instances|
    ensures AgreeIn(diskio[p := NO_HANDLE], diskio[p := NO_HANDLE], instances[diskio[p] := false], drives[p := false])
  {
    var after := diskio[p := NO_HANDLE];
    forall k | 0 <= k < |instances| && instances[diskio[p] := false][k]
      ensures k in after
    {
      var i :| 0 <= i < |diskio| && diskio[i] == k;
      assert after[i] == k;
    }
  }

  // ------------------------------------------------------- the sequences as steps

  /** The four tables. */
  datatype Tables = Tables(instances: seq<bool>, diskio: seq<int>, vfs: seq<int>, drives: seq<bool>)

  /**
    How the steps outside these tables come out: wear levelling, the journal mount
    after its handle search, the VFS path, and FatFS with the final switch to READY.
   */
  datatype Outcomes = Outcomes(wl: Err, jrnl: Err, path: Err, fat: Err)

  /** The first free slot, or the number of slots. */
  function FirstFree(taken: seq<bool>): (p: nat)
    ensures p <= |taken| && (p < |taken| ==> !taken[p])
    ensures forall i :: 0 <= i < p ==> taken[i]
  {
    if taken == [] || !taken[0] then 0 else 1 + FirstFree(taken[1..])
  }

  lemma FirstFreeIs(taken: seq<bool>, p: nat)
    requires p <= |taken| && (p < |taken| ==> !taken[p])
    requires forall i :: 0 <= i < p ==> taken[i]
    ensures FirstFree(taken) == p
  {
  }

  /** Why a mount fails, if it does. */
  function MountError(t: Tables, o: Outcomes): Err
  {
    if FirstFree(t.drives) == |t.drives| then NoMem
    else if o.wl != Ok then o.wl
    else if FirstFree(t.instances) == |t.instances| then NoMem
    else if o.jrnl != Ok then o.jrnl
    else if o.path != Ok && o.path != InvalidState then o.path
    else o.fat
  }

  /** A mount that succeeds takes the first free handle and the first free drive. */
  function Mounted(t: Tables): (t': Tables)
    requires FirstFree(t.drives) < |t.drives| <= |t.diskio| == |t.vfs| && FirstFree(t.instances) < |t.instances|
  {
    var p, h := FirstFree(t.drives), FirstFree(t.instances);
    Tables(t.instances[h := true], t.diskio[p := h], t.vfs[p := h], t.drives[p := true])
  }

  /** The first entry with that handle, or the number of entries. */
  function IndexOf(s: seq<int>, h: int): (i: nat)
    ensures i <= |s| && (i < |s| ==> s[i] == h) && (i < |s| <==> h in s)
    ensures forall k :: 0 <= k < i ==> s[k] != h
  {
    if s == [] || s[0] == h then 0 else 1 + IndexOf(s[1..], h)
  }

  lemma IndexOfIs(s: seq<int>, h: int, i: nat)
    requires i < |s| && s[i] == h && forall k :: 0 <= k < i ==> s[k] != h
    ensures IndexOf(s, h) == i
  {
  }

  function UnmountError(t: Tables, h: int, o: Outcomes): Err
  {
    if h == NO_HANDLE then InvalidArg
    else if h !in t.diskio then InvalidState
    else if o.path != Ok then o.path
    else o.wl
  }

  /** An unmount of a registered handle drops it, whatever it then reports. */
  ghost function Unmounted(t: Tables, h: int): (t': Tables)
    requires |t.diskio| == |t.vfs|
  {
    var p := IndexOf(t.diskio, h);
    if h == NO_HANDLE || p == |t.diskio| || p >= |t.drives| || !(0 <= h < |t.instances|) then t
    else Tables(t.instances[h := false], t.diskio[p := NO_HANDLE], t.vfs[p := NO_HANDLE], t.drives[p := false])
  }

  class Registry {
    const volumes: nat            // FF_VOLUMES
    const instances: array<bool>  // s_jrnl_instance_ptrs[h] != NULL
    const diskio: array<int>      // ff_jrnl_handles
    const vfs: array<int>         // s_jrnl_handles
    const drives: array<bool>     // the FatFS driver table: drive registered

    constructor (volumes: nat)
      requires 1 <= volumes <= MAX_HANDLES
      ensures Agree() && this.volumes == volumes
      ensures fresh(instances) && fresh(diskio) && fresh(vfs) && fresh(drives)
    {
      this.volumes := volumes;
      instances := new bool[MAX_HANDLES](i => false);
      diskio := new int[MAX_HANDLES](i => NO_HANDLE);
      vfs := new int[MAX_HANDLES](i => NO_HANDLE);
      drives := new bool[volumes](i => false);
    }

    ghost predicate Shape()
    {
      && 1 <= volumes <= MAX_HANDLES
      && instances.Length == diskio.Length == vfs.Length == MAX_HANDLES
      && drives.Length == volumes
      && diskio != vfs && instances != drives
    }

    /** A registered handle names a live instance, at a drive FatFS knows, once. */
    ghost predicate Registered()
      requires Shape()
      reads diskio, instances, drives
    {
      RegisteredIn(diskio[..], instances[..], drives[..])
    }

    ghost function Contents(): Tables
      reads instances, diskio, vfs, drives
    {
      Tables(instances[..], diskio[..], vfs[..], drives[..])
    }

    /** Between calls: both tables agree, and every live instance is registered. */
    ghost predicate Agree()
      reads diskio, instances, drives, vfs
    {
      Shape() && AgreeIn(diskio[..], vfs[..], instances[..], drives[..])
    }

    /** jrnl_check_handle; the code relies on handle >= -1 */
    function CheckHandle(handle: int): (err: Err)
      requires Shape() && NO_HANDLE <= handle
      reads instances
      ensures err == Ok <==> 0 <= handle < MAX_HANDLES && instances[handle]
    {
      if handle == NO_HANDLE then InvalidState
      else if handle >= MAX_HANDLES then InvalidArg
      else if !instances[handle] then NotFound
      else Ok
    }

    /** The handle search of esp_jrnl_mount; `mounted` is the outcome of the rest. */
    method MountInstance(mounted: Err) returns (err: Err, handle: int)
      requires Shape()
      modifies instances
      ensures err == Ok ==>
        && mounted == Ok && 0 <= handle < MAX_HANDLES && !old(instances[handle])
        && instances[..] == old(instances[..])[handle := true]
      ensures err != Ok ==> handle == NO_HANDLE && instances[..] == old(instances[..])
      ensures
        var h := FirstFree(old(instances[..]));
        && err == (if h == MAX_HANDLES then NoMem else mounted)
        && (err == Ok ==> handle == h)
    {
      handle := NO_HANDLE;
      for i := 0 to MAX_HANDLES
        invariant handle == NO_HANDLE && forall k :: 0 <= k < i ==> instances[k]
      {
        if !instances[i] {
          handle := i;
          FirstFreeIs(instances[..], i);
          break;
        }
      }
      if handle == NO_HANDLE {
        FirstFreeIs(instances[..], MAX_HANDLES);
      }
      if handle == NO_HANDLE {
        return NoMem, NO_HANDLE;
      }
      if mounted != Ok {
        return mounted, NO_HANDLE;
      }
      instances[handle] := true;
      err := Ok;
    }

    /** ff_diskio_get_drive: some drive FatFS has free. */
    method GetDrive() returns (err: Err, pdrv: nat)
      requires Shape()
      ensures err == Ok ==> pdrv < volumes && !drives[pdrv]
      ensures err in {Ok, NotFound} && pdrv == FirstFree(drives[..])
      ensures err == Ok <==> FirstFree(drives[..]) < volumes
    {
      pdrv := 0;
      while pdrv < volumes
        invariant pdrv <= volumes && forall i :: 0 <= i < pdrv ==> drives[i]
      {
        if !drives[pdrv] {
          FirstFreeIs(drives[..], pdrv);
          return Ok, pdrv;
        }
        pdrv := pdrv + 1;
      }
      FirstFreeIs(drives[..], volumes);
      err := NotFound;
    }

    /** ff_diskio_register_jrnl */
    method RegisterDrive(pdrv: nat, handle: int) returns (err: Err)
      requires Shape()
      modifies diskio, drives
      ensures err == (if pdrv < volumes then Ok else InvalidArg)
      ensures pdrv < volumes ==>
        diskio[..] == old(diskio[..])[pdrv := handle] && drives[..] == old(drives[..])[pdrv := true]
      ensures pdrv >= volumes ==> diskio[..] == old(diskio[..]) && drives[..] == old(drives[..])
    {
      if pdrv >= volumes {
        return InvalidArg;
      }
      drives[pdrv] := true;
      diskio[pdrv] := handle;
      err := Ok;
    }

    /** ff_diskio_get_pdrv_jrnl */
    method FindDrive(handle: int) returns (pdrv: nat)
      requires Shape()
      ensures pdrv == NO_DRIVE || (pdrv < volumes && diskio[pdrv] == handle)
      ensures pdrv == NO_DRIVE ==> forall i :: 0 <= i < volumes ==> diskio[i] != handle
    {
      for i := 0 to volumes
        invariant forall k :: 0 <= k < i ==> diskio[k] != handle
      {
        if diskio[i] == handle {
          return i;
        }
      }
      pdrv := NO_DRIVE;
    }

    /** ff_diskio_clear_pdrv_jrnl */
    method ClearDrive(handle: int)
      requires Shape()
      modifies diskio
      ensures forall i :: 0 <= i < MAX_HANDLES ==>
        diskio[i] == if i < volumes && old(diskio[i]) == handle then NO_HANDLE else old(diskio[i])
    {
      for i := 0 to volumes
        invariant forall k :: 0 <= k < MAX_HANDLES ==>
          diskio[k] == if k < i && old(diskio[k]) == handle then NO_HANDLE else old(diskio[k])
      {
        if diskio[i] == handle {
          diskio[i] := NO_HANDLE;
        }
      }
    }

    /** vfs_fat_register_pdrv_jrnl_handle */
    method RegisterVfs(pdrv: nat, handle: int) returns (err: Err)
      requires Shape()
      modifies vfs
      ensures err == (if pdrv >= MAX_HANDLES then InvalidArg else if old(vfs[pdrv]) != NO_HANDLE then InvalidState else Ok)
      ensures vfs[..] == if err == Ok then old(vfs[..])[pdrv := handle] else old(vfs[..])
    {
      if pdrv >= MAX_HANDLES {
        return InvalidArg;
      }
      if vfs[pdrv] != NO_HANDLE {
        return InvalidState;
      }
      vfs[pdrv] := handle;
      err := Ok;
    }

    /** vfs_fat_unregister_pdrv_jrnl_handle: the first match only */
    method UnregisterVfs(handle: int) returns (err: Err)
      requires Shape()
      modifies vfs
      ensures err == (if handle == NO_HANDLE then InvalidArg else if handle in old(vfs[..]) then Ok else NotFound)
      ensures err != Ok ==> vfs[..] == old(vfs[..])
      ensures err == Ok ==>
        exists i :: 0 <= i < MAX_HANDLES && old(vfs[i]) == handle && vfs[..] == old(vfs[..])[i := NO_HANDLE]
    {
      if handle == NO_HANDLE {
        return InvalidArg;
      }
      for i := 0 to MAX_HANDLES
        invariant vfs[..] == old(vfs[..])
        invariant forall k :: 0 <= k < i ==> vfs[k] != handle
      {
        if vfs[i] == handle {
          vfs[i] := NO_HANDLE;
          return Ok;
        }
      }
      err := NotFound;
    }

    /** The VFS table holds nothing the diskio table does not. */
    ghost predicate VfsWithin()
      requires Shape()
      reads diskio, vfs
    {
      forall i :: 0 <= i < MAX_HANDLES && vfs[i] != NO_HANDLE ==> vfs[i] == diskio[i]
    }

    /**
      esp_vfs_fat_spiflash_unmount_jrnl. A handle that is registered disappears from
      all four tables, even when a later step reports an error; any other handle is
      refused and nothing changes.
     */
    method Unmount(handle: int, o: Outcomes) returns (err: Err, handle': int)
      requires Shape() && Registered() && VfsWithin() && NO_HANDLE <= handle
      modifies instances, diskio, vfs, drives
      ensures forall p :: 0 <= p < MAX_HANDLES && handle != NO_HANDLE && old(diskio[p]) == handle ==>
        && p < volumes && handle < MAX_HANDLES && handle' == NO_HANDLE
        && err == (if o.path != Ok then o.path else o.wl)
        && diskio[..] == old(diskio[..])[p := NO_HANDLE]
        && vfs[..] == old(vfs[..])[p := NO_HANDLE]
        && drives[..] == old(drives[..])[p := false]
        && instances[..] == old(instances[..])[handle := false]
      ensures handle == NO_HANDLE || handle !in old(diskio[..]) ==>
        && err == (if handle == NO_HANDLE then InvalidArg else InvalidState) && handle' == handle
        && diskio[..] == old(diskio[..]) && vfs[..] == old(vfs[..])
        && drives[..] == old(drives[..]) && instances[..] == old(instances[..])
    {
      handle' := handle;
      if handle == NO_HANDLE {
        return InvalidArg, handle;
      }
      err := UnregisterVfs(handle);
      var pdrv := FindDrive(handle);
      if pdrv == NO_DRIVE {
        return InvalidState, handle;
      }
      assert diskio[pdrv] == handle;
      ClearDrive(handle);
      drives[pdrv] := false;  // ff_diskio_unregister
      err := CheckHandle(handle);  // esp_jrnl_get_diskio_handle, esp_jrnl_unmount
      if err != Ok {
        assert false;
      }
      instances[handle] := false;
      handle' := NO_HANDLE;
      err := o.path;  // vfs_fat_unregister_path_jrnl
      if err == Ok {
        err := o.wl;  // wl_unmount
      }
    }

    lemma VfsIsDiskio()
      requires Agree()
      ensures vfs[..] == diskio[..]
    {
    }

    /** The steps of a mount after the drive is registered. */
    method Connect(pdrv: nat, handle: int, o: Outcomes) returns (err: Err)
      requires Shape() && pdrv < MAX_HANDLES && vfs[pdrv] == NO_HANDLE
      modifies vfs
      ensures err == if o.path != Ok && o.path != InvalidState then o.path else o.fat
      ensures err == Ok ==> vfs[..] == old(vfs[..])[pdrv := handle]
      ensures vfs[..] == old(vfs[..]) || vfs[..] == old(vfs[..])[pdrv := handle]
    {
      err := o.path;  // vfs_fat_register_cfg_jrnl
      if err == Ok || err == InvalidState {
        err := RegisterVfs(pdrv, handle);
        if err == Ok {
          err := o.fat;  // f_mount, f_mkfs, esp_jrnl_set_direct_io
        }
      }
    }

    /**
      esp_vfs_fat_spiflash_mount_jrnl, with every foreign step free to fail.
      Success adds the first free handle, at the first free drive in both tables;
      failure at any step leaves all four tables as they were.
     */
    method Mount(o: Outcomes) returns (err: Err, handle: int)
      requires Agree()
      modifies instances, diskio, vfs, drives
      ensures Agree()
      ensures err == MountError(old(Contents()), o)
      ensures err == Ok ==>
        && handle == FirstFree(old(instances[..])) < MAX_HANDLES && FirstFree(old(drives[..])) < volumes
        && !old(instances[handle]) && handle !in old(diskio[..])
        && Contents() == Mounted(old(Contents()))
      ensures err != Ok ==> handle == NO_HANDLE && Contents() == old(Contents())
    {
      hide AgreeIn, RegisteredIn;
      ghost var d0, i0, r0 := diskio[..], instances[..], drives[..];
      assert vfs[..] == d0 by {
        VfsIsDiskio();
      }
      var pdrv;
      handle := NO_HANDLE;
      err, pdrv := GetDrive();
      if err != Ok {
        return NoMem, NO_HANDLE;
      }
      if o.wl != Ok {
        return o.wl, NO_HANDLE;  // wl_mount; the cleanup call refuses the invalid handle
      }
      err, handle := MountInstance(o.jrnl);
      if err != Ok {
        return;
      }
      AgreeAdd(d0, i0, r0, pdrv, handle);
      err := RegisterDrive(pdrv, handle);
      assert err == Ok;
      err := Connect(pdrv, handle, o);
      if err != Ok {
        var e;
        assert diskio[pdrv] == handle;
        e, handle := Unmount(handle, o);
        assert diskio[..] == d0 && vfs[..] == d0 && instances[..] == i0 && drives[..] == r0;
      } else {
        assert vfs[..] == diskio[..] == d0[pdrv := handle];
        assert instances[..] == i0[handle := true] && drives[..] == r0[pdrv := true];
      }
    }
  }

  /** A mount, or an unmount of any handle the caller may hold. */
  datatype Request = MountNew(o: Outcomes) | UnmountOld(handle: int, o: Outcomes)

  /** What a request answers, and what it makes of the tables. */
  function Answer(t: Tables, r: Request): Err
  {
    match r
    case MountNew(o) => MountError(t, o)
    case UnmountOld(h, o) => UnmountError(t, h, o)
  }

  ghost function Served(t: Tables, r: Request): (t': Tables)
    requires |t.drives| <= |t.diskio| == |t.vfs|
    ensures |t'.drives| == |t.drives| && |t'.diskio| == |t'.vfs| == |t.diskio|
  {
    match r
    case MountNew(o) => if MountError(t, o) == Ok then Mounted(t) else t
    case UnmountOld(h, _) => Unmounted(t, h)
  }

  /** The tables after the first requests. */
  ghost function ServedAll(t: Tables, requests: seq<Request>): (t': Tables)
    requires |t.drives| <= |t.diskio| == |t.vfs|
    ensures |t'.drives| == |t.drives| && |t'.diskio| == |t'.vfs| == |t.diskio|
  {
    if requests == [] then t
    else Served(ServedAll(t, requests[..|requests| - 1]), requests[|requests| - 1])
  }

  method Serve(r: Registry, request: Request) returns (err: Err)
    requires r.Agree() && (request.UnmountOld? ==> NO_HANDLE <= request.handle)
    modifies r.instances, r.diskio, r.vfs, r.drives
    ensures r.Agree() && |old(r.Contents()).drives| <= |old(r.Contents()).diskio| == |old(r.Contents()).vfs|
    ensures err == Answer(old(r.Contents()), request)
    ensures r.Contents() == Served(old(r.Contents()), request)
  {
    var handle;
    match request {
      case MountNew(o) => err, handle := r.Mount(o);
      case UnmountOld(h, o) =>
        ghost var t := r.Contents();
        ghost var p := IndexOf(t.diskio, h);
        err, handle := r.Unmount(h, o);
        if h != NO_HANDLE && h in t.diskio {
          AgreeDrop(t.diskio, t.instances, t.drives, p);
        }
    }
  }

  /**
    Any sequence of mounts and unmounts, whatever fails in them, answers and leaves
    the tables as the sequence of whole steps does, and the tables agree throughout.
   */
  method Run(r: Registry, requests: seq<Request>) returns (errs: seq<Err>)
    requires r.Agree()
    requires forall i :: 0 <= i < |requests| && requests[i].UnmountOld? ==> NO_HANDLE <= requests[i].handle
    modifies r.instances, r.diskio, r.vfs, r.drives
    ensures r.Agree() && |errs| == |requests|
    ensures |old(r.Contents()).drives| <= |old(r.Contents()).diskio| == |old(r.Contents()).vfs|
    ensures r.Contents() == ServedAll(old(r.Contents()), requests)
    ensures forall i :: 0 <= i < |requests| ==>
      errs[i] == Answer(ServedAll(old(r.Contents()), requests[..i]), requests[i])
  {
    hide Served, Answer, AgreeIn;
    errs := [];
    ghost var t := r.Contents();
    assert requests[..0] == [];
    for n := 0 to |requests|
      invariant r.Agree() && |errs| == n
      invariant r.Contents() == ServedAll(t, requests[..n])
      invariant forall i :: 0 <= i < n ==> errs[i] == Answer(ServedAll(t, requests[..i]), requests[i])
    {
      var err := Serve(r, requests[n]);
      errs := errs + [err];
      assert requests[..n + 1][..n] == requests[..n];
    }
    assert requests[..|requests|] == requests;
  }
}
