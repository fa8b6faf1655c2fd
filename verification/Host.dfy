/**
  Everything below the component: the raw disk (wear-levelled flash) and the
  heap. Raw operations work sector by sector; at every sector the operation may
  complete, fail, or lose power. A sector whose update did not complete holds
  arbitrary bytes. The last sector, which keeps the master record, is assumed a
  little better: after an incomplete update it does not read as a record of this
  volume, unless that record was there before or was being written. For updates
  cut between two bytes it is a theorem: Layout.TornMasterWrite and
  Layout.TornMasterErase.

  After the power is cut every raw operation fails and changes nothing, so a run
  that ends without power ends with the image the cut left behind.
 */
module HostDevice {
  import opened Layout
  import opened Log
  import opened Durability

  /** What failed so far: raw disk operations, and allocations. */
  datatype Tally = Tally(disk: nat, heap: nat)

  /** A call stops at the first thing that fails below it, and reports that. */
  predicate FailFast(err: Err, before: Tally, after: Tally)
  {
    && before.disk <= after.disk && before.heap <= after.heap
    && after.disk + after.heap <= before.disk + before.heap + 1
    && (before.disk < after.disk ==> err == Io)
    && (before.heap < after.heap ==> err == NoMem)
  }

  class Host {
    const vol: Volume
    var image: Image
    var powered: bool
    ghost var diskFailures: nat  // raw operations that failed so far
    ghost var refusals: nat      // allocations refused so far

    constructor (vol: Volume, image: Image)
      requires vol.Sound() && |image| == vol.sectors
      ensures Valid() && this.vol == vol && this.image == image && powered && Failures() == 0
    {
      this.vol := vol;
      this.image := image;
      this.powered := true;
      this.diskFailures := 0;
      this.refusals := 0;
    }

    /** Everything that was refused below the component. */
    ghost function Failures(): nat
      reads this`diskFailures, this`refusals
    {
      diskFailures + refusals
    }

    ghost function Faults(): Tally
      reads this`diskFailures, this`refusals
    {
      Tally(diskFailures, refusals)
    }

    ghost predicate Valid()
      reads this
    {
      vol.Sound() && |image| == vol.sectors
    }

    /** The master sector after an update towards `goal` that was cut, or not. */
    ghost predicate LastKept(before: Image, goal: Sector)
      requires Valid() && |before| == vol.sectors
      reads this
    {
      var s := image[vol.Last()];
      s == before[vol.Last()] || MasterOf(s) == MasterOf(goal) || !vol.Accepts(s)
    }

    /** Sector `i` did not reach `goal`: it may hold anything it could hold. */
    method Tear(i: nat, goal: Sector)
      requires Valid() && i < vol.sectors
      modifies this`image
      ensures Valid()
      ensures SameOff(old(image), image, i, i + 1)
      ensures i == vol.Last() ==> LastKept(old(image), goal)
    {
      var s: Sector := *;
      if i == vol.Last() && MasterOf(s) != MasterOf(goal) && vol.Accepts(s) {
        s := image[i];
      }
      image := image[i := s];
    }

    /** Programming a sector that was not erased leaves anything at all. */
    method Scramble(i: nat)
      requires Valid() && i < vol.sectors
      modifies this`image
      ensures Valid()
      ensures SameOff(old(image), image, i, i + 1)
    {
      var s: Sector := *;
      image := image[i := s];
    }

    /** The outcome of one sector step: it completes, fails, or loses power. */
    method Step() returns (done: bool)
      modifies this`powered, this`diskFailures
      ensures done <==> diskFailures == old(diskFailures)
      ensures old(diskFailures) <= diskFailures <= old(diskFailures) + 1
      ensures done ==> powered == old(powered)
      ensures powered ==> old(powered)
    {
      if * {
        done := true;
      } else {
        done := false;
        diskFailures := diskFailures + 1;
        if * {
          powered := false;
        }
      }
    }

    /** Erase `n` sectors, one after the other. */
    method EraseSectors(first: nat, n: nat) returns (err: Err)
      requires Valid() && powered && first + n <= vol.sectors
      modifies this`image, this`powered, this`diskFailures
      ensures Valid() && old(diskFailures) <= diskFailures <= old(diskFailures) + 1
      ensures err in {Ok, Io} && (err == Ok <==> diskFailures == old(diskFailures))
      ensures SameOff(old(image), image, first, first + n)
      ensures err == Ok ==> forall i :: first <= i < first + n ==> image[i] == vol.Blank()
      ensures LastKept(old(image), vol.Blank())
    {
      hide Volume.Blank, Volume.Accepts, MasterOf;
      var i := first;
      while i < first + n
        invariant Valid() && first <= i <= first + n
        invariant diskFailures == old(diskFailures)
        invariant SameOff(old(image), image, first, i)
        invariant forall k :: first <= k < i ==> image[k] == vol.Blank()
        invariant LastKept(old(image), vol.Blank())
      {
        var done := Step();
        if !done {
          Tear(i, vol.Blank());
          return Io;
        }
        image := image[i := vol.Blank()];
        i := i + 1;
      }
      err := Ok;
    }

    /**
      Program the first `n` sectors of `data`. Flash programs erased sectors only:
      what is left in a sector that was not erased is not specified.
     */
    method ProgramSectors(first: nat, data: seq<Sector>, n: nat) returns (err: Err)
      requires Valid() && powered && first + n <= vol.sectors && n <= |data|
      modifies this`image, this`powered, this`diskFailures
      ensures Valid() && old(diskFailures) <= diskFailures <= old(diskFailures) + 1
      ensures err in {Ok, Io} && (err == Ok <==> diskFailures == old(diskFailures))
      ensures SameOff(old(image), image, first, first + n)
      ensures err == Ok ==>
        forall i :: first <= i < first + n && old(image)[i] == vol.Blank() ==> image[i] == data[i - first]
      ensures first <= vol.Last() < first + n && old(image)[vol.Last()] == vol.Blank() ==>
        LastKept(old(image), data[vol.Last() - first])
    {
      hide Volume.Blank, Volume.Accepts, MasterOf;
      var i := first;
      while i < first + n
        invariant Valid() && first <= i <= first + n
        invariant diskFailures == old(diskFailures)
        invariant SameOff(old(image), image, first, i)
        invariant forall k :: first <= k < i && old(image)[k] == vol.Blank() ==> image[k] == data[k - first]
        invariant first <= vol.Last() < first + n && old(image)[vol.Last()] == vol.Blank() ==>
          LastKept(old(image), data[vol.Last() - first])
      {
        var done := Step();
        if image[i] != vol.Blank() {
          Scramble(i);
        } else if done {
          image := image[i := data[i - first]];
        } else {
          Tear(i, data[i - first]);
        }
        if !done {
          return Io;
        }
        i := i + 1;
      }
      err := Ok;
    }

    /** disk_erase_range */
    method EraseRange(addr: Word, size: Word) returns (err: Err)
      requires Valid()
      modifies this`image, this`powered, this`diskFailures
      ensures Valid()
      ensures powered ==> old(powered)
      ensures !vol.Aligned(addr, size) ==>
        err == InvalidSize && image == old(image) && diskFailures == old(diskFailures)
      ensures vol.Aligned(addr, size) ==>
        && err in {Ok, Io}
        && (err == Ok <==> diskFailures == old(diskFailures))
        && old(diskFailures) <= diskFailures <= old(diskFailures) + 1
        && var first, n := vol.SectorOf(addr), vol.SectorOf(size);
        && first + n <= vol.sectors
        && SameOff(old(image), image, first, first + n)
        && (err == Ok ==> forall i :: first <= i < first + n ==> image[i] == vol.Blank())
        && LastKept(old(image), vol.Blank())
      ensures !old(powered) ==> image == old(image) && err != Ok
    {
      hide Volume.Blank, Volume.Accepts, MasterOf;
      if !vol.Aligned(addr, size) {
        err := InvalidSize;
      } else {
        RangeInVolume(vol, addr, size);
        hide Volume.Aligned, Volume.SectorOf;
        if powered {
          err := EraseSectors(vol.SectorOf(addr), vol.SectorOf(size));
        } else {
          diskFailures := diskFailures + 1;
          err := Io;
        }
      }
    }

    /** disk_write of `size` bytes of `data` */
    method WriteRange(addr: Word, data: seq<Sector>, size: Word) returns (err: Err)
      requires Valid()
      requires vol.SectorOf(size) <= |data|
      modifies this`image, this`powered, this`diskFailures
      ensures Valid()
      ensures powered ==> old(powered)
      ensures !vol.Aligned(addr, size) ==>
        err == InvalidSize && image == old(image) && diskFailures == old(diskFailures)
      ensures vol.Aligned(addr, size) ==>
        && err in {Ok, Io}
        && (err == Ok <==> diskFailures == old(diskFailures))
        && old(diskFailures) <= diskFailures <= old(diskFailures) + 1
        && var first, n := vol.SectorOf(addr), vol.SectorOf(size);
        && first + n <= vol.sectors
        && SameOff(old(image), image, first, first + n)
        && (err == Ok ==>
              forall i :: first <= i < first + n && old(image)[i] == vol.Blank() ==> image[i] == data[i - first])
        && (first <= vol.Last() < first + n && old(image)[vol.Last()] == vol.Blank() ==>
              LastKept(old(image), data[vol.Last() - first]))
      ensures !old(powered) ==> image == old(image) && err != Ok
    {
      hide Volume.Blank, Volume.Accepts, MasterOf;
      if !vol.Aligned(addr, size) {
        err := InvalidSize;
      } else {
        RangeInVolume(vol, addr, size);
        hide Volume.Aligned, Volume.SectorOf;
        if powered {
          err := ProgramSectors(vol.SectorOf(addr), data, vol.SectorOf(size));
        } else {
          diskFailures := diskFailures + 1;
          err := Io;
        }
      }
    }

    /** disk_read of whole sectors. */
    method ReadRange(addr: Word, size: Word) returns (err: Err, data: seq<Sector>)
      requires Valid()
      modifies this`powered, this`diskFailures
      ensures powered ==> old(powered)
      ensures !vol.Aligned(addr, size) ==> err == InvalidSize && diskFailures == old(diskFailures)
      ensures vol.Aligned(addr, size) ==>
        && err in {Ok, Io}
        && (err == Ok <==> diskFailures == old(diskFailures))
        && old(diskFailures) <= diskFailures <= old(diskFailures) + 1
        && var first, n := vol.SectorOf(addr), vol.SectorOf(size);
        && first + n <= vol.sectors
        && (err == Ok ==> data == image[first..first + n])
      ensures !old(powered) ==> err != Ok
    {
      data := [];
      if !vol.Aligned(addr, size) {
        return InvalidSize, [];
      }
      RangeInVolume(vol, addr, size);
      if !powered {
        diskFailures := diskFailures + 1;
        return Io, [];
      }
      var done := Step();
      if !done {
        return Io, [];
      }
      var first := vol.SectorOf(addr);
      return Ok, image[first..first + vol.SectorOf(size)];
    }

    /** disk_read of the first `size` bytes of one sector. */
    method ReadHead(addr: Word, size: Word) returns (err: Err, bytes: Sector)
      requires Valid()
      modifies this`powered, this`diskFailures
      ensures powered ==> old(powered)
      ensures addr % vol.sectorSize == 0 && addr + vol.sectorSize <= vol.Size() && size <= vol.sectorSize ==>
        && err in {Ok, Io}
        && (err == Ok <==> diskFailures == old(diskFailures))
        && old(diskFailures) <= diskFailures <= old(diskFailures) + 1
        && vol.SectorOf(addr) < vol.sectors
        && (err == Ok ==> bytes == Prefix(image[vol.SectorOf(addr)], size))
      ensures !old(powered) ==> err != Ok
    {
      if addr % vol.sectorSize != 0 || addr + vol.sectorSize > vol.Size() || size > vol.sectorSize {
        return InvalidSize, [];
      }
      ExactLength(vol, 1);
      RangeInVolume(vol, addr, vol.sectorSize);
      if !powered {
        diskFailures := diskFailures + 1;
        return Io, [];
      }
      var done := Step();
      if !done {
        return Io, [];
      }
      return Ok, Prefix(image[vol.SectorOf(addr)], size);
    }

    /** calloc(count, size): refuses a product that overflows, may refuse any other. */
    method Calloc(count: Word, size: Word) returns (ok: bool)
      modifies this`refusals
      ensures ok ==> count * size < TWO32
      ensures old(refusals) <= refusals <= old(refusals) + 1
      ensures count * size < TWO32 ==> (ok <==> refusals == old(refusals))
      ensures count * size >= TWO32 ==> refusals == old(refusals)
    {
      if count * size >= TWO32 {
        return false;
      }
      if * {
        refusals := refusals + 1;
        return false;
      }
      return true;
    }
  }
}
