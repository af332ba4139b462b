/** The SFS driver of kernel/fs/sfs.c: its global tables and the disk, changed in place. */
module Sfs {
  import opened Common
  import opened SfsModel
  import opened SfsFacts
  import opened SfsRuns

  /** A C string: no NUL before its end. */
  predicate CString(path: seq<byte>)
  {
    forall i :: 0 <= i < |path| ==> path[i] != 0
  }

  lemma ContentsStep(owner: sector, disk: seq<sector>, id: byte, i: nat, prefix: seq<byte>)
    requires i < SECTORS <= |disk|
    ensures prefix + Contents(owner, disk, id, i) == (if owner[i] == id then prefix + disk[i] else prefix) + Contents(owner, disk, id, i + 1)
  {
  }

  lemma ContentsEnd(owner: sector, disk: seq<sector>, id: byte)
    requires SECTORS <= |disk|
    ensures Contents(owner, disk, id, SECTORS) == []
  {
  }

  lemma TakeStep(path: seq<byte>, p: nat, k: nat)
    requires p <= |path| && k > 0
    ensures var t := TakeName(path, p, k);
            if p == |path| || path[p] == SLASH then t == [] else t != [] && t[0] == path[p] && t[1..] == TakeName(path, p + 1, k - 1)
  {
  }

  lemma PadStep(t: seq<byte>, c: byte)
    requires |t| < NAME_LENGTH
    ensures Padded(t)[|t| := c] == Padded(t + [c])
  {
  }

  lemma ShiftFirst(t: seq<byte>, rest: seq<byte>)
    requires rest != []
    ensures t + rest == (t + [rest[0]]) + rest[1..]
  {
  }

  lemma TakeNone(path: seq<byte>, p: nat)
    requires p <= |path|
    ensures TakeName(path, p, 0) == []
  {
  }

  class Driver {
    const filetable: array<FileEntry>
    const tabletable: array<byte>
    const pathbuffer: array<byte>
    const disk: array<sector>
    var offsetFirstSectortable: nat
    var sectortablesize: nat

    predicate Shape()
    {
      filetable.Length == FILE_ENTRIES && tabletable.Length == SECTORS && pathbuffer.Length == NAME_LENGTH && tabletable != pathbuffer
    }

    ghost function State(): Fs
      requires Shape()
      reads filetable, tabletable, pathbuffer, disk
    {
      Fs(filetable[..], tabletable[..], pathbuffer[..], disk[..])
    }

    ghost predicate Valid()
      reads this, filetable, tabletable, pathbuffer, disk
    {
      && Shape() && WellFormed(State())
      && offsetFirstSectortable == TableSector(disk[..])
      && offsetFirstSectortable + sectortablesize == DirectorySector(disk[..])
    }

    /** Driver tables for a disk, not mounted yet. */
    constructor (disk: array<sector>)
      ensures Shape() && this.disk == disk
      ensures fresh(filetable) && fresh(tabletable) && fresh(pathbuffer)
    {
      filetable := new FileEntry[FILE_ENTRIES](_ => NO_ENTRY);
      tabletable := new byte[SECTORS](_ => 0);
      pathbuffer := new byte[NAME_LENGTH](_ => 0);
      this.disk := disk;
      offsetFirstSectortable, sectortablesize := 0, 0;
    }

    method WriteRaw(lba: nat, data: sector)
      requires lba < disk.Length
      modifies disk
      ensures disk[..] == old(disk[..])[lba := data]
    {
      disk[lba] := data;
    }

    method ClearBuffer()
      requires Shape()
      modifies pathbuffer
      ensures pathbuffer[..] == Padded([])
    {
      for i := 0 to NAME_LENGTH
        invariant forall k :: 0 <= k < i ==> pathbuffer[k] == 0
      {
        pathbuffer[i] := 0;
      }
    }

    /** Copies one path component into the name buffer. */
    method FillName(path: seq<byte>, start: nat) returns (pathpointer: nat, hasDot: bool)
      requires Shape() && start <= |path| && CString(path)
      modifies pathbuffer
      ensures var t := TakeName(path, start, NAME_LENGTH);
              pathpointer == start + |t| && pathbuffer[..] == Padded(t) && (hasDot <==> DOT in t)
    {
      hide TakeName, Padded;
      ClearBuffer();
      pathpointer := start;
      hasDot := false;
      ghost var t: seq<byte>, rest := [], TakeName(path, start, NAME_LENGTH);
      assert t + rest == rest;
      var i := 0;
      while i < NAME_LENGTH
        invariant 0 <= i <= NAME_LENGTH && |t| == i && pathpointer == start + i <= |path|
        invariant rest == TakeName(path, pathpointer, NAME_LENGTH - i)
        invariant TakeName(path, start, NAME_LENGTH) == t + rest
        invariant pathbuffer[..] == Padded(t)
        invariant hasDot <==> DOT in t
      {
        TakeStep(path, pathpointer, NAME_LENGTH - i);
        var deze: byte := if pathpointer < |path| then path[pathpointer] else 0;
        if deze == SLASH || deze == 0 {
          break;
        }
        if deze == DOT {
          hasDot := true;
        }
        PadStep(t, deze);
        ShiftFirst(t, rest);
        pathbuffer[i] := deze;
        pathpointer := pathpointer + 1;
        t, rest := t + [deze], rest[1..];
        i := i + 1;
      }
      TakeNone(path, pathpointer);
      assert t + [] == t;
    }

    /** Does entry `i` bear the name in the buffer? */
    method NameMatches(i: nat) returns (te: bool)
      requires Shape() && i < FILE_ENTRIES
      ensures te <==> filetable[i].filename == pathbuffer[..]
    {
      te := true;
      for y := 0 to NAME_LENGTH
        invariant te <==> forall k :: 0 <= k < y ==> filetable[i].filename[k] == pathbuffer[k]
      {
        if filetable[i].filename[y] != pathbuffer[y] {
          te := false;
        }
      }
    }

    /** Is the name in the buffer listed? Looks at every entry. */
    method NameExists() returns (nameexists: bool)
      requires Shape()
      ensures nameexists <==> Named(filetable[..], pathbuffer[..])
    {
      nameexists := false;
      ghost var d: seq<FileEntry> := filetable[..];
      for i := 0 to FILE_ENTRIES
        invariant nameexists <==> exists k :: 0 <= k < i && d[k].filename == pathbuffer[..]
      {
        var te := NameMatches(i);
        if te {
          nameexists := true;
        }
      }
    }

    /** sfs_get_detail: follows the path through listed names and leaves the name it stops at in the buffer. */
    method SfsGetDetail(path: seq<byte>)
      requires Shape() && CString(path)
      modifies pathbuffer
      ensures pathbuffer[..] == Resolved(path, filetable[..], old(pathbuffer[..]))
    {
      hide Named, TakeName, Padded;
      if path == [] {
        return;
      }
      var pathpointer := 0;
      while true
        invariant 0 <= pathpointer <= |path|
        invariant Resolve(path, filetable[..], 0) == Resolve(path, filetable[..], pathpointer)
        decreases |path| - pathpointer
      {
        ghost var start := pathpointer;
        var hasDot;
        pathpointer, hasDot := FillName(path, pathpointer);
        FullNameWhenCut(path, start, NAME_LENGTH);
        if hasDot {
          return;
        }
        var nameexists := NameExists();
        if !nameexists {
          return;
        }
        if pathpointer < |path| && path[pathpointer] == SLASH {
          pathpointer := pathpointer + 1;
        } else if pathpointer == |path| {
          return;
        }
      }
    }

    /** The first entry that bears the name in the buffer. */
    method FindListed() returns (found: bool, fileid: byte)
      requires Shape()
      ensures found <==> Named(filetable[..], pathbuffer[..])
      ensures found ==> fileid == IdOf(filetable[..], pathbuffer[..])
      ensures !found ==> fileid == 0
    {
      found, fileid := false, 0;
      ghost var d: seq<FileEntry> := filetable[..];
      ghost var n: name := pathbuffer[..];
      for i := 0 to FILE_ENTRIES
        invariant forall k :: 0 <= k < i ==> d[k].filename != n
        invariant IdOf(d, n) == IdOf(d[i..], n)
      {
        var te := NameMatches(i);
        if te {
          assert d[i..][0].filename == n;
          return true, filetable[i].fileid;
        }
        assert d[i..][1..] == d[i + 1..];
      }
    }

    /** Reports whether the path leads to a listed file. */
    method SfsExists(path: seq<byte>) returns (nameexists: bool)
      requires Shape() && CString(path)
      modifies pathbuffer
      ensures pathbuffer[..] == Resolved(path, filetable[..], old(pathbuffer[..]))
      ensures nameexists <==> Named(filetable[..], pathbuffer[..])
    {
      SfsGetDetail(path);
      var id;
      nameexists, id := FindListed();
    }

    /** The smallest identifier from 2 that no entry uses; the search ends because there are only 32 entries. */
    method FindFreshId() returns (number: byte)
      requires Shape()
      ensures FreshFrom(filetable[..], 2) < 256 && number as int == FreshFrom(filetable[..], 2) && 2 <= number <= 34
    {
      number := 2;
      ghost var d: directory := filetable[..];
      FreshIdExists(d);
      while true
        invariant 2 <= number <= 34 && FreshFrom(d, 2) == FreshFrom(d, number as nat)
        decreases 34 - number as int
      {
        var found := false;
        for i := 0 to FILE_ENTRIES
          invariant found <==> exists k :: 0 <= k < i && d[k].fileid == number
        {
          if filetable[i].fileid == number {
            found := true;
          }
        }
        assert found <==> HasId(d, number as int);
        if found {
          FreshFromSearches(d, number as nat);
          number := number + 1;
        } else {
          break;
        }
      }
    }

    /** Gives the first unused entry to the name in the buffer. */
    method AddEntry(number: byte)
      requires Shape()
      modifies filetable
      ensures filetable[..] == Added(old(filetable[..]), pathbuffer[..], number)
    {
      ghost var d: directory := filetable[..];
      FirstUnusedIsUnused(d);
      var i := 0;
      while i < FILE_ENTRIES
        invariant 0 <= i <= FILE_ENTRIES && filetable[..] == d
        invariant forall k :: 0 <= k < i ==> d[k].fileid != 0
      {
        if filetable[i].fileid == 0 {
          filetable[i] := filetable[i].(fileid := number);
          filetable[i] := filetable[i].(filename := pathbuffer[..]);
          assert i == FirstUnused(d);
          assert filetable[..] == d[i := d[i].(fileid := number, filename := pathbuffer[..])];
          break;
        }
        i := i + 1;
      }
    }

    method SfsNewFile(path: seq<byte>) returns (number: byte)
      requires Valid() && CString(path)
      modifies filetable, pathbuffer, disk
      ensures Valid()
      ensures FreshFrom(old(State()).dir, 2) < 256
      ensures (State(), number) == NewFile(old(State()), path)
    {
      hide Resolve, GoodDir, EncodeEntries, Bootable, CString, Added, FreshFrom;
      NewFileKeepsWellFormed(State(), path);
      SfsGetDetail(path);
      number := FindFreshId();
      AddEntry(number);
      WriteRaw(offsetFirstSectortable + sectortablesize, EncodeDir(filetable[..]));
    }

    /** Sectors needed for `size` bytes: always one more than the full ones. */
    method CountSectors(size: nat) returns (sectorsize: nat)
      requires size < 0x7fff_fe00
      ensures sectorsize == SectorsFor(size) && sectorsize > 0
      ensures (sectorsize - 1) * 512 <= size < sectorsize * 512
    {
      sectorsize := 1;
      var calcsect := sectorsize * SECTOR_SIZE;
      while calcsect <= size
        invariant 1 <= sectorsize <= SectorsFor(size) && calcsect == sectorsize * SECTOR_SIZE
        decreases size + 1 - calcsect
      {
        sectorsize := sectorsize + 1;
        calcsect := sectorsize * SECTOR_SIZE;
      }
    }

    method ReleaseSectors(id: byte)
      requires Shape()
      modifies tabletable
      ensures tabletable[..] == Released(old(tabletable[..]), id)
    {
      for i := 0 to SECTORS
        invariant forall k :: 0 <= k < i ==> tabletable[k] == if old(tabletable[k]) == id then 0 else old(tabletable[k])
        invariant forall k :: i <= k < SECTORS ==> tabletable[k] == old(tabletable[k])
      {
        if tabletable[i] == id {
          tabletable[i] := 0;
        }
      }
    }

    method ClaimSectors(id: byte, sectorsize: nat)
      requires Shape() && sectorsize > 0
      modifies tabletable
      ensures tabletable[..] == Claimed(old(tabletable[..]), id, sectorsize, FIRST_DATA)
    {
      ghost var before: sector := tabletable[..];
      ghost var now := before;
      var tmpsect := sectorsize;
      var i := FIRST_DATA;
      while i < SECTORS
        invariant FIRST_DATA <= i <= SECTORS && tmpsect > 0 && now == tabletable[..]
        invariant Claimed(before, id, sectorsize, FIRST_DATA) == Claimed(now, id, tmpsect, i)
      {
        if tabletable[i] == 0 {
          tabletable[i] := id;
          now := now[i := id];
          tmpsect := tmpsect - 1;
          if tmpsect == 0 {
            break;
          }
        }
        i := i + 1;
      }
    }

    /** Stores the buffer in every sector of `id`. The offset is an eight-bit value, so it never leaves 0. */
    method StoreSectors(id: byte, buffer: seq<byte>)
      requires Shape() && disk.Length >= SECTORS && |buffer| >= SECTOR_SIZE
      modifies disk
      ensures disk[..] == Stored(old(disk[..]), tabletable[..], id, buffer[..SECTOR_SIZE])
    {
      var sectoroffsettemp := 0;
      for i := 0 to SECTORS
        invariant sectoroffsettemp == 0
        invariant forall k :: 0 <= k < disk.Length ==>
                                disk[k] == if k < i && tabletable[k] == id then buffer[..SECTOR_SIZE] else old(disk[k])
      {
        if tabletable[i] == id {
          WriteRaw(i, buffer[sectoroffsettemp..sectoroffsettemp + SECTOR_SIZE]);
          assert disk[i] == disk[..][i];
          sectoroffsettemp := (sectoroffsettemp + 512) % 256;
        }
      }
    }

    method SfsWrite(path: seq<byte>, buffer: seq<byte>, size: nat)
      requires Valid() && CString(path)
      requires Target(State(), path) != NO_NAME
      requires |buffer| >= SECTOR_SIZE && size < 0x7fff_fe00
      modifies filetable, tabletable, pathbuffer, disk
      ensures Valid()
      ensures FreshFrom(old(State()).dir, 2) < 256
      ensures State() == Write(old(State()), path, buffer, size)
    {
      hide Resolve, IdOf, Named, FreshFrom, Claimed, Released, Stored, EncodeEntries, Added, GoodDir, CString, SectorsFor, Bootable;
      WriteKeepsWellFormed(State(), path, buffer, size);
      var sectorsize := CountSectors(size);
      SfsGetDetail(path);
      var found, id := FindListed();
      if !found {
        id := SfsNewFile(path);
      }
      ReleaseSectors(id);
      ClaimSectors(id, sectorsize);
      WriteRaw(offsetFirstSectortable, tabletable[..]);
      StoreSectors(id, buffer);
    }

    /** Collects the sectors of the file; without a listed name nothing is read. */
    method SfsRead(path: seq<byte>) returns (r: Option<seq<byte>>)
      requires Shape() && CString(path) && disk.Length >= SECTORS
      modifies pathbuffer
      ensures r == Read(old(State()), path)
      ensures State() == old(State()).(path := Resolved(path, filetable[..], old(pathbuffer[..])))
    {
      hide Contents, Resolve, Named, IdOf;
      SfsGetDetail(path);
      var found, id := FindListed();
      if !found {
        return None;
      }
      var buffer := CollectSectors(id);
      r := Some(buffer);
    }

    method CollectSectors(id: byte) returns (buffer: seq<byte>)
      requires Shape() && disk.Length >= SECTORS
      ensures buffer == Contents(tabletable[..], disk[..], id, 0)
    {
      hide Contents;
      buffer := [];
      ghost var owner: sector, sectors: seq<sector> := tabletable[..], disk[..];
      for i := 0 to SECTORS
        invariant Contents(owner, sectors, id, 0) == buffer + Contents(owner, sectors, id, i)
      {
        ContentsStep(owner, sectors, id, i, buffer);
        if tabletable[i] == id {
          buffer := buffer + disk[i];
        }
      }
      ContentsEnd(owner, sectors, id);
    }

    /** initialiseSFS: reads both tables from a disk whose boot sector carries the signature and version. */
    method InitialiseSFS() returns (mounted: bool)
      requires Shape() && disk.Length > 0
      requires TableSector(disk[..]) < disk.Length && DirectorySector(disk[..]) < disk.Length
      modifies this`offsetFirstSectortable, this`sectortablesize, filetable, tabletable
      ensures mounted <==> disk[0][3] == 0xCD && disk[0][4] == 1
      ensures mounted ==>
                var t := disk[0][7] as nat + 256 * disk[0][8] as nat;
                var f := t + disk[0][9] as nat;
                && offsetFirstSectortable == t < disk.Length && sectortablesize == disk[0][9] as nat && f < disk.Length
                && tabletable[..] == disk[t]
                && forall i :: 0 <= i < 32 ==> filetable[i].filename == disk[f][16 * i..16 * i + 12] && filetable[i].fileid == disk[f][16 * i + 12]
      ensures mounted ==>
                && State() == Mounted(disk[..], pathbuffer[..])
                && offsetFirstSectortable == TableSector(disk[..])
                && offsetFirstSectortable + sectortablesize == DirectorySector(disk[..])
      ensures !mounted ==> State() == old(State())
    {
      var boot := disk[0];
      if boot[3] != 0xCD {
        return false;
      }
      if boot[4] != 1 {
        return false;
      }
      offsetFirstSectortable := boot[7] as nat + 256 * boot[8] as nat;
      sectortablesize := boot[9] as nat;
      var d := DecodeDir(disk[offsetFirstSectortable + sectortablesize]);
      forall i | 0 <= i < FILE_ENTRIES {
        filetable[i] := d[i];
      }
      var t := disk[offsetFirstSectortable];
      forall i | 0 <= i < SECTORS {
        tabletable[i] := t[i];
      }
      mounted := true;
      forall i | 0 <= i < 32
        ensures filetable[i].filename == disk[offsetFirstSectortable + sectortablesize][16 * i..16 * i + 12]
        ensures filetable[i].fileid == disk[offsetFirstSectortable + sectortablesize][16 * i + 12]
      {
        DecodedEntry(disk[offsetFirstSectortable + sectortablesize], i);
      }
    }

    /** Mounting again, at any moment, changes nothing. */
    method Remount() returns (mounted: bool)
      requires Valid()
      modifies this`offsetFirstSectortable, this`sectortablesize, filetable, tabletable
      ensures mounted && Valid() && State() == old(State())
    {
      RemountRestores(State());
      mounted := InitialiseSFS();
    }
  }
}
