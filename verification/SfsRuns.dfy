/** The promises of SFS over every sequence of sfs_write and sfs_new_file calls. */
module SfsRuns {
  import opened Common
  import opened SfsModel
  import opened SfsFacts

  /** The identifier a write to name `n` uses. */
  function TargetId(s: Fs, n: name): byte
    requires FreshFrom(s.dir, 2) < 256
  {
    if Named(s.dir, n) then IdOf(s.dir, n) else FreshFrom(s.dir, 2) as byte
  }

  /** The name a call with this path is about; a call must not resolve to the empty name. */
  function Target(s: Fs, path: seq<byte>): name
  {
    Resolved(path, s.dir, s.path)
  }

  lemma TargetIsValid(s: Fs, n: name)
    requires GoodDir(s.dir) && n != NO_NAME
    ensures FreshFrom(s.dir, 2) < 256 && TargetId(s, n) >= 2
    ensures !Named(s.dir, n) ==> !HasId(s.dir, TargetId(s, n) as int)
  {
    FreshIdExists(s.dir);
    if Named(s.dir, n) {
      var i := ListedId(s.dir, n);
    }
  }

  /** After a write, each sector's owner is one of: the file, or whoever owned it before (nobody, if that was the file). */
  lemma WriteOwners(s: Fs, id: byte, n: nat)
    requires id >= 2 && forall i :: 0 <= i < FIRST_DATA ==> s.owner[i] <= 1
    ensures var o := Claimed(Released(s.owner, id), id, n, FIRST_DATA);
            && (forall j :: 0 <= j < SECTORS && o[j] == id ==> j >= FIRST_DATA && (s.owner[j] == 0 || s.owner[j] == id))
            && (forall j :: 0 <= j < SECTORS && o[j] != id ==> o[j] == if s.owner[j] == id then 0 else s.owner[j])
  {
    ClaimTakesFree(Released(s.owner, id), id, n, FIRST_DATA);
  }

  /** Sector `j` holds neither table nor, under the ownership `o`, data of `id`. */
  predicate Elsewhere(s: Fs, o: sector, id: byte, j: nat)
    requires |s.disk| > 0
  {
    j != TableSector(s.disk) && j != DirectorySector(s.disk) && (j < SECTORS ==> o[j] != id)
  }

  /** Both tables, every data sector, and nothing else: what a write leaves on the disk. */
  lemma WriteDisk(s: Fs, path: seq<byte>, buffer: seq<byte>, size: nat)
    requires WellFormed(s) && Target(s, path) != NO_NAME && |buffer| >= SECTOR_SIZE
    ensures FreshFrom(s.dir, 2) < 256
    ensures var s', n, id := Write(s, path, buffer, size), Target(s, path), TargetId(s, Target(s, path));
            && id >= 2
            && s'.path == n && s'.dir == (if Named(s.dir, n) then s.dir else Added(s.dir, n, id))
            && s'.owner == Claimed(Released(s.owner, id), id, SectorsFor(size), FIRST_DATA)
            && |s'.disk| == |s.disk|
            && (forall j :: 0 <= j < SECTORS && s'.owner[j] == id ==> s'.disk[j] == buffer[..SECTOR_SIZE])
            && s'.disk[TableSector(s.disk)] == s'.owner && s'.disk[DirectorySector(s.disk)] == EncodeDir(s'.dir)
            && (forall j :: 0 <= j < |s.disk| && Elsewhere(s, s'.owner, id, j) ==> s'.disk[j] == s.disk[j])
  {
    var n := Target(s, path);
    TargetIsValid(s, n);
    WriteOwners(s, TargetId(s, n), SectorsFor(size));
  }

  lemma WriteKeepsWellFormed(s: Fs, path: seq<byte>, buffer: seq<byte>, size: nat)
    requires WellFormed(s) && Target(s, path) != NO_NAME && |buffer| >= SECTOR_SIZE
    ensures FreshFrom(s.dir, 2) < 256 && WellFormed(Write(s, path, buffer, size))
    ensures var d := Write(s, path, buffer, size).disk;
            TableSector(d) == TableSector(s.disk) && DirectorySector(d) == DirectorySector(s.disk)
  {
    hide Write, Claimed, Added, IdOf, Named, EncodeEntries, Released, FreshFrom, HasId, GoodDir;
    var n := Target(s, path);
    TargetIsValid(s, n);
    WriteDisk(s, path, buffer, size);
    var id := TargetId(s, n);
    WriteOwners(s, id, SectorsFor(size));
    if !Named(s.dir, n) {
      AddedKeeps(s.dir, n, id);
    }
  }

  lemma NewFileKeepsWellFormed(s: Fs, path: seq<byte>)
    requires WellFormed(s)
    ensures FreshFrom(s.dir, 2) < 256 && WellFormed(NewFile(s, path).0)
    ensures 2 <= NewFile(s, path).1 <= 34 && !HasId(s.dir, NewFile(s, path).1 as int)
  {
    hide Added;
    FreshIdExists(s.dir);
    AddedKeeps(s.dir, Target(s, path), FreshFrom(s.dir, 2) as byte);
  }

  // ----- isolation -----

  /** A write to one name leaves identifier and contents of every other listed name alone. */
  lemma WriteKeepsOtherFiles(s: Fs, path: seq<byte>, buffer: seq<byte>, size: nat, m: name)
    requires WellFormed(s) && Target(s, path) != NO_NAME && |buffer| >= SECTOR_SIZE
    requires Named(s.dir, m) && m != NO_NAME && m != Target(s, path)
    ensures FreshFrom(s.dir, 2) < 256
    ensures var s' := Write(s, path, buffer, size);
            && |s'.disk| >= SECTORS && Named(s'.dir, m) && IdOf(s'.dir, m) == IdOf(s.dir, m)
            && Contents(s'.owner, s'.disk, IdOf(s'.dir, m), 0) == Contents(s.owner, s.disk, IdOf(s.dir, m), 0)
  {
    hide Write, Claimed, Added, Released, FreshFrom, EncodeEntries, Resolve, Contents, Elsewhere;
    var n := Target(s, path);
    TargetIsValid(s, n);
    WriteDisk(s, path, buffer, size);
    var s', id, other := Write(s, path, buffer, size), TargetId(s, n), IdOf(s.dir, m);
    WriteOwners(s, id, SectorsFor(size));
    var i := ListedId(s.dir, m);
    if Named(s.dir, n) {
      var j := ListedId(s.dir, n);
    } else {
      AddedKeeps(s.dir, n, id);
    }
    OtherSectorsSame(s, s', id, other);
  }

  /** A write for `id` changes neither the sectors of another file nor what they hold. */
  lemma OtherSectorsSame(s: Fs, s': Fs, id: byte, other: byte)
    requires |s.disk| == |s'.disk| >= SECTORS && other >= 2 && other != id
    requires !(FIRST_DATA <= TableSector(s.disk) < SECTORS) && !(FIRST_DATA <= DirectorySector(s.disk) < SECTORS)
    requires forall i :: 0 <= i < FIRST_DATA ==> s.owner[i] <= 1
    requires forall j :: 0 <= j < SECTORS && s'.owner[j] == id ==> j >= FIRST_DATA && (s.owner[j] == 0 || s.owner[j] == id)
    requires forall j :: 0 <= j < SECTORS && s'.owner[j] != id ==> s'.owner[j] == if s.owner[j] == id then 0 else s.owner[j]
    requires forall j :: 0 <= j < |s.disk| && Elsewhere(s, s'.owner, id, j) ==> s'.disk[j] == s.disk[j]
    ensures Contents(s'.owner, s'.disk, other, 0) == Contents(s.owner, s.disk, other, 0)
  {
    forall j | 0 <= j < SECTORS
      ensures (s.owner[j] == other <==> s'.owner[j] == other) && (s.owner[j] == other ==> s.disk[j] == s'.disk[j])
    {
      if s.owner[j] == other {
        assert Elsewhere(s, s'.owner, id, j);
      }
    }
    SameContents(s.owner, s.disk, s'.owner, s'.disk, other, 0);
  }

  lemma AddedKeepsNames(d: directory, n: name, id: byte, m: name)
    requires GoodDir(d) && id >= 2 && !HasId(d, id as int) && Named(d, m) && m != NO_NAME
    ensures Named(Added(d, n, id), m)
  {
    AddedKeeps(d, n, id);
    if m == n {
      FirstUnusedIsUnused(d);
      var i :| 0 <= i < |d| && d[i].filename == m;
      assert Added(d, n, id)[i].filename == m;
    }
  }

  lemma WriteKeepsNames(s: Fs, path: seq<byte>, buffer: seq<byte>, size: nat, m: name)
    requires WellFormed(s) && Target(s, path) != NO_NAME && |buffer| >= SECTOR_SIZE
    requires Named(s.dir, m) && m != NO_NAME
    ensures FreshFrom(s.dir, 2) < 256 && Named(Write(s, path, buffer, size).dir, m)
  {
    hide Write, Claimed, Added, WellFormed;
    CallsFit(s);
    TargetIsValid(s, Target(s, path));
    WriteDisk(s, path, buffer, size);
    if !Named(s.dir, Target(s, path)) {
      AddedKeepsNames(s.dir, Target(s, path), TargetId(s, Target(s, path)), m);
    }
  }

  /** What a well-formed file system offers to every call. */
  lemma CallsFit(s: Fs)
    requires WellFormed(s)
    ensures GoodDir(s.dir) && |s.disk| >= SECTORS
    ensures TableSector(s.disk) < |s.disk| && 0 < DirectorySector(s.disk) < |s.disk|
    ensures FreshFrom(s.dir, 2) < 256
  {
    FreshIdExists(s.dir);
  }

  // ----- remounting and runs -----

  /** Mounting the disk of a well-formed file system gives back the same directory and ownership table, and so the same reads. */
  lemma RemountRestores(s: Fs)
    requires WellFormed(s)
    ensures Mounted(s.disk, s.path) == s
    ensures forall path :: Read(Mounted(s.disk, s.path), path) == Read(s, path)
  {
    DecodeUndoesEncode(s.dir);
  }

  function EmptyDir(): directory
  {
    seq(FILE_ENTRIES, _ => NO_ENTRY)
  }

  /** A disk with its tables in sectors 1 and 2 and nothing in them. */
  predicate IsFresh(disk: seq<sector>)
  {
    && |disk| >= SECTORS && Bootable(disk) && TableSector(disk) == 1 && DirectorySector(disk) == 2
    && (forall i :: 0 <= i < SECTORS ==> disk[1][i] == 0)
    && disk[2] == EncodeDir(EmptyDir())
  }

  /** Such a disk mounts as a well-formed file system in which every entry is unused. */
  lemma MountsEmpty(disk: seq<sector>)
    requires IsFresh(disk)
    ensures WellFormed(Mounted(disk, NO_NAME)) && Mounted(disk, NO_NAME).dir == EmptyDir()
  {
    hide EncodeEntries, DecodeEntries, Bootable, TableSector, DirectorySector;
    DecodeUndoesEncode(EmptyDir());
  }

  /**
    The bytes of such a disk: signature 0xCD at byte 3 and version 1 at byte 4 of the boot sector, first table sector 1
    in bytes 7 and 8, its size 1 in byte 9, and zeroes in sectors 1 and 2.
   */
  lemma FreshDiskBytes(disk: seq<sector>)
    requires |disk| >= 512 && disk[0][3] == 0xCD && disk[0][4] == 1
    requires disk[0][7] == 1 && disk[0][8] == 0 && disk[0][9] == 1
    requires forall i :: 0 <= i < 512 ==> disk[1][i] == 0 && disk[2][i] == 0
    ensures IsFresh(disk)
  {
    hide EncodeEntries;
    EmptyIsZero(FILE_ENTRIES);
    assert EmptyDir() == seq(FILE_ENTRIES, _ => NO_ENTRY);
    assert disk[2] == seq(16 * FILE_ENTRIES, _ => 0);
  }

  lemma {:induction false} EmptyIsZero(n: nat)
    ensures EncodeEntries(seq(n, _ => NO_ENTRY)) == seq(16 * n, _ => 0)
  {
    if n > 0 {
      EmptyIsZero(n - 1);
      assert seq(n, _ => NO_ENTRY)[1..] == seq(n - 1, _ => NO_ENTRY);
      assert EncodeEntry(NO_ENTRY) == seq(16, _ => 0);
      assert seq(16, _ => 0) + seq(16 * (n - 1), _ => 0) == seq(16 * n, _ => 0);
    }
  }

  lemma FreshDiskExists() returns (disk: seq<sector>)
    ensures IsFresh(disk)
  {
    hide IsFresh;
    var boot: sector := seq(SECTOR_SIZE, i => if i == 3 then 0xCD else if i == 4 || i == 7 || i == 9 then 1 else 0);
    var none: sector := seq(SECTOR_SIZE, _ => 0);
    disk := seq(SECTORS, i => if i == 0 then boot else none);
    assert disk[0] == boot && disk[1] == none && disk[2] == none;
    FreshDiskBytes(disk);
  }

  datatype Call = WriteCall(path: seq<byte>, buffer: seq<byte>, size: nat) | NewFileCall(path: seq<byte>)

  ghost predicate Step(s: Fs, c: Call, s': Fs)
  {
    && |s.disk| > 0 && TableSector(s.disk) < |s.disk| && 0 < DirectorySector(s.disk) < |s.disk| && FreshFrom(s.dir, 2) < 256
    && Target(s, c.path) != NO_NAME
    && match c
       case WriteCall(path, buffer, size) => |buffer| >= SECTOR_SIZE && s' == Write(s, path, buffer, size)
       case NewFileCall(path) => s' == NewFile(s, path).0
  }

  ghost predicate Run(ss: seq<Fs>, cs: seq<Call>)
  {
    && |ss| == |cs| + 1
    && forall i :: 0 <= i < |cs| ==> Step(ss[i], cs[i], ss[i + 1])
  }

  lemma StepKeepsWellFormed(s: Fs, c: Call, s': Fs)
    requires WellFormed(s) && Step(s, c, s')
    ensures WellFormed(s')
  {
    hide WellFormed, Write, NewFile;
    match c {
      case WriteCall(path, buffer, size) => WriteKeepsWellFormed(s, path, buffer, size);
      case NewFileCall(path) => NewFileKeepsWellFormed(s, path);
    }
  }

  /** A new file changes no sector of any other listed file. */
  lemma NewFileKeepsOtherFiles(s: Fs, path: seq<byte>, m: name)
    requires WellFormed(s) && Named(s.dir, m) && m != NO_NAME && m != Target(s, path)
    ensures FreshFrom(s.dir, 2) < 256
    ensures var s' := NewFile(s, path).0;
            && |s'.disk| >= SECTORS && Named(s'.dir, m) && IdOf(s'.dir, m) == IdOf(s.dir, m)
            && Contents(s'.owner, s'.disk, IdOf(s'.dir, m), 0) == Contents(s.owner, s.disk, IdOf(s.dir, m), 0)
  {
    hide Added;
    FreshIdExists(s.dir);
    AddedKeeps(s.dir, Target(s, path), FreshFrom(s.dir, 2) as byte);
    var i := ListedId(s.dir, m);
    var s' := NewFile(s, path).0;
    SameContents(s.owner, s.disk, s'.owner, s'.disk, IdOf(s.dir, m), 0);
  }

  /** Over any run of calls the file system stays well formed, so that a remount at any point restores it. */
  lemma {:induction false} RunSurvivesRemount(ss: seq<Fs>, cs: seq<Call>, j: nat)
    requires Run(ss, cs) && WellFormed(ss[0]) && j < |ss|
    ensures WellFormed(ss[j]) && Mounted(ss[j].disk, ss[j].path) == ss[j]
  {
    hide WellFormed, Step, Mounted;
    if j > 0 {
      RunSurvivesRemount(ss, cs, j - 1);
      assert Step(ss[j - 1], cs[j - 1], ss[j]);
      StepKeepsWellFormed(ss[j - 1], cs[j - 1], ss[j]);
    }
    CallsFit(ss[j]);
    RemountRestores(ss[j]);
  }

  /** A listed file that no call of the run is about keeps its identifier and its bytes. */
  lemma {:induction false} UntouchedFileStays(ss: seq<Fs>, cs: seq<Call>, m: name, j: nat)
    requires Run(ss, cs) && WellFormed(ss[0]) && j < |ss|
    requires Named(ss[0].dir, m) && m != NO_NAME
    requires forall i :: 0 <= i < |cs| ==> Target(ss[i], cs[i].path) != m
    ensures |ss[0].disk| >= SECTORS && |ss[j].disk| >= SECTORS
    ensures Named(ss[j].dir, m) && IdOf(ss[j].dir, m) == IdOf(ss[0].dir, m)
    ensures Contents(ss[j].owner, ss[j].disk, IdOf(ss[j].dir, m), 0) == Contents(ss[0].owner, ss[0].disk, IdOf(ss[0].dir, m), 0)
  {
    hide WellFormed, Write, NewFile, Named, IdOf, Contents, Mounted;
    RunSurvivesRemount(ss, cs, j);
    CallsFit(ss[j]);
    CallsFit(ss[0]);
    if j > 0 {
      UntouchedFileStays(ss, cs, m, j - 1);
      RunSurvivesRemount(ss, cs, j - 1);
      assert Step(ss[j - 1], cs[j - 1], ss[j]);
      match cs[j - 1] {
        case WriteCall(path, buffer, size) => WriteKeepsOtherFiles(ss[j - 1], path, buffer, size, m);
        case NewFileCall(path) => NewFileKeepsOtherFiles(ss[j - 1], path, m);
      }
    }
  }

  // ----- new files of a listed name -----

  /**
    sfs_new_file adds a second entry when its name is listed already. The new entry is found instead of the old one,
    and so hides the file, exactly if an unused entry stands before the old one.
   */
  lemma NewFileHidesIff(s: Fs, path: seq<byte>)
    requires WellFormed(s) && Target(s, path) != NO_NAME && Named(s.dir, Target(s, path))
    ensures FreshFrom(s.dir, 2) < 256
    ensures var (s', id), n := NewFile(s, path), Target(s, path);
            && id != IdOf(s.dir, n)
            && IdOf(s'.dir, n) == if FirstUnused(s.dir) < FirstNamed(s.dir, n) then id else IdOf(s.dir, n)
  {
    hide WellFormed, Resolve;
    CallsFit(s);
    var n := Target(s, path);
    TargetIsValid(s, n);
    FreshIdExists(s.dir);
    FirstUnusedIsUnused(s.dir);
    var i := ListedId(s.dir, n);
    assert HasId(s.dir, IdOf(s.dir, n) as int);
    var k, id := FirstUnused(s.dir), FreshFrom(s.dir, 2) as byte;
    if k < |s.dir| {
      IdOfSecondEntry(s.dir, k, s.dir[k].(fileid := id, filename := n));
    } else {
      assert Added(s.dir, n, id) == s.dir;
    }
  }

  /** Unused entries come last. */
  ghost predicate Packed(d: seq<FileEntry>)
  {
    forall i, j :: 0 <= i < j < |d| && d[i].fileid == 0 ==> d[j].fileid == 0
  }

  lemma AddedKeepsPacked(d: directory, n: name, id: byte)
    requires Packed(d) && id != 0
    ensures Packed(Added(d, n, id))
  {
    FirstUnusedIsUnused(d);
  }

  /** In a packed directory every listed file stands before the first unused entry. */
  lemma {:induction false} PackedListedFirst(d: seq<FileEntry>, n: name)
    requires Packed(d) && GoodDir(d) && Named(d, n) && n != NO_NAME
    ensures FirstNamed(d, n) < FirstUnused(d)
  {
    if d[0].filename != n {
      assert d[0].fileid != 0 by {
        var j :| 0 <= j < |d| && d[j].filename == n;
        assert d[j].fileid != 0;
      }
      var j :| 0 <= j < |d| && d[j].filename == n;
      assert d[1..][j - 1] == d[j];
      PackedListedFirst(d[1..], n);
    }
  }

  /** No entry is ever released, so over every run from an empty directory unused entries come last. */
  lemma {:induction false} RunKeepsPacked(ss: seq<Fs>, cs: seq<Call>, j: nat)
    requires Run(ss, cs) && WellFormed(ss[0]) && Packed(ss[0].dir) && j < |ss|
    ensures Packed(ss[j].dir)
  {
    hide WellFormed, Write, Added, Packed, Resolve;
    if j > 0 {
      var s, c := ss[j - 1], cs[j - 1];
      RunKeepsPacked(ss, cs, j - 1);
      RunSurvivesRemount(ss, cs, j - 1);
      CallsFit(s);
      assert Step(s, c, ss[j]);
      TargetIsValid(s, Target(s, c.path));
      FreshIdExists(s.dir);
      AddedKeepsPacked(s.dir, Target(s, c.path), FreshFrom(s.dir, 2) as byte);
      if c.WriteCall? {
        WriteDisk(s, c.path, c.buffer, c.size);
      }
    }
  }

  /** Over every run from an empty directory a listed file keeps its bytes until it is written: a new file of its name does not hide it. */
  lemma {:induction false} UnwrittenFileStays(ss: seq<Fs>, cs: seq<Call>, m: name, j: nat)
    requires Run(ss, cs) && WellFormed(ss[0]) && Packed(ss[0].dir) && j < |ss|
    requires Named(ss[0].dir, m) && m != NO_NAME
    requires forall i :: 0 <= i < |cs| && cs[i].WriteCall? ==> Target(ss[i], cs[i].path) != m
    ensures |ss[0].disk| >= SECTORS && |ss[j].disk| >= SECTORS
    ensures Named(ss[j].dir, m) && IdOf(ss[j].dir, m) == IdOf(ss[0].dir, m)
    ensures Contents(ss[j].owner, ss[j].disk, IdOf(ss[j].dir, m), 0) == Contents(ss[0].owner, ss[0].disk, IdOf(ss[0].dir, m), 0)
  {
    hide WellFormed, Write, NewFile, Named, IdOf, Contents, Mounted, Packed, GoodDir, FirstUnused, FirstNamed;
    CallsFit(ss[0]);
    RunSurvivesRemount(ss, cs, j);
    CallsFit(ss[j]);
    if j > 0 {
      UnwrittenFileStays(ss, cs, m, j - 1);
      RunSurvivesRemount(ss, cs, j - 1);
      RunKeepsPacked(ss, cs, j - 1);
      assert Step(ss[j - 1], cs[j - 1], ss[j]);
      match cs[j - 1] {
        case WriteCall(path, buffer, size) => WriteKeepsOtherFiles(ss[j - 1], path, buffer, size, m);
        case NewFileCall(path) =>
          if Target(ss[j - 1], path) == m {
            NewFileKeepsPackedFile(ss[j - 1], path);
          } else {
            NewFileKeepsOtherFiles(ss[j - 1], path, m);
          }
      }
    }
  }

  /** A new file of a listed name in a packed directory changes neither what the name leads to nor its bytes. */
  lemma NewFileKeepsPackedFile(s: Fs, path: seq<byte>)
    requires WellFormed(s) && Packed(s.dir) && Target(s, path) != NO_NAME && Named(s.dir, Target(s, path))
    ensures FreshFrom(s.dir, 2) < 256
    ensures var s', m := NewFile(s, path).0, Target(s, path);
            && |s'.disk| >= SECTORS && Named(s'.dir, m) && IdOf(s'.dir, m) == IdOf(s.dir, m)
            && Contents(s'.owner, s'.disk, IdOf(s'.dir, m), 0) == Contents(s.owner, s.disk, IdOf(s.dir, m), 0)
  {
    hide Added, Packed, Resolve, FirstUnused, FirstNamed, Contents;
    CallsFit(s);
    var s', m := NewFile(s, path).0, Target(s, path);
    PackedListedFirst(s.dir, m);
    NewFileHidesIff(s, path);
    FreshIdExists(s.dir);
    AddedKeepsNames(s.dir, m, FreshFrom(s.dir, 2) as byte, m);
    var i := ListedId(s.dir, m);
    SameContents(s.owner, s.disk, s'.owner, s'.disk, IdOf(s.dir, m), 0);
  }
}
