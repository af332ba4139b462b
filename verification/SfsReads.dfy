/** What SFS gives back: which bytes a path reads as after a write through it. */
module SfsReads {
  import opened Common
  import opened SfsModel
  import opened SfsFacts
  import opened SfsPaths
  import opened SfsRuns

  // ----- reading back -----

  /** Free sectors that a write for `id` finds after releasing the old ones. */
  function FreeFor(s: Fs, id: byte): nat
  {
    CountOf(Released(s.owner, id), 0, FIRST_DATA)
  }

  /** The identifier's sectors after a write are as many as wanted and free, and all hold the first 512 bytes of the buffer. */
  lemma WrittenContents(s: Fs, path: seq<byte>, buffer: seq<byte>, size: nat)
    requires WellFormed(s) && Target(s, path) != NO_NAME && |buffer| >= SECTOR_SIZE
    ensures FreshFrom(s.dir, 2) < 256
    ensures var s', id := Write(s, path, buffer, size), TargetId(s, Target(s, path));
            && |s'.disk| >= SECTORS
            && Contents(s'.owner, s'.disk, id, 0) == Repeated(buffer[..SECTOR_SIZE], Min(SectorsFor(size), FreeFor(s, id)))
  {
    hide Write, Added, Named, IdOf, GoodDir;
    WriteDisk(s, path, buffer, size);
    var s', id := Write(s, path, buffer, size), TargetId(s, Target(s, path));
    WriteOwners(s, id, SectorsFor(size));
    UniformContents(s'.owner, s'.disk, id, buffer[..SECTOR_SIZE], 0);
    CountsFromData(s, id, SectorsFor(size));
  }

  lemma CountsFromData(s: Fs, id: byte, n: nat)
    requires id >= 2 && forall i :: 0 <= i < FIRST_DATA ==> s.owner[i] <= 1
    ensures CountOf(Claimed(Released(s.owner, id), id, n, FIRST_DATA), id, 0) == Min(n, FreeFor(s, id))
  {
    var r := Released(s.owner, id);
    var o := Claimed(r, id, n, FIRST_DATA);
    ClaimCount(r, id, n, FIRST_DATA);
    WriteOwners(s, id, n);
    NoneOwned(r, id, FIRST_DATA);
    CountFromThree(o, id);
  }

  lemma CountFromThree(o: sector, id: byte)
    requires o[0] != id && o[1] != id && o[2] != id
    ensures CountOf(o, id, 0) == CountOf(o, id, FIRST_DATA)
  {
  }

  lemma {:induction false} NoneOwned(o: sector, id: byte, i: nat)
    requires forall j :: i <= j < SECTORS ==> o[j] != id
    ensures CountOf(o, id, i) == 0
    decreases SECTORS - i
  {
    if i < SECTORS {
      NoneOwned(o, id, i + 1);
    }
  }

  /** The written name is listed afterwards exactly when it was listed or the directory had an unused entry; then its identifier is the one written to. */
  lemma ListedAfterWrite(s: Fs, path: seq<byte>, buffer: seq<byte>, size: nat)
    requires WellFormed(s) && Target(s, path) != NO_NAME && |buffer| >= SECTOR_SIZE
    ensures FreshFrom(s.dir, 2) < 256
    ensures var s', n := Write(s, path, buffer, size), Target(s, path);
            && (Named(s'.dir, n) <==> Named(s.dir, n) || FirstUnused(s.dir) < FILE_ENTRIES)
            && (Named(s'.dir, n) ==> IdOf(s'.dir, n) == TargetId(s, n))
  {
    hide Write, Claimed, Added, Stored;
    var n := Target(s, path);
    TargetIsValid(s, n);
    WriteDisk(s, path, buffer, size);
    if !Named(s.dir, n) {
      AddedKeeps(s.dir, n, TargetId(s, n));
    }
  }

  /** Reading a written file by a path that still leads to it gives one copy of the first 512 bytes per claimed sector. */
  lemma ReadsBack(s: Fs, path: seq<byte>, buffer: seq<byte>, size: nat)
    requires WellFormed(s) && Target(s, path) != NO_NAME && |buffer| >= SECTOR_SIZE
    requires Named(s.dir, Target(s, path)) || FirstUnused(s.dir) < FILE_ENTRIES
    ensures FreshFrom(s.dir, 2) < 256
    ensures var s', id := Write(s, path, buffer, size), TargetId(s, Target(s, path));
            |s'.disk| >= SECTORS &&
            (Target(s', path) == Target(s, path) ==>
               Read(s', path) == Some(Repeated(buffer[..SECTOR_SIZE], Min(SectorsFor(size), FreeFor(s, id)))))
  {
    hide Write, Claimed, Added, Stored, Named, IdOf, Contents, Resolve, Repeated, WellFormed;
    WrittenContents(s, path, buffer, size);
    ListedAfterWrite(s, path, buffer, size);
  }

  /** A file of less than 512 bytes is read back exactly when at least one sector is free. */
  lemma SmallFileRoundTrip(s: Fs, path: seq<byte>, buffer: seq<byte>, size: nat)
    requires WellFormed(s) && Target(s, path) != NO_NAME && |buffer| >= SECTOR_SIZE && size < SECTOR_SIZE
    requires Named(s.dir, Target(s, path)) || FirstUnused(s.dir) < FILE_ENTRIES
    ensures FreshFrom(s.dir, 2) < 256 && WellFormed(Write(s, path, buffer, size))
    ensures var s' := Write(s, path, buffer, size);
            Target(s', path) == Target(s, path) ==>
              var r := Read(s', path);
              && r.Some?
              && (FreeFor(s, TargetId(s, Target(s, path))) >= 1 ==> r.value == buffer[..SECTOR_SIZE] && r.value[..size] == buffer[..size])
              && (FreeFor(s, TargetId(s, Target(s, path))) == 0 ==> r.value == [])
  {
    hide Write, Named, IdOf, Contents, Resolve;
    WriteKeepsWellFormed(s, path, buffer, size);
    ReadsBack(s, path, buffer, size);
    assert Repeated(buffer[..SECTOR_SIZE], 1) == buffer[..SECTOR_SIZE] + [] == buffer[..SECTOR_SIZE];
  }

  /** The first `size` bytes repeat with the period of a sector; trivially so for less than a sector. */
  ghost predicate Periodic(buffer: seq<byte>, size: nat)
    requires size <= |buffer|
  {
    forall i :: SECTOR_SIZE <= i < size ==> buffer[i] == buffer[i - SECTOR_SIZE]
  }

  /** `k` copies of the first sector start with `size` bytes of the buffer exactly if they are long enough and these bytes are periodic. */
  lemma CopiesIffPeriodic(buffer: seq<byte>, size: nat, k: nat)
    requires size <= |buffer| && |buffer| >= SECTOR_SIZE
    ensures StartsWith(Repeated(buffer[..SECTOR_SIZE], k), buffer, size) <==> k * SECTOR_SIZE >= size && Periodic(buffer, size)
  {
    var r := Repeated(buffer[..SECTOR_SIZE], k);
    if |r| >= size {
      forall i | 0 <= i < size
        ensures r[i] == buffer[i % SECTOR_SIZE]
      {
        RepeatedAt(buffer[..SECTOR_SIZE], k, i);
      }
      hide Repeated;
      PrefixIffPeriodic(buffer, size, r);
    }
  }

  predicate StartsWith(r: seq<byte>, buffer: seq<byte>, size: nat)
    requires size <= |buffer|
  {
    |r| >= size && r[..size] == buffer[..size]
  }

  lemma PrefixIffPeriodic(buffer: seq<byte>, size: nat, r: seq<byte>)
    requires size <= |buffer| && size <= |r|
    requires forall i :: 0 <= i < size ==> r[i] == buffer[i % SECTOR_SIZE]
    ensures r[..size] == buffer[..size] <==> Periodic(buffer, size)
  {
    if Periodic(buffer, size) {
      forall i | 0 <= i < size
        ensures r[..size][i] == buffer[..size][i]
      {
        PeriodicAt(buffer, size, i);
      }
    }
    if r[..size] == buffer[..size] {
      forall i | SECTOR_SIZE <= i < size
        ensures buffer[i] == buffer[i - SECTOR_SIZE]
      {
        var j := i - SECTOR_SIZE;
        assert r[..size][i] == buffer[..size][i] && r[..size][j] == buffer[..size][j];
        assert j % SECTOR_SIZE == i % SECTOR_SIZE;
      }
    }
  }

  lemma {:induction false} PeriodicAt(buffer: seq<byte>, size: nat, i: nat)
    requires i < size <= |buffer| && Periodic(buffer, size)
    ensures buffer[i] == buffer[i % SECTOR_SIZE]
  {
    if i >= SECTOR_SIZE {
      PeriodicAt(buffer, size, i - SECTOR_SIZE);
    }
  }

  /** The path reads as a file that starts with the buffer's bytes, now and after mounting the disk anew. */
  ghost predicate ReadsAs(s: Fs, path: seq<byte>, buffer: seq<byte>, size: nat)
    requires size <= |buffer|
  {
    && |s.disk| >= SECTORS && TableSector(s.disk) < |s.disk| && DirectorySector(s.disk) < |s.disk|
    && Read(s, path).Some? && StartsWith(Read(s, path).value, buffer, size)
    && Read(Mounted(s.disk, s.path), path) == Read(s, path)
  }

  /** The free sectors are enough, and the bytes repeat with period 512. */
  ghost predicate Storable(s: Fs, path: seq<byte>, buffer: seq<byte>, size: nat)
    requires FreshFrom(s.dir, 2) < 256 && size <= |buffer|
  {
    FreeFor(s, TargetId(s, Target(s, path))) * SECTOR_SIZE >= size && Periodic(buffer, size)
  }

  /** The file is listed, or an entry is unused, so that it is listed after the write. */
  predicate Listable(s: Fs, path: seq<byte>)
  {
    Named(s.dir, Target(s, path)) || FirstUnused(s.dir) < FILE_ENTRIES
  }

  /**
    Through a path that still leads to the written file, the bytes are read back if and only if the free sectors were
    enough for them and they repeat with period 512: the eight-bit buffer offset stays 0, so every sector gets the same.
   */
  lemma RoundTripIff(s: Fs, path: seq<byte>, buffer: seq<byte>, size: nat)
    requires WellFormed(s) && Target(s, path) != NO_NAME && |buffer| >= SECTOR_SIZE && size <= |buffer|
    requires Listable(s, path)
    ensures FreshFrom(s.dir, 2) < 256 && WellFormed(Write(s, path, buffer, size))
    ensures var s' := Write(s, path, buffer, size);
            Target(s', path) == Target(s, path) ==> (ReadsAs(s', path, buffer, size) <==> Storable(s, path, buffer, size))
  {
    hide Write, Named, IdOf, Contents, Resolve, Repeated, WellFormed, Periodic, StartsWith, FirstUnused, Mounted;
    CallsFit(s);
    WriteKeepsWellFormed(s, path, buffer, size);
    ReadsBack(s, path, buffer, size);
    var s', free := Write(s, path, buffer, size), FreeFor(s, TargetId(s, Target(s, path)));
    CallsFit(s');
    RemountRestores(s');
    CopiesIffPeriodic(buffer, size, Min(SectorsFor(size), free));
    EnoughSectors(size, free);
  }

  lemma EnoughSectors(size: nat, free: nat)
    ensures Min(SectorsFor(size), free) * SECTOR_SIZE >= size <==> free * SECTOR_SIZE >= size
  {
  }

  // ----- whether the path still leads to the written file -----

  lemma ListedNames(s: Fs, path: seq<byte>, buffer: seq<byte>, size: nat)
    requires WellFormed(s) && Target(s, path) != NO_NAME && |buffer| >= SECTOR_SIZE && Listable(s, path)
    ensures FreshFrom(s.dir, 2) < 256
    ensures var s', n := Write(s, path, buffer, size), Target(s, path);
            && Lists(s.dir, s'.dir, n)
            && TargetId(s, n) != 0
            && s'.dir == (if Named(s.dir, n) then s.dir else Added(s.dir, n, TargetId(s, n)))
  {
    hide Write, Claimed, Added, Stored, Resolve, WellFormed, Named, IdOf;
    var n := Target(s, path);
    CallsFit(s);
    TargetIsValid(s, n);
    WriteDisk(s, path, buffer, size);
    if !Named(s.dir, n) {
      AddedKeeps(s.dir, n, TargetId(s, n));
    }
  }

  /** The empty name is found after a write: an entry is unused before it, and left so. */
  predicate HoleLeft(s: Fs, path: seq<byte>)
  {
    if Named(s.dir, Target(s, path)) then Named(s.dir, NO_NAME) else Spare(s.dir)
  }

  /** Only unused entries bear the empty name, as over every run; or it does not matter, for a clean path or a write that leaves an entry unused. */
  ghost predicate Regular(s: Fs, path: seq<byte>, target: name)
  {
    NamesNonEmpty(s.dir) || CleanPath(path) || Named(s.dir, target) || Spare(s.dir)
  }

  lemma HoleLeftIff(s: Fs, path: seq<byte>, buffer: seq<byte>, size: nat)
    requires WellFormed(s) && Target(s, path) != NO_NAME && |buffer| >= SECTOR_SIZE
    requires NamesNonEmpty(s.dir) || Named(s.dir, Target(s, path)) || Spare(s.dir)
    ensures FreshFrom(s.dir, 2) < 256
    ensures Named(Write(s, path, buffer, size).dir, NO_NAME) <==> HoleLeft(s, path)
  {
    hide Write, Added, Resolve, WellFormed, Claimed, Named, Spare, NamesNonEmpty;
    CallsFit(s);
    WriteDisk(s, path, buffer, size);
    if !Named(s.dir, Target(s, path)) {
      EmptyNameAfterAdding(s.dir, Target(s, path), TargetId(s, Target(s, path)));
    }
  }

  /**
    A write through a path leaves it leading to the written name if and only if it ends there, or comes back to it,
    with no empty component in the way unless an entry is left unused.
   */
  lemma WriteKeepsTargetIff(s: Fs, path: seq<byte>, buffer: seq<byte>, size: nat)
    requires WellFormed(s) && Target(s, path) != NO_NAME && |buffer| >= SECTOR_SIZE && Listable(s, path)
    requires Regular(s, path, Target(s, path))
    ensures FreshFrom(s.dir, 2) < 256
    ensures Target(Write(s, path, buffer, size), path) == Target(s, path) <==> Arrives(path, s.dir, 0, HoleLeft(s, path))
  {
    hide Write, Resolve, WellFormed, Named, CleanFrom, Arrives, Spare, NamesNonEmpty, HoleLeft, FirstUnused, IdOf;
    CallsFit(s);
    ListedNames(s, path, buffer, size);
    var s' := Write(s, path, buffer, size);
    if CleanPath(path) {
      CleanArrivesIff(path, s.dir, HoleLeft(s, path));
      CleanArrivesIff(path, s.dir, Named(s'.dir, NO_NAME));
    } else {
      HoleLeftIff(s, path, buffer, size);
    }
    if path == [] {
      EmptyPathStays(s, path, buffer, size);
    } else {
      LeadsToCreatedIff(path, s.dir, s'.dir, 0);
    }
  }

  /** The empty path stands for the name of the last call. */
  lemma EmptyPathStays(s: Fs, path: seq<byte>, buffer: seq<byte>, size: nat)
    requires WellFormed(s) && Target(s, path) != NO_NAME && |buffer| >= SECTOR_SIZE && path == []
    ensures FreshFrom(s.dir, 2) < 256
    ensures Target(Write(s, path, buffer, size), path) == Target(s, path)
    ensures forall hole :: Arrives(path, s.dir, 0, hole)
  {
    CallsFit(s);
    assert IsLast(path, 0);
    hide Write;
    WriteDisk(s, path, buffer, size);
  }

  // ----- the promise of a file system -----

  /**
    After a write the path leads to the written file and reads as the bytes written, before and after a remount, if
    and only if the file could be listed, the path arrives at it, the free sectors were enough, and the bytes repeat
    with period 512 (which those of a file of at most 512 bytes do).
   */
  lemma WrittenIsReadBackIff(s: Fs, path: seq<byte>, buffer: seq<byte>, size: nat)
    requires WellFormed(s) && Target(s, path) != NO_NAME && |buffer| >= SECTOR_SIZE && size <= |buffer|
    requires Regular(s, path, Target(s, path))
    ensures FreshFrom(s.dir, 2) < 256
    ensures var s' := Write(s, path, buffer, size);
            Target(s', path) == Target(s, path) && ReadsAs(s', path, buffer, size) <==>
            Listable(s, path) && Arrives(path, s.dir, 0, HoleLeft(s, path)) && Storable(s, path, buffer, size)
  {
    hide Write, Resolve, WellFormed, Named, Arrives, Regular, Storable, IdOf, FirstUnused, HoleLeft;
    ListedAfterWrite(s, path, buffer, size);
    if Listable(s, path) {
      RoundTripIff(s, path, buffer, size);
      WriteKeepsTargetIff(s, path, buffer, size);
    }
  }

  /** For /x, say, the write must leave an entry unused, unless the file was listed already. */
  lemma SlashNeedsSpareEntry(s: Fs, path: seq<byte>, buffer: seq<byte>, size: nat)
    requires WellFormed(s) && NamesNonEmpty(s.dir) && Target(s, path) != NO_NAME && |buffer| >= SECTOR_SIZE && size <= |buffer|
    requires path != [] && path[0] == SLASH && CleanFrom(path, 1)
    ensures FreshFrom(s.dir, 2) < 256
    ensures var s' := Write(s, path, buffer, size);
            Target(s', path) == Target(s, path) && ReadsAs(s', path, buffer, size) <==>
            (Named(s.dir, Target(s, path)) || Spare(s.dir)) && (EndsAtFile(path, s.dir, 1) || ComesBack(path, s.dir, 1, true)) && Storable(s, path, buffer, size)
  {
    hide Write, Resolve, WellFormed, Named, CleanFrom, EndsAtFile, ComesBack, Spare, Storable, IdOf, FirstUnused, NamesNonEmpty, MeetsEmpty;
    CallsFit(s);
    EmptyNameIff(s.dir);
    LeadingSlash(path, s.dir);
    SlashSkipped(path, s.dir);
    CleanComesBack(path, s.dir, 1);
    WrittenIsReadBackIff(s, path, buffer, size);
  }

  /** When the path leads elsewhere after the write, it reads as whatever was there before the write: nothing of what was written. */
  lemma ElsewhereReadsOld(s: Fs, path: seq<byte>, buffer: seq<byte>, size: nat)
    requires WellFormed(s) && Target(s, path) != NO_NAME && |buffer| >= SECTOR_SIZE && Listable(s, path)
    ensures FreshFrom(s.dir, 2) < 256
    ensures var s' := Write(s, path, buffer, size);
            var m := Target(s', path);
            |s'.disk| >= SECTORS &&
            (m != Target(s, path) && m != NO_NAME ==>
               Read(s', path) == if Named(s.dir, m) then Some(Contents(s.owner, s.disk, IdOf(s.dir, m), 0)) else None)
  {
    hide Write, Added, Resolve, WellFormed, Named, IdOf, Contents;
    CallsFit(s);
    ListedNames(s, path, buffer, size);
    var s' := Write(s, path, buffer, size);
    WriteKeepsWellFormed(s, path, buffer, size);
    CallsFit(s');
    var m := Target(s', path);
    if m != Target(s, path) && m != NO_NAME && Named(s.dir, m) {
      WriteKeepsOtherFiles(s, path, buffer, size, m);
    }
  }

  lemma {:induction false} TakeWhole(path: seq<byte>, p: nat, t: seq<byte>, k: nat)
    requires p + |t| <= |path| && path[p..p + |t|] == t && |t| < k && SLASH !in t
    requires p + |t| == |path| || path[p + |t|] == SLASH
    ensures TakeName(path, p, k) == t
    decreases |t|
  {
    if t != [] {
      assert path[p] == t[0];
      assert path[p + 1..p + 1 + |t[1..]|] == t[1..];
      TakeWhole(path, p + 1, t[1..], k - 1);
      assert t == [t[0]] + t[1..];
    }
  }

  /**
    Writing to x/y while x is not listed creates x. From then on x/y leads to y: what was written is not found there,
    but the old contents of y, or nothing.
   */
  lemma NestedPathMovesOn(s: Fs, x: seq<byte>, y: seq<byte>, buffer: seq<byte>, size: nat)
    requires WellFormed(s) && |buffer| >= SECTOR_SIZE && FirstUnused(s.dir) < FILE_ENTRIES
    requires 0 < |x| < NAME_LENGTH && 0 < |y| < NAME_LENGTH && SLASH !in x && SLASH !in y && DOT !in x && 0 !in x && 0 !in y
    requires x != y && !Named(s.dir, Padded(x))
    ensures FreshFrom(s.dir, 2) < 256 && Target(s, x + [SLASH] + y) == Padded(x) != NO_NAME
    ensures var s' := Write(s, x + [SLASH] + y, buffer, size);
            && |s'.disk| >= SECTORS && Named(s'.dir, Padded(x)) && Target(s', x + [SLASH] + y) == Padded(y)
            && Read(s', x + [SLASH] + y) == if Named(s.dir, Padded(y)) then Some(Contents(s.owner, s.disk, IdOf(s.dir, Padded(y)), 0)) else None
  {
    var path := x + [SLASH] + y;
    PaddedDiffer(x, []);
    PaddedDiffer(y, []);
    PaddedDiffer(x, y);
    TwoComponents(s.dir, x, y);
    hide TakeName, Padded, Named, Write, WellFormed, Contents, IdOf, FirstUnused, Resolve;
    CallsFit(s);
    assert Listable(s, path) && path != [];
    ListedNames(s, path, buffer, size);
    ElsewhereReadsOld(s, path, buffer, size);
    TwoComponents(Write(s, path, buffer, size).dir, x, y);
  }

  lemma TwoComponents(d: seq<FileEntry>, x: seq<byte>, y: seq<byte>)
    requires 0 < |x| < NAME_LENGTH && 0 < |y| < NAME_LENGTH && SLASH !in x && SLASH !in y && DOT !in x
    ensures Resolve(x + [SLASH] + y, d, 0) == if Named(d, Padded(x)) then Padded(y) else Padded(x)
    ensures Padded([]) == NO_NAME
  {
    var path := x + [SLASH] + y;
    assert path[..|x|] == x && path[|x|] == SLASH && path[|x| + 1..] == y;
    hide TakeName, Padded, Named;
    TakeWhole(path, 0, x, NAME_LENGTH);
    TakeWhole(path, |x| + 1, y, NAME_LENGTH);
  }

  lemma PaddedDiffer(x: seq<byte>, y: seq<byte>)
    requires |x| <= NAME_LENGTH && |y| <= NAME_LENGTH
    requires 0 !in x && 0 !in y && x != y
    ensures Padded(x) != Padded(y)
  {
    var p, q := Padded(x), Padded(y);
    if |x| == |y| {
      assert p[..|x|] == x && q[..|y|] == y;
    } else if |x| < |y| {
      assert p[|x|] == 0 && q[|x|] == y[|x|] != 0;
    } else {
      assert q[|y|] == 0 && p[|y|] == x[|y|] != 0;
    }
  }

  // ----- inputs on which a write is not read back -----

  /** Two sectors that should differ: no write of more than 512 bytes whose 513th differs from its first is ever read back. */
  lemma DifferentSectorsAreLost(s: Fs, path: seq<byte>, buffer: seq<byte>, size: nat)
    requires WellFormed(s) && Target(s, path) != NO_NAME && SECTOR_SIZE < size <= |buffer| && buffer[SECTOR_SIZE] != buffer[0]
    requires Listable(s, path)
    ensures FreshFrom(s.dir, 2) < 256
    ensures Target(Write(s, path, buffer, size), path) == Target(s, path) ==> !ReadsAs(Write(s, path, buffer, size), path, buffer, size)
  {
    RoundTripIff(s, path, buffer, size);
    assert buffer[SECTOR_SIZE] != buffer[SECTOR_SIZE - SECTOR_SIZE];
    assert !Periodic(buffer, size);
    hide ReadsAs, Write, WellFormed, Resolve, FirstUnused;
  }

  lemma {:induction false} CountAtMost(owner: sector, id: byte, i: nat)
    requires i <= SECTORS
    ensures CountOf(owner, id, i) <= SECTORS - i
    decreases SECTORS - i
  {
    if i < SECTORS {
      CountAtMost(owner, id, i + 1);
    }
  }

  /** 509 sectors are all there is: longer files are never read back, periodic or not. */
  lemma LongFilesAreCut(s: Fs, path: seq<byte>, buffer: seq<byte>, size: nat)
    requires WellFormed(s) && Target(s, path) != NO_NAME && 509 * SECTOR_SIZE < size <= |buffer|
    requires Listable(s, path)
    ensures FreshFrom(s.dir, 2) < 256
    ensures Target(Write(s, path, buffer, size), path) == Target(s, path) ==> !ReadsAs(Write(s, path, buffer, size), path, buffer, size)
  {
    RoundTripIff(s, path, buffer, size);
    hide ReadsAs, Write, WellFormed, Resolve, FirstUnused, CountOf;
    CountAtMost(Released(s.owner, TargetId(s, Target(s, path))), 0, FIRST_DATA);
  }

  /** While no file is listed yet, 513 bytes that differ only in the last are written to a listed file and not read back. */
  lemma LostFile(s: Fs) returns (path: seq<byte>, buffer: seq<byte>)
    requires WellFormed(s) && s.dir == EmptyDir()
    ensures CleanPath(path) && |buffer| == 513 && FreshFrom(s.dir, 2) < 256
    ensures Target(s, path) != NO_NAME && Listable(s, path)
    ensures Target(Write(s, path, buffer, 513), path) == Target(s, path) && !ReadsAs(Write(s, path, buffer, 513), path, buffer, 513)
  {
    hide Write, WellFormed, ReadsAs, Resolve, CleanFrom, EndsAtFile, ComesBack, Named, Periodic, MeetsEmpty;
    path, buffer := [97], seq(512, _ => 0) + [1];
    LetterPath(s.dir, 97);
    CallsFit(s);
    CleanArrivesIff(path, s.dir, HoleLeft(s, path));
    WriteKeepsTargetIff(s, path, buffer, 513);
    DifferentSectorsAreLost(s, path, buffer, 513);
  }

  /** A path of one letter leads to the file of that name, and so does one of a slash and a letter once the slash is passed. */
  lemma LetterPath(d: seq<FileEntry>, c: byte)
    requires c != 0 && c != SLASH
    ensures CleanPath([c]) && EndsAtFile([c], d, 0) && Resolve([c], d, 0) == Padded([c]) != NO_NAME
    ensures Resolve([SLASH, c], d, 1) == Padded([c])
  {
    var path: seq<byte>, slashed: seq<byte> := [c], [SLASH, c];
    assert TakeName(path, 1, 11) == [] && TakeName(slashed, 2, 11) == [];
    assert Component(path, 0) == [c] && Component(slashed, 1) == [c];
    ResolveStep(path, d, 0);
    ResolveStep(slashed, d, 1);
    CleanComponent(path, 0);
    hide Resolve;
  }

  // ----- over runs -----

  /**
    Reading another listed file by path gives the same bytes after the write as before it, if and only if the path
    passes no empty component or the write leaves an entry unused.
   */
  lemma WriteKeepsOtherReadIff(s: Fs, path: seq<byte>, buffer: seq<byte>, size: nat, other: seq<byte>)
    requires WellFormed(s) && Target(s, path) != NO_NAME && |buffer| >= SECTOR_SIZE
    requires other != [] && Read(s, other).Some? && Target(s, other) != Target(s, path) && Target(s, other) != NO_NAME
    requires Regular(s, other, Target(s, path))
    ensures FreshFrom(s.dir, 2) < 256
    ensures var s' := Write(s, path, buffer, size);
            && |s'.disk| >= SECTORS
            && (Read(s', other) == Read(s, other) <==> !MeetsEmpty(other, s.dir, 0) || HoleLeft(s, path))
            && (Read(s', other) == Read(s, other) || Read(s', other) == None)
  {
    hide Write, Named, IdOf, Contents, Resolve, CleanFrom, Spare, WellFormed, NamesNonEmpty, MeetsEmpty, HoleLeft;
    CallsFit(s);
    WriteKeepsWellFormed(s, path, buffer, size);
    var s' := Write(s, path, buffer, size);
    CallsFit(s');
    forall m: name | m != NO_NAME && Named(s.dir, m)
      ensures Named(s'.dir, m)
    {
      WriteKeepsNames(s, path, buffer, size, m);
    }
    if CleanPath(other) {
      CleanMeetsNone(other, s.dir, 0);
    } else {
      HoleLeftIff(s, path, buffer, size);
    }
    ResolveStableIff(other, s.dir, s'.dir, 0);
    WriteKeepsOtherFiles(s, path, buffer, size, Target(s, other));
  }

  /** With one entry left, a write to a new file takes it, and every file read through a leading slash is no longer found. */
  lemma LastEntryHidesSlashedFiles(s: Fs, path: seq<byte>, buffer: seq<byte>, size: nat, other: seq<byte>)
    requires WellFormed(s) && NamesNonEmpty(s.dir) && |buffer| >= SECTOR_SIZE
    requires Target(s, path) != NO_NAME && !Named(s.dir, Target(s, path)) && !Spare(s.dir)
    requires other != [] && other[0] == SLASH && Read(s, other).Some? && Target(s, other) != NO_NAME
    ensures FreshFrom(s.dir, 2) < 256 && |Write(s, path, buffer, size).disk| >= SECTORS
    ensures Read(Write(s, path, buffer, size), other) == None
  {
    hide Write, Named, IdOf, Contents, Resolve, CleanFrom, Spare, WellFormed, NamesNonEmpty, MeetsEmpty;
    CallsFit(s);
    LeadingSlash(other, s.dir);
    SlashSkipped(other, s.dir);
    HoleLeftIff(s, path, buffer, size);
    WriteKeepsWellFormed(s, path, buffer, size);
    CallsFit(Write(s, path, buffer, size));
    LeadingSlash(other, Write(s, path, buffer, size).dir);
  }

  /** A directory of 31 files named by one letter each, and one unused entry. */
  function NearlyFull(): directory
  {
    seq(FILE_ENTRIES, i requires 0 <= i < FILE_ENTRIES =>
      if i < 31 then FileEntry(Padded([(97 + i) as byte]), (2 + i) as byte, 0, 0, 0) else NO_ENTRY)
  }

  lemma NearlyFullFacts()
    ensures GoodDir(NearlyFull()) && NamesNonEmpty(NearlyFull()) && !Spare(NearlyFull())
    ensures Named(NearlyFull(), NO_NAME) && Named(NearlyFull(), Padded([97])) && !Named(NearlyFull(), Padded([200]))
    ensures Padded([97]) != NO_NAME && Padded([200]) != NO_NAME
  {
    var d := NearlyFull();
    assert d[31] == NO_ENTRY && d[0].filename == Padded([97]);
    forall c: byte
      ensures Padded([c])[0] == c
    {
    }
    assert NO_NAME[0] == 0;
    forall i | 0 <= i < |d|
      ensures d[i].filename[0] == (if i < 31 then (97 + i) as byte else 0) && d[i].fileid == if i < 31 then (2 + i) as byte else 0
    {
    }
  }

  /** A file system with one entry left, in which a write to a new file hides the file read by /a. */
  lemma SlashedFileHidden() returns (s: Fs, path: seq<byte>, other: seq<byte>)
    ensures WellFormed(s) && NamesNonEmpty(s.dir) && FreshFrom(s.dir, 2) < 256
    ensures Target(s, path) != NO_NAME && other == [SLASH, 97] && Target(s, other) != Target(s, path)
    ensures Read(s, other).Some?
    ensures forall buffer: seq<byte>, size: nat :: |buffer| >= SECTOR_SIZE ==>
              var s' := Write(s, path, buffer, size); |s'.disk| >= SECTORS && Read(s', other) == None
  {
    hide Named, Spare, NamesNonEmpty, GoodDir, Write, Read, Resolve, EncodeEntries, NearlyFull, Padded, CleanFrom, EndsAtFile, Bootable;
    path, other := [200], [SLASH, 97];
    NearlyFullFacts();
    var disk := FreshDiskExists();
    s := WithDirectory(disk, NearlyFull());
    CallsFit(s);
    LetterPath(s.dir, 200);
    LetterPath(s.dir, 97);
    LeadingSlash(other, s.dir);
    ListedIsRead(s, other);
    forall buffer: seq<byte>, size: nat | |buffer| >= SECTOR_SIZE
      ensures |Write(s, path, buffer, size).disk| >= SECTORS && Read(Write(s, path, buffer, size), other) == None
    {
      LastEntryHidesSlashedFiles(s, path, buffer, size, other);
    }
  }

  /** Another directory on a fresh disk. */
  lemma WithDirectory(disk: seq<sector>, d: directory) returns (s: Fs)
    requires IsFresh(disk) && GoodDir(d)
    ensures WellFormed(s) && s.dir == d
  {
    hide EncodeEntries;
    s := Fs(d, disk[1], NO_NAME, disk[2 := EncodeDir(d)]);
    assert s.disk[0] == disk[0] && s.disk[1] == disk[1] && s.disk[2] == EncodeDir(d);
  }

  lemma ListedIsRead(s: Fs, path: seq<byte>)
    requires |s.disk| >= SECTORS && Named(s.dir, Target(s, path))
    ensures Read(s, path).Some?
  {
  }

  lemma StepKeepsNames(s: Fs, c: Call, s': Fs, m: name)
    requires WellFormed(s) && Step(s, c, s') && Named(s.dir, m) && m != NO_NAME
    ensures Named(s'.dir, m)
  {
    hide WellFormed, Write, Added;
    CallsFit(s);
    match c {
      case WriteCall(path, buffer, size) => WriteKeepsNames(s, path, buffer, size, m);
      case NewFileCall(path) =>
        FreshIdExists(s.dir);
        AddedKeepsNames(s.dir, Target(s, path), FreshFrom(s.dir, 2) as byte, m);
    }
  }

  lemma {:induction false} RunKeepsNames(ss: seq<Fs>, cs: seq<Call>, j: nat, m: name)
    requires Run(ss, cs) && WellFormed(ss[0]) && j < |ss| && Named(ss[0].dir, m) && m != NO_NAME
    ensures Named(ss[j].dir, m)
  {
    hide WellFormed, Step, Named;
    if j > 0 {
      RunKeepsNames(ss, cs, j - 1, m);
      RunSurvivesRemount(ss, cs, j - 1);
      assert Step(ss[j - 1], cs[j - 1], ss[j]);
      StepKeepsNames(ss[j - 1], cs[j - 1], ss[j], m);
    }
  }

  /** Calls never list an empty name. */
  lemma {:induction false} RunKeepsNamesNonEmpty(ss: seq<Fs>, cs: seq<Call>, j: nat)
    requires Run(ss, cs) && WellFormed(ss[0]) && j < |ss| && NamesNonEmpty(ss[0].dir)
    ensures NamesNonEmpty(ss[j].dir)
  {
    hide WellFormed, Write, Added, NamesNonEmpty, Resolve;
    if j > 0 {
      var s, c := ss[j - 1], cs[j - 1];
      RunKeepsNamesNonEmpty(ss, cs, j - 1);
      RunSurvivesRemount(ss, cs, j - 1);
      CallsFit(s);
      assert Step(s, c, ss[j]);
      TargetIsValid(s, Target(s, c.path));
      FreshIdExists(s.dir);
      EmptyNameAfterAdding(s.dir, Target(s, c.path), FreshFrom(s.dir, 2) as byte);
      if c.WriteCall? {
        WriteDisk(s, c.path, c.buffer, c.size);
      }
    }
  }

  /**
    A listed file that no call of the run is about reads the same through the same path, if and only if the path
    passes no empty component or the empty name is still found.
   */
  lemma UntouchedFileReadsTheSameIff(ss: seq<Fs>, cs: seq<Call>, path: seq<byte>, j: nat)
    requires Run(ss, cs) && WellFormed(ss[0]) && j < |ss|
    requires path != [] && Target(ss[0], path) != NO_NAME && Named(ss[0].dir, Target(ss[0], path))
    requires forall i :: 0 <= i < |cs| ==> Target(ss[i], cs[i].path) != Target(ss[0], path)
    ensures |ss[0].disk| >= SECTORS && |ss[j].disk| >= SECTORS
    ensures Read(ss[j], path) == Read(ss[0], path) <==> !MeetsEmpty(path, ss[0].dir, 0) || Named(ss[j].dir, NO_NAME)
  {
    hide WellFormed, Step, Named, Resolve, CleanFrom, Contents, IdOf, MeetsEmpty;
    forall m: name | m != NO_NAME && Named(ss[0].dir, m)
      ensures Named(ss[j].dir, m)
    {
      RunKeepsNames(ss, cs, j, m);
    }
    ResolveStableIff(path, ss[0].dir, ss[j].dir, 0);
    UntouchedFileStays(ss, cs, Target(ss[0], path), j);
  }

  /**
    What is written stays written: once a write is read back, every later run of calls about other files, and a
    remount at any point of it, leaves the path reading as the bytes written.
   */
  lemma WrittenStaysReadable(s: Fs, path: seq<byte>, buffer: seq<byte>, size: nat, ss: seq<Fs>, cs: seq<Call>, j: nat)
    requires WellFormed(s) && Target(s, path) != NO_NAME && |buffer| >= SECTOR_SIZE && size <= |buffer| && path != []
    requires Regular(s, path, Target(s, path)) && Listable(s, path) && Arrives(path, s.dir, 0, HoleLeft(s, path))
    requires FreshFrom(s.dir, 2) < 256 && Storable(s, path, buffer, size)
    requires Run(ss, cs) && ss[0] == Write(s, path, buffer, size) && j < |ss|
    requires !MeetsEmpty(path, ss[0].dir, 0) || Named(ss[j].dir, NO_NAME)
    requires forall i :: 0 <= i < |cs| ==> Target(ss[i], cs[i].path) != Target(s, path)
    ensures ReadsAs(ss[j], path, buffer, size)
  {
    hide WellFormed, Step, Named, Resolve, Write, Arrives, Storable, Regular, FirstUnused, IdOf, Contents, Mounted, HoleLeft, MeetsEmpty;
    WriteKeepsWellFormed(s, path, buffer, size);
    WrittenIsReadBackIff(s, path, buffer, size);
    ListedAfterWrite(s, path, buffer, size);
    UntouchedFileReadsTheSameIff(ss, cs, path, j);
    RunSurvivesRemount(ss, cs, j);
    CallsFit(ss[j]);
  }
}
