/** The SFS file system of kernel/fs/sfs.c on values: directory, sector ownership, disk, and what each call makes of them. */
module SfsModel {
  import opened Common

  const NAME_LENGTH: nat := 12  // SFS_MAX_FILE_NAME
  const FILE_ENTRIES: nat := 32 // SFS_FILE_TABLE_ENTRIES
  const SECTOR_SIZE: nat := 512
  const SECTORS: nat := 512     // slots of the ownership table
  const FIRST_DATA: nat := 3    // the first sector sfs_write may claim

  const SLASH: byte := 47
  const DOT: byte := 46

  type name = n: seq<byte> | |n| == 12 witness [0, 0, 0, 0, 0, 0, 0, 0, 0, 0, 0, 0]

  datatype FileEntry = FileEntry(filename: name, fileid: byte, lastLow: byte, lastHigh: byte, flags: byte)

  const NO_NAME: name := [0, 0, 0, 0, 0, 0, 0, 0, 0, 0, 0, 0]
  const NO_ENTRY := FileEntry(NO_NAME, 0, 0, 0, 0)

  type sector = n: seq<byte> | |n| == 512 witness seq(512, _ => 0)
  type directory = d: seq<FileEntry> | |d| == 32 witness seq(32, _ => NO_ENTRY)

  /** `path` is the resolved-name buffer, which survives from one call to the next. */
  datatype Fs = Fs(dir: directory, owner: sector, path: name, disk: seq<sector>)

  // ----- the boot sector -----

  function TableSector(disk: seq<sector>): nat
    requires |disk| > 0
  {
    disk[0][7] as nat + 256 * disk[0][8] as nat
  }

  function DirectorySector(disk: seq<sector>): nat
    requires |disk| > 0
  {
    TableSector(disk) + disk[0][9] as nat
  }

  predicate Bootable(disk: seq<sector>)
    requires |disk| > 0
  {
    disk[0][3] == 0xCD && disk[0][4] == 1
  }

  // ----- the on-disk form of the directory -----

  function EncodeEntry(e: FileEntry): (r: seq<byte>)
    ensures |r| == 16
  {
    e.filename + [e.fileid, e.lastLow, e.lastHigh, e.flags]
  }

  function EncodeEntries(d: seq<FileEntry>): (r: seq<byte>)
    ensures |r| == 16 * |d|
  {
    if d == [] then [] else EncodeEntry(d[0]) + EncodeEntries(d[1..])
  }

  function EncodeDir(d: directory): sector
  {
    EncodeEntries(d)
  }

  function DecodeEntry(b: seq<byte>): FileEntry
    requires |b| == 16
  {
    FileEntry(b[..12], b[12], b[13], b[14], b[15])
  }

  function DecodeEntries(b: seq<byte>): (d: seq<FileEntry>)
    requires |b| % 16 == 0
    ensures 16 * |d| == |b|
  {
    if b == [] then [] else [DecodeEntry(b[..16])] + DecodeEntries(b[16..])
  }

  function DecodeDir(b: sector): directory
  {
    DecodeEntries(b)
  }

  // ----- names and identifiers -----

  predicate Named(d: seq<FileEntry>, n: name)
  {
    exists i :: 0 <= i < |d| && d[i].filename == n
  }

  /** The identifier of the first entry with that name, 0 when there is none. */
  function IdOf(d: seq<FileEntry>, n: name): byte
  {
    if d == [] then 0 else if d[0].filename == n then d[0].fileid else IdOf(d[1..], n)
  }

  predicate HasId(d: seq<FileEntry>, id: int)
  {
    exists i :: 0 <= i < |d| && d[i].fileid as int == id
  }

  /** The search of sfs_new_file for an identifier no entry uses. */
  function FreshFrom(d: seq<FileEntry>, n: nat): nat
    decreases 256 - n
  {
    if n >= 256 || !HasId(d, n) then n else FreshFrom(d, n + 1)
  }

  /** The first entry with identifier 0, `|d|` when the directory is full. */
  function FirstUnused(d: seq<FileEntry>): (i: nat)
    ensures i <= |d|
  {
    if d == [] || d[0].fileid == 0 then 0 else 1 + FirstUnused(d[1..])
  }

  function Added(d: directory, n: name, id: byte): directory
  {
    var i := FirstUnused(d);
    if i < |d| then d[i := d[i].(fileid := id, filename := n)] else d
  }

  // ----- path resolution -----

  /** Up to `k` bytes of the path from `p`, stopping at a slash or the end. */
  function TakeName(path: seq<byte>, p: nat, k: nat): (t: seq<byte>)
    requires p <= |path|
    ensures |t| <= k && p + |t| <= |path|
    decreases k
  {
    if k == 0 || p == |path| || path[p] == SLASH then [] else [path[p]] + TakeName(path, p + 1, k - 1)
  }

  function Padded(t: seq<byte>): name
    requires |t| <= NAME_LENGTH
  {
    t + seq(NAME_LENGTH - |t|, _ => 0)
  }

  /** The name that path resolution stops at, from position `p` on. */
  function Resolve(path: seq<byte>, d: seq<FileEntry>, p: nat): name
    requires p <= |path|
    decreases |path| - p
  {
    var t := TakeName(path, p, NAME_LENGTH);
    var q := p + |t|;
    if DOT in t || !Named(d, Padded(t)) || q == |path| then Padded(t)
    else if path[q] == SLASH then Resolve(path, d, q + 1)
    else FullNameWhenCut(path, p, NAME_LENGTH); Resolve(path, d, q)
  }

  lemma FullNameWhenCut(path: seq<byte>, p: nat, k: nat)
    requires p <= |path|
    ensures var t := TakeName(path, p, k); p + |t| == |path| || path[p + |t|] == SLASH || |t| == k
    decreases k
  {
  }

  /** sfs_get_detail: an empty path leaves the buffer as it was. */
  function Resolved(path: seq<byte>, d: seq<FileEntry>, before: name): name
  {
    if path == [] then before else Resolve(path, d, 0)
  }

  // ----- sectors -----

  function Released(owner: sector, id: byte): sector
  {
    seq(SECTORS, i requires 0 <= i < SECTORS => if owner[i] == id then 0 else owner[i])
  }

  /** Gives up to `n` free sectors from `i` on to `id`. */
  function Claimed(owner: sector, id: byte, n: nat, i: nat): sector
    decreases SECTORS - i
  {
    if i >= SECTORS || n == 0 then owner
    else if owner[i] == 0 then Claimed(owner[i := id], id, n - 1, i + 1)
    else Claimed(owner, id, n, i + 1)
  }

  function SectorsFor(size: nat): nat
  {
    size / SECTOR_SIZE + 1
  }

  /** Every sector of `id` holds `chunk`; the others are as before. */
  function Stored(disk: seq<sector>, owner: sector, id: byte, chunk: sector): seq<sector>
  {
    seq(|disk|, i requires 0 <= i < |disk| => if i < SECTORS && owner[i] == id then chunk else disk[i])
  }

  /** The bytes of all sectors of `id` from sector `i` on, in order. */
  function Contents(owner: sector, disk: seq<sector>, id: byte, i: nat): seq<byte>
    requires |disk| >= SECTORS
    decreases SECTORS - i
  {
    if i >= SECTORS then []
    else (if owner[i] == id then disk[i] else []) + Contents(owner, disk, id, i + 1)
  }

  // ----- the calls -----

  /** What every call keeps: tables outside the data area, identifiers from 2 and distinct, and both tables mirrored on disk. */
  ghost predicate WellFormed(s: Fs)
  {
    && |s.disk| >= SECTORS && Bootable(s.disk)
    && (var t, f := TableSector(s.disk), DirectorySector(s.disk);
        && t != f && 0 < t < |s.disk| && 0 < f < |s.disk|
        && !(FIRST_DATA <= t < SECTORS) && !(FIRST_DATA <= f < SECTORS)
        && s.disk[t] == s.owner && s.disk[f] == EncodeDir(s.dir))
    && (forall i :: 0 <= i < FIRST_DATA ==> s.owner[i] <= 1)
    && GoodDir(s.dir)
  }

  ghost predicate GoodDir(d: seq<FileEntry>)
  {
    && (forall i :: 0 <= i < |d| && d[i].fileid == 0 ==> d[i].filename == NO_NAME)
    && (forall i :: 0 <= i < |d| ==> d[i].fileid != 1)
    && (forall i, j :: 0 <= i < j < |d| && d[i].fileid != 0 ==> d[i].fileid != d[j].fileid)
  }

  /** sfs_new_file: the new state and the identifier it returns. */
  function NewFile(s: Fs, path: seq<byte>): (Fs, byte)
    requires |s.disk| > 0 && DirectorySector(s.disk) < |s.disk|
    requires FreshFrom(s.dir, 2) < 256
  {
    var n := Resolved(path, s.dir, s.path);
    var id := FreshFrom(s.dir, 2) as byte;
    var d := Added(s.dir, n, id);
    (s.(dir := d, path := n, disk := s.disk[DirectorySector(s.disk) := EncodeDir(d)]), id)
  }

  /** sfs_write: release the file's sectors, claim new ones, save the ownership table, store the first 512 bytes in each. */
  function Write(s: Fs, path: seq<byte>, buffer: seq<byte>, size: nat): Fs
    requires |s.disk| > 0 && TableSector(s.disk) < |s.disk| && 0 < DirectorySector(s.disk) < |s.disk|
    requires FreshFrom(s.dir, 2) < 256 && |buffer| >= SECTOR_SIZE
  {
    var n := Resolved(path, s.dir, s.path);
    var (s1, id) := if Named(s.dir, n) then (s.(path := n), IdOf(s.dir, n)) else NewFile(s.(path := n), path);
    var owner := Claimed(Released(s.owner, id), id, SectorsFor(size), FIRST_DATA);
    s1.(owner := owner, disk := Stored(s1.disk[TableSector(s.disk) := owner], owner, id, buffer[..SECTOR_SIZE]))
  }

  /** sfs_read: nothing when the resolved name is not listed, otherwise the bytes of its sectors. */
  function Read(s: Fs, path: seq<byte>): Option<seq<byte>>
    requires |s.disk| >= SECTORS
  {
    var n := Resolved(path, s.dir, s.path);
    if Named(s.dir, n) then Some(Contents(s.owner, s.disk, IdOf(s.dir, n), 0)) else None
  }

  /** initialiseSFS on a disk: both tables as read back from it. */
  function Mounted(disk: seq<sector>, path: name): Fs
    requires |disk| > 0 && TableSector(disk) < |disk| && DirectorySector(disk) < |disk|
  {
    Fs(DecodeDir(disk[DirectorySector(disk)]), disk[TableSector(disk)], path, disk)
  }
}
