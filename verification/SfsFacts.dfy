/** What the calls of SfsModel keep, undo and leave alone. */
module SfsFacts {
  import opened Common
  import opened SfsModel

  // ----- the directory survives its on-disk form -----

  lemma {:induction false} DecodeUndoesEncode(d: seq<FileEntry>)
    ensures DecodeEntries(EncodeEntries(d)) == d
  {
    if d != [] {
      var b := EncodeEntries(d);
      assert b[..16] == EncodeEntry(d[0]) && b[16..] == EncodeEntries(d[1..]);
      DecodeUndoesEncode(d[1..]);
      assert DecodeEntry(EncodeEntry(d[0])) == d[0];
      assert d == [d[0]] + d[1..];
    }
  }

  /** Entry `i` of a stored directory: twelve bytes of name, then the identifier, then three more, from byte 16 * i on. */
  lemma {:induction false} DecodedEntry(b: seq<byte>, i: nat)
    requires |b| % 16 == 0 && 16 * i < |b|
    ensures var d := DecodeEntries(b);
            && i < |d| && d[i].filename == b[16 * i..16 * i + 12] && d[i].fileid == b[16 * i + 12]
            && d[i].lastLow == b[16 * i + 13] && d[i].lastHigh == b[16 * i + 14] && d[i].flags == b[16 * i + 15]
  {
    hide DecodeEntries;
    DecodedStep(b);
    if i > 0 {
      DecodedEntry(b[16..], i - 1);
      SliceBehind(b, 16 * (i - 1));
    }
  }

  lemma DecodedStep(b: seq<byte>)
    requires |b| % 16 == 0 && b != []
    ensures var d := DecodeEntries(b);
            && d[0] == FileEntry(b[0..12], b[12], b[13], b[14], b[15]) && |d| == 1 + |DecodeEntries(b[16..])|
            && forall i :: 0 < i < |d| ==> d[i] == DecodeEntries(b[16..])[i - 1]
  {
    assert b[..16][..12] == b[0..12];
  }

  lemma SliceBehind(b: seq<byte>, k: nat)
    requires k + 32 <= |b|
    ensures b[16..][k..k + 12] == b[k + 16..k + 28]
    ensures forall j :: k <= j < k + 16 ==> b[16..][j] == b[j + 16]
  {
  }

  lemma EncodedEntry(d: seq<FileEntry>, i: nat)
    requires i < |d|
    ensures var b := EncodeEntries(d); b[16 * i..16 * i + 12] == d[i].filename && b[16 * i + 12] == d[i].fileid
  {
    hide EncodeEntries, DecodeEntries;
    DecodeUndoesEncode(d);
    DecodedEntry(EncodeEntries(d), i);
  }

  // ----- the search for a free identifier -----

  function Ids(d: seq<FileEntry>): set<int>
  {
    set i | 0 <= i < |d| :: d[i].fileid as int
  }

  lemma {:induction false} FewIds(d: seq<FileEntry>)
    ensures |Ids(d)| <= |d|
  {
    if d == [] {
      assert Ids(d) == {};
    } else {
      var n := |d| - 1;
      FewIds(d[..n]);
      assert Ids(d) == Ids(d[..n]) + {d[n].fileid as int};
    }
  }

  function Range(lo: int, hi: int): (r: set<int>)
    requires lo <= hi
    ensures |r| == hi - lo
    ensures (forall x :: x in r <==> lo <= x < hi)
    decreases hi - lo
  {
    if lo == hi then {} else Range(lo, hi - 1) + {hi - 1}
  }

  /** With all identifiers from 2 to `n` - 1 taken, `n` - 2 entries are needed. */
  lemma Pigeonhole(d: seq<FileEntry>, n: nat)
    requires n >= 2 && forall m :: 2 <= m < n ==> HasId(d, m)
    ensures n <= |d| + 2
  {
    forall m | m in Range(2, n)
      ensures m in Ids(d)
    {
      assert HasId(d, m);
    }
    FewIds(d);
    assert Ids(d) == Range(2, n) + (Ids(d) - Range(2, n));
  }

  lemma {:induction false} FreshFromSearches(d: seq<FileEntry>, n: nat)
    requires n <= 256
    ensures var r := FreshFrom(d, n); n <= r <= 256 && (forall m :: n <= m < r ==> HasId(d, m)) && (r < 256 ==> !HasId(d, r))
    decreases 256 - n
  {
    if n < 256 && HasId(d, n) {
      FreshFromSearches(d, n + 1);
    }
  }

  /** The search always ends, at the least identifier from 2 that none of the 32 entries uses, and at most at 34. */
  lemma FreshIdExists(d: directory)
    ensures var r := FreshFrom(d, 2); 2 <= r <= 34 && !HasId(d, r) && forall m :: 2 <= m < r ==> HasId(d, m)
  {
    FreshFromSearches(d, 2);
    Pigeonhole(d, FreshFrom(d, 2));
  }

  // ----- looking names up -----

  lemma {:induction false} NamedEntry(d: seq<FileEntry>, n: name) returns (i: nat)
    requires Named(d, n)
    ensures i < |d| && d[i].filename == n && d[i].fileid == IdOf(d, n)
  {
    if d[0].filename == n {
      i := 0;
    } else {
      assert Named(d[1..], n) by {
        var j :| 0 <= j < |d| && d[j].filename == n;
        assert d[1..][j - 1].filename == n;
      }
      i := NamedEntry(d[1..], n);
      i := i + 1;
    }
  }

  /** Changing one entry does not matter for a name that entry never bears. */
  lemma {:induction false} IdOfElsewhere(d: seq<FileEntry>, k: nat, e: FileEntry, n: name)
    requires k < |d| && d[k].filename != n && e.filename != n
    ensures IdOf(d[k := e], n) == IdOf(d, n)
    ensures Named(d[k := e], n) <==> Named(d, n)
  {
    var d' := d[k := e];
    if k > 0 {
      IdOfElsewhere(d[1..], k - 1, e, n);
      assert d'[1..] == d[1..][k - 1 := e];
    } else {
      assert d'[1..] == d[1..];
    }
    if Named(d, n) {
      var i := NamedEntry(d, n);
      assert d'[i].filename == n;
    }
    if Named(d', n) {
      var i := NamedEntry(d', n);
      assert d[i].filename == n;
    }
  }

  lemma {:induction false} IdOfNewEntry(d: seq<FileEntry>, k: nat, e: FileEntry)
    requires k < |d| && !Named(d, e.filename)
    ensures IdOf(d[k := e], e.filename) == e.fileid && Named(d[k := e], e.filename)
  {
    var d' := d[k := e];
    assert d'[k].filename == e.filename;
    if k > 0 {
      assert d[0].filename != e.filename;
      assert forall i :: 0 <= i < |d[1..]| ==> d[1..][i] == d[i + 1];
      IdOfNewEntry(d[1..], k - 1, e);
      assert d'[1..] == d[1..][k - 1 := e];
    }
  }

  lemma {:induction false} FirstUnusedIsUnused(d: seq<FileEntry>)
    ensures var i := FirstUnused(d); (i < |d| ==> d[i].fileid == 0) && forall k :: 0 <= k < i ==> d[k].fileid != 0
  {
    if d != [] && d[0].fileid != 0 {
      FirstUnusedIsUnused(d[1..]);
      forall k | 0 <= k < FirstUnused(d)
        ensures d[k].fileid != 0
      {
        if k > 0 { assert d[1..][k - 1].fileid != 0; }
      }
    }
  }

  /** A listed name belongs to an identifier from 2 that no other entry has. */
  lemma ListedId(d: directory, n: name) returns (i: nat)
    requires GoodDir(d) && Named(d, n) && n != NO_NAME
    ensures i < |d| && d[i].filename == n && d[i].fileid == IdOf(d, n) && d[i].fileid >= 2
    ensures forall j :: 0 <= j < |d| && j != i ==> d[j].fileid != d[i].fileid
  {
    i := NamedEntry(d, n);
  }

  /** Adding a file keeps identifiers distinct and leaves every other name alone. */
  lemma AddedKeeps(d: directory, n: name, id: byte)
    requires GoodDir(d) && id >= 2 && !HasId(d, id as int)
    ensures GoodDir(Added(d, n, id))
    ensures forall m :: m != NO_NAME && m != n ==> IdOf(Added(d, n, id), m) == IdOf(d, m) && (Named(Added(d, n, id), m) <==> Named(d, m))
    ensures !Named(d, n) ==> if FirstUnused(d) < |d| then Named(Added(d, n, id), n) && IdOf(Added(d, n, id), n) == id else Added(d, n, id) == d
  {
    FirstUnusedIsUnused(d);
    var i := FirstUnused(d);
    if i < |d| {
      var e := d[i].(fileid := id, filename := n);
      forall m | m != NO_NAME && m != n
        ensures IdOf(Added(d, n, id), m) == IdOf(d, m) && (Named(Added(d, n, id), m) <==> Named(d, m))
      {
        IdOfElsewhere(d, i, e, m);
      }
      if !Named(d, n) {
        IdOfNewEntry(d, i, e);
      }
      forall k | 0 <= k < |d|
        ensures d[k].fileid != id
      {
      }
    }
  }

  /** The position of the first entry with that name, `|d|` when there is none. */
  function FirstNamed(d: seq<FileEntry>, n: name): (i: nat)
    ensures i <= |d|
  {
    if d == [] || d[0].filename == n then 0 else 1 + FirstNamed(d[1..], n)
  }

  /** A second entry of a name is found instead of the first exactly if it stands before it. */
  lemma {:induction false} IdOfSecondEntry(d: seq<FileEntry>, k: nat, e: FileEntry)
    requires k < |d| && d[k].filename != e.filename && Named(d, e.filename)
    ensures IdOf(d[k := e], e.filename) == if k < FirstNamed(d, e.filename) then e.fileid else IdOf(d, e.filename)
  {
    var d' := d[k := e];
    if d[0].filename != e.filename {
      assert Named(d[1..], e.filename) by {
        var j :| 0 <= j < |d| && d[j].filename == e.filename;
        assert d[1..][j - 1] == d[j];
      }
      if k > 0 {
        IdOfSecondEntry(d[1..], k - 1, e);
        assert d'[1..] == d[1..][k - 1 := e];
      }
    }
  }

  // ----- sector ownership -----

  /** Claiming takes only sectors that are free and not below `i`. */
  lemma {:induction false} ClaimTakesFree(owner: sector, id: byte, n: nat, i: nat)
    ensures var o := Claimed(owner, id, n, i); forall j :: 0 <= j < SECTORS ==> o[j] == owner[j] || (j >= i && owner[j] == 0 && o[j] == id)
    decreases SECTORS - i
  {
    if i < SECTORS && n > 0 {
      if owner[i] == 0 {
        ClaimTakesFree(owner[i := id], id, n - 1, i + 1);
      } else {
        ClaimTakesFree(owner, id, n, i + 1);
      }
    }
  }

  /** Sectors 0 to 2 are never claimed, and sector 3 is the first to be. */
  lemma SectorThreeFirst(owner: sector, id: byte, n: nat)
    requires n > 0
    ensures var o := Claimed(owner, id, n, FIRST_DATA); o[..3] == owner[..3] && (owner[3] == 0 ==> o[3] == id)
  {
    ClaimTakesFree(owner, id, n, FIRST_DATA);
    if owner[3] == 0 {
      ClaimTakesFree(owner[3 := id], id, n - 1, 4);
      assert id == 0 || Claimed(owner[3 := id], id, n - 1, 4)[3] == id;
    }
  }

  /** The lowest free sectors are claimed: a free sector is left free only if all that are claimed lie below it. */
  lemma {:induction false} ClaimsLowest(owner: sector, id: byte, n: nat, i: nat, j: nat, k: nat)
    requires id != 0 && i <= j < k < SECTORS && owner[j] == 0 && owner[k] == 0
    ensures var o := Claimed(owner, id, n, i); o[k] == id ==> o[j] == id
    decreases SECTORS - i
  {
    if n > 0 {
      if owner[i] == 0 {
        var next := owner[i := id];
        ClaimTakesFree(next, id, n - 1, i + 1);
        if i < j {
          ClaimsLowest(next, id, n - 1, i + 1, j, k);
        }
      } else {
        ClaimsLowest(owner, id, n, i + 1, j, k);
      }
    }
  }

  /** The sectors from `i` up to `j` that belong to `id`. */
  function OwnedIn(owner: sector, id: byte, i: nat, j: nat): set<nat>
    requires j <= SECTORS
  {
    set m: nat | i <= m < j && owner[m] == id
  }

  lemma {:induction false} CountIsOwned(owner: sector, id: byte, i: nat)
    requires i <= SECTORS
    ensures CountOf(owner, id, i) == |OwnedIn(owner, id, i, SECTORS)|
    decreases SECTORS - i
  {
    if i == SECTORS {
      assert OwnedIn(owner, id, i, SECTORS) == {};
    } else {
      CountIsOwned(owner, id, i + 1);
      assert OwnedIn(owner, id, i, SECTORS) == (if owner[i] == id then {i} else {}) + OwnedIn(owner, id, i + 1, SECTORS);
    }
  }

  function CountOf(owner: sector, id: byte, i: nat): nat
    decreases SECTORS - i
  {
    if i >= SECTORS then 0 else (if owner[i] == id then 1 else 0) + CountOf(owner, id, i + 1)
  }

  function Min(a: nat, b: nat): nat
  {
    if a < b then a else b
  }

  lemma {:induction false} CountDependsOnTail(a: sector, b: sector, id: byte, i: nat)
    requires forall j :: i <= j < SECTORS ==> (a[j] == id <==> b[j] == id)
    ensures CountOf(a, id, i) == CountOf(b, id, i)
    decreases SECTORS - i
  {
    if i < SECTORS {
      CountDependsOnTail(a, b, id, i + 1);
    }
  }

  /** As many sectors are claimed as are wanted and free. */
  lemma {:induction false} ClaimCount(owner: sector, id: byte, n: nat, i: nat)
    requires id != 0
    ensures CountOf(Claimed(owner, id, n, i), id, i) == CountOf(owner, id, i) + Min(n, CountOf(owner, 0, i))
    decreases SECTORS - i
  {
    if i < SECTORS && n > 0 {
      if owner[i] == 0 {
        var o := owner[i := id];
        ClaimCount(o, id, n - 1, i + 1);
        ClaimTakesFree(o, id, n - 1, i + 1);
        CountDependsOnTail(o, owner, id, i + 1);
        CountDependsOnTail(o, owner, 0, i + 1);
      } else {
        ClaimCount(owner, id, n, i + 1);
        ClaimTakesFree(owner, id, n, i + 1);
      }
    }
  }

  // ----- the contents of a file -----

  lemma {:induction false} SameContents(o: sector, d: seq<sector>, o': sector, d': seq<sector>, id: byte, i: nat)
    requires |d| >= SECTORS && |d'| >= SECTORS
    requires forall j :: i <= j < SECTORS ==> (o[j] == id <==> o'[j] == id) && (o[j] == id ==> d[j] == d'[j])
    ensures Contents(o', d', id, i) == Contents(o, d, id, i)
    decreases SECTORS - i
  {
    if i < SECTORS {
      SameContents(o, d, o', d', id, i + 1);
    }
  }

  /** A file's bytes are those of its sectors in ascending order: a sector comes after as many others as lie below it. */
  lemma {:induction false} ContentsInOrder(o: sector, d: seq<sector>, id: byte, i: nat, j: nat)
    requires |d| >= SECTORS && i <= j < SECTORS && o[j] == id
    ensures |Contents(o, d, id, i)| == 512 * |OwnedIn(o, id, i, SECTORS)|
    ensures var k := |OwnedIn(o, id, i, j)|;
            512 * k + 512 <= |Contents(o, d, id, i)| && Contents(o, d, id, i)[512 * k..512 * k + 512] == d[j]
    decreases SECTORS - i
  {
    hide Contents;
    ContentsUnfold(o, d, id, i);
    ContentsLength(o, d, id, i);
    ContentsLength(o, d, id, i + 1);
    if i == j {
      assert OwnedIn(o, id, i, j) == {};
    } else {
      ContentsInOrder(o, d, id, i + 1, j);
      assert OwnedIn(o, id, i, j) == (if o[i] == id then {i} else {}) + OwnedIn(o, id, i + 1, j);
      if o[i] == id {
        var k := |OwnedIn(o, id, i + 1, j)|;
        Behind(d[i], Contents(o, d, id, i + 1), k);
      }
    }
  }

  lemma Behind(first: sector, rest: seq<byte>, k: nat)
    requires 512 * k + 512 <= |rest|
    ensures (first + rest)[512 * (k + 1)..512 * (k + 1) + 512] == rest[512 * k..512 * k + 512]
  {
  }

  lemma {:induction false} ContentsLength(o: sector, d: seq<sector>, id: byte, i: nat)
    requires |d| >= SECTORS && i <= SECTORS
    ensures |Contents(o, d, id, i)| == 512 * |OwnedIn(o, id, i, SECTORS)|
    decreases SECTORS - i
  {
    hide Contents;
    ContentsUnfold(o, d, id, i);
    if i == SECTORS {
      assert OwnedIn(o, id, i, SECTORS) == {};
    } else {
      ContentsLength(o, d, id, i + 1);
      assert OwnedIn(o, id, i, SECTORS) == (if o[i] == id then {i} else {}) + OwnedIn(o, id, i + 1, SECTORS);
    }
  }

  function Repeated(chunk: sector, k: nat): (r: seq<byte>)
    ensures |r| == k * 512
  {
    if k == 0 then [] else chunk + Repeated(chunk, k - 1)
  }

  lemma ContentsUnfold(o: sector, d: seq<sector>, id: byte, i: nat)
    requires |d| >= SECTORS
    ensures Contents(o, d, id, i) ==
            if i >= SECTORS then [] else if o[i] == id then d[i] + Contents(o, d, id, i + 1) else Contents(o, d, id, i + 1)
  {
  }

  lemma {:induction false} UniformContents(o: sector, d: seq<sector>, id: byte, chunk: sector, i: nat)
    requires |d| >= SECTORS && forall j :: i <= j < SECTORS && o[j] == id ==> d[j] == chunk
    ensures Contents(o, d, id, i) == Repeated(chunk, CountOf(o, id, i))
    decreases SECTORS - i
  {
    ContentsUnfold(o, d, id, i);
    if i < SECTORS {
      UniformContents(o, d, id, chunk, i + 1);
    }
    hide Contents;
  }

  lemma {:induction false} RepeatedAt(chunk: sector, k: nat, i: nat)
    requires i < k * 512
    ensures |Repeated(chunk, k)| == k * 512 && Repeated(chunk, k)[i] == chunk[i % 512]
  {
    hide Repeated;
    RepeatedStep(chunk, k);
    if i >= 512 {
      RepeatedAt(chunk, k - 1, i - 512);
      RemainderOfShift(i);
    }
  }

  lemma RepeatedStep(chunk: sector, k: nat)
    requires k > 0
    ensures |Repeated(chunk, k)| == k * 512
    ensures forall i :: 0 <= i < k * 512 ==> Repeated(chunk, k)[i] == if i < 512 then chunk[i] else Repeated(chunk, k - 1)[i - 512]
  {
    assert Repeated(chunk, k) == chunk + Repeated(chunk, k - 1);
  }

  lemma RemainderOfShift(i: nat)
    requires i >= 512
    ensures (i - 512) % 512 == i % 512
  {
  }
}
