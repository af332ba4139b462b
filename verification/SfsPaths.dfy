/** Where a path leads once more names are listed in the SFS directory. */
module SfsPaths {
  import opened Common
  import opened SfsModel
  import opened SfsFacts

  /** The component of the path at position `p`, cut at twelve bytes. */
  function Component(path: seq<byte>, p: nat): (t: seq<byte>)
    requires p <= |path|
    ensures |t| <= NAME_LENGTH && p + |t| <= |path|
  {
    TakeName(path, p, NAME_LENGTH)
  }

  predicate IsLast(path: seq<byte>, p: nat)
    requires p <= |path|
  {
    p + |Component(path, p)| == |path|
  }

  /** Where the next component starts: after the slash, or, if the component was cut, right behind it. */
  function Next(path: seq<byte>, p: nat): (q: nat)
    requires p <= |path| && !IsLast(path, p)
    ensures p < q <= |path|
  {
    var q := p + |Component(path, p)|;
    FullNameWhenCut(path, p, NAME_LENGTH);
    if path[q] == SLASH then q + 1 else q
  }

  lemma ResolveStep(path: seq<byte>, d: seq<FileEntry>, p: nat)
    requires p <= |path|
    ensures var t := Component(path, p);
            Resolve(path, d, p) == if DOT in t || IsLast(path, p) || !Named(d, Padded(t)) then Padded(t) else Resolve(path, d, Next(path, p))
  {
  }

  /** From `p` on the path holds no NUL byte (it is a C string) and no empty component. */
  predicate CleanFrom(path: seq<byte>, p: nat)
  {
    && p < |path| && path[p] != SLASH && path[|path| - 1] != SLASH
    && (forall i :: p <= i < |path| ==> path[i] != 0)
    && (forall i :: p < i < |path| ==> !(path[i - 1] == SLASH && path[i] == SLASH))
  }

  predicate CleanPath(path: seq<byte>)
  {
    CleanFrom(path, 0)
  }

  lemma CleanComponent(path: seq<byte>, p: nat)
    requires CleanFrom(path, p)
    ensures Padded(Component(path, p)) != NO_NAME
    ensures !IsLast(path, p) ==> CleanFrom(path, Next(path, p))
  {
    var t := Component(path, p);
    assert t[0] == path[p] && Padded(t)[0] == t[0] != NO_NAME[0];
    FullNameWhenCut(path, p, NAME_LENGTH);
  }

  /** A component is what stands before the next slash (47), the end of the path or the thirteenth byte; the name is padded with zeroes. */
  lemma {:induction false} TakenName(path: seq<byte>, p: nat, k: nat)
    requires p <= |path|
    ensures var t := TakeName(path, p, k);
            && t == path[p..p + |t|] && 47 !in t && |t| <= k
            && (|t| == k || p + |t| == |path| || path[p + |t|] == 47)
    decreases k
  {
    if k > 0 && p < |path| && path[p] != SLASH {
      TakenName(path, p + 1, k - 1);
    }
  }

  lemma PaddedBytes(t: seq<byte>)
    requires |t| <= 12
    ensures |Padded(t)| == 12 && forall i :: 0 <= i < 12 ==> Padded(t)[i] == if i < |t| then t[i] else 0
  {
  }

  /** A name with a dot (46) ends resolution even when it is listed and more follows. */
  lemma DotEndsResolution(path: seq<byte>, d: seq<FileEntry>, p: nat)
    requires p <= |path| && 46 in Component(path, p)
    ensures Resolve(path, d, p) == Padded(Component(path, p))
  {
  }

  // ----- listed files -----

  /** Resolution passes an empty component: it finds the empty name listed and goes on. */
  predicate MeetsEmpty(path: seq<byte>, d: seq<FileEntry>, p: nat)
    requires p <= |path|
    decreases |path| - p
  {
    var t := Component(path, p);
    DOT !in t && !IsLast(path, p) && Named(d, Padded(t)) && (Padded(t) == NO_NAME || MeetsEmpty(path, d, Next(path, p)))
  }

  lemma {:induction false} CleanMeetsNone(path: seq<byte>, d: seq<FileEntry>, p: nat)
    requires CleanFrom(path, p)
    ensures !MeetsEmpty(path, d, p)
    decreases |path| - p
  {
    hide Component, Padded, IsLast, CleanFrom, Next;
    CleanStart(path, p);
    CleanComponent(path, p);
    if !IsLast(path, p) {
      CleanMeetsNone(path, d, Next(path, p));
    }
  }

  lemma CleanStart(path: seq<byte>, p: nat)
    requires CleanFrom(path, p)
    ensures p < |path| && path[p] != SLASH
  {
  }

  /**
    After more files are listed, a path that leads to a listed file still does if and only if it passes no empty
    component or the empty name is still found; otherwise it stops at the empty name.
   */
  lemma {:induction false} ResolveStableIff(path: seq<byte>, d: seq<FileEntry>, d': seq<FileEntry>, p: nat)
    requires p <= |path| && Resolve(path, d, p) != NO_NAME && Named(d, Resolve(path, d, p))
    requires forall m: name :: m != NO_NAME && Named(d, m) ==> Named(d', m)
    ensures Resolve(path, d', p) == if MeetsEmpty(path, d, p) && !Named(d', NO_NAME) then NO_NAME else Resolve(path, d, p)
    ensures MeetsEmpty(path, d, p) ==> Named(d, NO_NAME)
    decreases |path| - p
  {
    hide Component, Padded, Resolve, IsLast, Next;
    ResolveStep(path, d, p);
    ResolveStep(path, d', p);
    var t := Component(path, p);
    if !(DOT in t || IsLast(path, p) || !Named(d, Padded(t))) {
      ResolveStableIff(path, d, d', Next(path, p));
    }
  }

  // ----- created files -----

  /** Resolution stops at the last component, or at a name with a dot. */
  predicate EndsAtFile(path: seq<byte>, d: seq<FileEntry>, p: nat)
    requires p <= |path|
    decreases |path| - p
  {
    var t := Component(path, p);
    DOT in t || IsLast(path, p) || (Named(d, Padded(t)) && EndsAtFile(path, d, Next(path, p)))
  }

  /** The names a path passes once `n` is listed; `hole` tells whether the empty name is among them. */
  predicate Passes(d: seq<FileEntry>, m: name, n: name, hole: bool)
  {
    m == n || if m == NO_NAME then hole else Named(d, m)
  }

  /** From `p` on the path goes on through listed names and `n` and has `n` as its last component. */
  predicate Returns(path: seq<byte>, d: seq<FileEntry>, p: nat, n: name, hole: bool)
    requires p <= |path|
    decreases |path| - p
  {
    var t := Component(path, p);
    && DOT !in t
    && if IsLast(path, p) then Padded(t) == n else Passes(d, Padded(t), n, hole) && Returns(path, d, Next(path, p), n, hole)
  }

  /** Resolution stops before the last component, at an unlisted name that is also the last component, as in x/x. */
  predicate ComesBack(path: seq<byte>, d: seq<FileEntry>, p: nat, hole: bool)
    requires p <= |path|
    decreases |path| - p
  {
    var t := Component(path, p);
    && DOT !in t && !IsLast(path, p)
    && if Named(d, Padded(t)) then ComesBack(path, d, Next(path, p), hole) else Returns(path, d, Next(path, p), Padded(t), hole)
  }

  /**
    Resolution stops at the end of the path or at a name with a dot, or the path comes back to the name it stopped
    at; and no empty component is in the way, unless the empty name is still found.
   */
  predicate Arrives(path: seq<byte>, d: seq<FileEntry>, p: nat, hole: bool)
    requires p <= |path|
  {
    (hole || !MeetsEmpty(path, d, p)) && (EndsAtFile(path, d, p) || ComesBack(path, d, p, hole))
  }

  /** `d'` lists what `d` lists, and `n`. */
  ghost predicate Lists(d: seq<FileEntry>, d': seq<FileEntry>, n: name)
  {
    forall m: name :: m != NO_NAME ==> (Named(d', m) <==> Named(d, m) || m == n)
  }

  lemma PaddedDot(t: seq<byte>)
    requires |t| <= NAME_LENGTH
    ensures DOT in Padded(t) <==> DOT in t
  {
    if DOT in t {
      var i :| 0 <= i < |t| && t[i] == DOT;
      assert Padded(t)[i] == DOT;
    }
  }

  lemma {:induction false} ReturnsIff(path: seq<byte>, d: seq<FileEntry>, d': seq<FileEntry>, p: nat, n: name)
    requires p <= |path| && Lists(d, d', n) && n != NO_NAME && DOT !in n
    ensures Resolve(path, d', p) == n <==> Returns(path, d, p, n, Named(d', NO_NAME))
    decreases |path| - p
  {
    hide Component, Padded, Resolve, IsLast, Next;
    ResolveStep(path, d', p);
    var t := Component(path, p);
    PaddedDot(t);
    if DOT !in t && !IsLast(path, p) {
      ReturnsIff(path, d, d', Next(path, p), n);
    }
  }

  /** When the name a path stops at gets listed, the path leads to it if and only if it arrives there. */
  lemma {:induction false} LeadsToCreatedIff(path: seq<byte>, d: seq<FileEntry>, d': seq<FileEntry>, p: nat)
    requires p <= |path| && Resolve(path, d, p) != NO_NAME && Lists(d, d', Resolve(path, d, p))
    ensures Resolve(path, d', p) == Resolve(path, d, p) <==> Arrives(path, d, p, Named(d', NO_NAME))
    decreases |path| - p
  {
    hide Component, Padded, Resolve, IsLast, Next, Returns;
    ResolveStep(path, d, p);
    ResolveStep(path, d', p);
    var t := Component(path, p);
    PaddedDot(t);
    if DOT !in t && !IsLast(path, p) {
      if Named(d, Padded(t)) {
        LeadsToCreatedIff(path, d, d', Next(path, p));
      } else {
        ReturnsIff(path, d, d', Next(path, p), Padded(t));
      }
    }
  }

  lemma {:induction false} CleanReturns(path: seq<byte>, d: seq<FileEntry>, p: nat, n: name)
    requires CleanFrom(path, p)
    ensures Returns(path, d, p, n, true) <==> Returns(path, d, p, n, false)
    decreases |path| - p
  {
    hide Component, Padded, IsLast, CleanFrom, Next;
    CleanStart(path, p);
    CleanComponent(path, p);
    if !IsLast(path, p) {
      CleanReturns(path, d, Next(path, p), n);
    }
  }

  lemma {:induction false} CleanComesBack(path: seq<byte>, d: seq<FileEntry>, p: nat)
    requires CleanFrom(path, p)
    ensures ComesBack(path, d, p, true) <==> ComesBack(path, d, p, false)
    decreases |path| - p
  {
    hide Component, Padded, IsLast, CleanFrom, Next, Returns;
    CleanStart(path, p);
    CleanComponent(path, p);
    if !IsLast(path, p) {
      CleanComesBack(path, d, Next(path, p));
      CleanReturns(path, d, Next(path, p), Padded(Component(path, p)));
    }
  }

  /** For a path without empty components it does not matter whether the empty name is found. */
  lemma CleanArrivesIff(path: seq<byte>, d: seq<FileEntry>, hole: bool)
    requires CleanPath(path)
    ensures Arrives(path, d, 0, hole) <==> EndsAtFile(path, d, 0) || ComesBack(path, d, 0, true)
  {
    CleanMeetsNone(path, d, 0);
    CleanComesBack(path, d, 0);
    hide MeetsEmpty, EndsAtFile, ComesBack, CleanFrom;
  }

  /** A path that leads to a listed file ends there. */
  lemma {:induction false} ListedPathEnds(path: seq<byte>, d: seq<FileEntry>, p: nat)
    requires p <= |path| && Named(d, Resolve(path, d, p))
    ensures EndsAtFile(path, d, p)
    decreases |path| - p
  {
    hide Component, Padded, Resolve, IsLast, Next;
    ResolveStep(path, d, p);
    var t := Component(path, p);
    if DOT !in t && !IsLast(path, p) && Named(d, Padded(t)) {
      ListedPathEnds(path, d, Next(path, p));
    }
  }

  // ----- empty components -----

  /** Only unused entries bear the empty name. */
  ghost predicate NamesNonEmpty(d: seq<FileEntry>)
  {
    forall i :: 0 <= i < |d| && d[i].filename == NO_NAME ==> d[i].fileid == 0
  }

  /** Two entries are unused, so that one is left when a file is added. */
  predicate Spare(d: seq<FileEntry>)
  {
    exists i, j :: 0 <= i < j < |d| && d[i].fileid == 0 && d[j].fileid == 0
  }

  /** The empty name is found exactly while an entry is unused. */
  lemma EmptyNameIff(d: seq<FileEntry>)
    requires GoodDir(d) && NamesNonEmpty(d)
    ensures Named(d, NO_NAME) <==> FirstUnused(d) < |d|
  {
    FirstUnusedIsUnused(d);
  }

  /** After adding a file the empty name is found exactly if two entries were unused. */
  lemma EmptyNameAfterAdding(d: directory, n: name, id: byte)
    requires GoodDir(d) && n != NO_NAME && id != 0
    ensures Spare(d) ==> Named(d, NO_NAME) && Named(Added(d, n, id), NO_NAME)
    ensures NamesNonEmpty(d) ==> (Named(Added(d, n, id), NO_NAME) <==> Spare(d))
    ensures NamesNonEmpty(d) ==> NamesNonEmpty(Added(d, n, id))
  {
    FirstUnusedIsUnused(d);
    var d', f := Added(d, n, id), FirstUnused(d);
    if Spare(d) {
      var i, j :| 0 <= i < j < |d| && d[i].fileid == 0 && d[j].fileid == 0;
      assert d[j].filename == NO_NAME && f != j && d'[j].filename == NO_NAME;
    }
    if NamesNonEmpty(d) && Named(d', NO_NAME) {
      var j :| 0 <= j < |d'| && d'[j].filename == NO_NAME;
      assert f != j && d[j].fileid == 0 && f < j && d[f].fileid == 0;
    }
  }

  /** An empty component at the front is looked up like a name: it is skipped only while the empty name is found. */
  lemma LeadingSlash(path: seq<byte>, d: seq<FileEntry>)
    requires path != [] && path[0] == SLASH
    ensures Resolve(path, d, 0) == if Named(d, NO_NAME) then Resolve(path, d, 1) else NO_NAME
  {
    assert TakeName(path, 0, NAME_LENGTH) == [];
    assert Padded([]) == NO_NAME;
  }

  /** While the empty name is found, a leading slash is an empty component that is passed. */
  lemma SlashSkipped(path: seq<byte>, d: seq<FileEntry>)
    requires path != [] && path[0] == SLASH && Named(d, NO_NAME)
    ensures MeetsEmpty(path, d, 0) && (EndsAtFile(path, d, 0) <==> EndsAtFile(path, d, 1))
    ensures forall hole :: ComesBack(path, d, 0, hole) <==> ComesBack(path, d, 1, hole)
  {
    assert Component(path, 0) == [] && Next(path, 0) == 1;
    assert Padded([]) == NO_NAME;
  }
}
