/** The in-place encoder of DNS question names in kernel/dev/ethernet.c (getIPFromName). */
module Dns {
  import opened Common

  const DOT: byte := 46
  const MAX_LABEL: nat := 63

  // ----- names and labels -----

  /** The first position from `i` on that holds a dot, or the end. */
  function LabelEnd(name: seq<byte>, i: nat): (e: nat)
    requires i <= |name|
    ensures i <= e <= |name| && (e < |name| ==> name[e] == DOT)
    ensures forall k :: i <= k < e ==> name[k] != DOT
    decreases |name| - i
  {
    if i == |name| || name[i] == DOT then i else LabelEnd(name, i + 1)
  }

  /** The labels of a dotted name from position `i` on. */
  function Labels(name: seq<byte>, i: nat): (ls: seq<seq<byte>>)
    requires i <= |name|
    ensures ls != []
    decreases |name| - i
  {
    var e := LabelEnd(name, i);
    [name[i..e]] + if e == |name| then [] else Labels(name, e + 1)
  }

  function Joined(ls: seq<seq<byte>>): seq<byte>
  {
    if ls == [] then [] else if |ls| == 1 then ls[0] else ls[0] + [DOT] + Joined(ls[1..])
  }

  lemma LabelsSplit(name: seq<byte>, i: nat)
    requires i <= |name|
    ensures var e, ls := LabelEnd(name, i), Labels(name, i);
            ls[0] == name[i..e] && ls[1..] == if e == |name| then [] else Labels(name, e + 1)
  {
  }

  lemma LabelsUnfold(name: seq<byte>, i: nat)
    requires i <= |name|
    ensures var e := LabelEnd(name, i);
            if e < |name| then Labels(name, i) == [name[i..e]] + Labels(name, e + 1) else Labels(name, i) == [name[i..e]] + [] && name[i..e] == name[i..]
  {
  }

  lemma SplitAtDot(name: seq<byte>, i: nat, e: nat)
    requires i <= e < |name| && name[e] == DOT
    ensures name[i..] == name[i..e] + [DOT] + name[e + 1..]
  {
  }

  lemma JoinedCons(head: seq<byte>, tail: seq<seq<byte>>)
    ensures Joined([head] + tail) == if tail == [] then head else head + [DOT] + Joined(tail)
  {
  }

  /** No label holds a dot (46), so that a name is split at every one of its dots. */
  lemma {:induction false} LabelsHoldNoDot(name: seq<byte>, i: nat)
    requires i <= |name|
    ensures forall k :: 0 <= k < |Labels(name, i)| ==> 46 !in Labels(name, i)[k]
    decreases |name| - i
  {
    var e := LabelEnd(name, i);
    NoDotBefore(name, i);
    if e < |name| {
      LabelsHoldNoDot(name, e + 1);
    }
  }

  lemma NoDotBefore(name: seq<byte>, i: nat)
    requires i <= |name|
    ensures 46 !in name[i..LabelEnd(name, i)]
  {
  }

  lemma JoinedByDots(ls: seq<seq<byte>>)
    requires |ls| >= 2
    ensures Joined(ls) == ls[0] + [46] + Joined(ls[1..])
  {
  }

  /** The labels, joined by dots, are the name. */
  lemma {:induction false} LabelsJoin(name: seq<byte>, i: nat)
    requires i <= |name|
    ensures Joined(Labels(name, i)) == name[i..]
    decreases |name| - i
  {
    hide *;
    LabelsUnfold(name, i);
    var e := LabelEnd(name, i);
    if e < |name| {
      LabelsJoin(name, e + 1);
      JoinedCons(name[i..e], Labels(name, e + 1));
      SplitAtDot(name, i, e);
    } else {
      JoinedCons(name[i..e], []);
    }
  }

  // ----- the wire form -----

  /** Length-prefixed labels and a closing zero; a length is stored in one byte. */
  function Wire(ls: seq<seq<byte>>): seq<byte>
  {
    if ls == [] then [0] else [(|ls[0]| % 256) as byte] + ls[0] + Wire(ls[1..])
  }

  /** A reader of RFC 1035 section 4.1.2: the labels from `p` on and the position after the closing zero. Lengths above 63 are not labels. */
  function Decoded(b: seq<byte>, p: nat): Option<(seq<seq<byte>>, nat)>
    decreases |b| - p
  {
    if p >= |b| then None
    else
      var n := b[p] as nat;
      if n == 0 then Some(([], p + 1))
      else if n > MAX_LABEL || p + 1 + n > |b| then None
      else
        match Decoded(b, p + 1 + n)
        case None => None
        case Some((ls, q)) => Some(([b[p + 1..p + 1 + n]] + ls, q))
  }

  predicate ProperLabels(ls: seq<seq<byte>>)
  {
    forall i :: 0 <= i < |ls| ==> 1 <= |ls[i]| <= MAX_LABEL
  }

  lemma ProperMeans(ls: seq<seq<byte>>)
    ensures ProperLabels(ls) <==> forall i :: 0 <= i < |ls| ==> 1 <= |ls[i]| <= 63
  {
  }

  /** Whatever the reader returns are proper labels. */
  lemma {:induction false} DecodedIsProper(b: seq<byte>, p: nat)
    ensures Decoded(b, p).Some? ==> ProperLabels(Decoded(b, p).value.0)
    decreases |b| - p
  {
    if p < |b| && 0 < b[p] as nat <= MAX_LABEL && p + 1 + b[p] as nat <= |b| {
      DecodedIsProper(b, p + 1 + b[p] as nat);
    }
  }

  lemma {:induction false} ReadsWire(front: seq<byte>, ls: seq<seq<byte>>, rest: seq<byte>)
    requires ProperLabels(ls)
    ensures Decoded(front + Wire(ls) + rest, |front|) == Some((ls, |front| + |Wire(ls)|))
    decreases |ls|
  {
    hide *;
    if ls == [] {
      ReadRoot(front, rest);
    } else {
      WireUnfold(ls);
      ProperSplit(ls);
      var head, w := [|ls[0]| as byte] + ls[0], Wire(ls[1..]);
      assert [(|ls[0]| % 256) as byte] == [|ls[0]| as byte];
      ReadsWire(front + head, ls[1..], rest);
      Regroup(front, head, w, rest);
      assert front + head + (w + rest) == front + [|ls[0]| as byte] + ls[0] + (w + rest);
      ReadLabel(front, ls[0], w + rest);
      assert ls == [ls[0]] + ls[1..];
    }
  }

  lemma Regroup(front: seq<byte>, head: seq<byte>, w: seq<byte>, rest: seq<byte>)
    ensures front + (head + w) + rest == front + head + w + rest == front + head + (w + rest)
  {
  }

  lemma ProperSplit(ls: seq<seq<byte>>)
    requires ProperLabels(ls) && ls != []
    ensures 1 <= |ls[0]| <= MAX_LABEL && |ls[0]| < 256 && ProperLabels(ls[1..])
  {
  }

  lemma ReadRoot(front: seq<byte>, rest: seq<byte>)
    ensures Decoded(front + Wire([]) + rest, |front|) == Some(([], |front| + |Wire([])|))
  {
    assert (front + Wire([]) + rest)[|front|] == 0;
  }

  /** Reading goes on behind a label whose length byte it has met. */
  lemma ReadLabel(front: seq<byte>, text: seq<byte>, behind: seq<byte>)
    requires 1 <= |text| <= MAX_LABEL
    ensures var b := front + [|text| as byte] + text + behind;
            Decoded(b, |front|) == match Decoded(b, |front| + 1 + |text|)
                                   case None => None
                                   case Some((ls, q)) => Some(([text] + ls, q))
  {
    var b := front + [|text| as byte] + text + behind;
    assert b[|front|] == |text| as byte && b[|front| + 1..|front| + 1 + |text|] == text;
  }

  /** The wire form reads back as the name's labels exactly when every label is non-empty and at most 63 bytes long. */
  lemma WireRoundTripIff(name: seq<byte>, rest: seq<byte>)
    ensures var ls := Labels(name, 0);
            && (Decoded(Wire(ls) + rest, 0) == Some((ls, |Wire(ls)|)) <==> forall i :: 0 <= i < |ls| ==> 1 <= |ls[i]| <= 63)
            && Joined(ls) == name
  {
    hide *;
    ProperMeans(Labels(name, 0));
    var ls := Labels(name, 0);
    LabelsJoin(name, 0);
    assert name[0..] == name;
    DecodedIsProper(Wire(ls) + rest, 0);
    if ProperLabels(ls) {
      ReadsWire([], ls, rest);
      assert [] + Wire(ls) + rest == Wire(ls) + rest;
    }
  }

  lemma WireUnfold(ls: seq<seq<byte>>)
    requires ls != []
    ensures Wire(ls) == [(|ls[0]| % 256) as byte] + ls[0] + Wire(ls[1..])
    ensures ls[1..] == [] ==> Wire(ls[1..]) == [0]
  {
  }

  lemma {:induction false} WireLength(name: seq<byte>, i: nat)
    requires i <= |name|
    ensures |Wire(Labels(name, i))| == |name| - i + 2
    decreases |name| - i
  {
    hide Labels, LabelEnd, Wire;
    var e := LabelEnd(name, i);
    LabelsSplit(name, i);
    WireUnfold(Labels(name, i));
    if e < |name| {
      WireLength(name, e + 1);
    }
  }

  /** What is still to be encoded when the next length byte goes to position `i`. */
  ghost function WireFrom(name: seq<byte>, i: nat): seq<byte>
    requires i <= |name| + 2
  {
    if i <= |name| then Wire(Labels(name, i)) else if i == |name| + 1 then [0] else []
  }

  /** The next length byte, the label after it, and what follows. */
  lemma WireFromStep(name: seq<byte>, i: nat)
    requires i <= |name|
    ensures var e, v := LabelEnd(name, i), WireFrom(name, i);
            && |v| == |name| - i + 2 && v[0] == ((e - i) % 256) as byte
            && v[1..e - i + 1] == name[i..e] && v[e - i + 1..] == WireFrom(name, e + 1)
  {
    hide Labels, LabelEnd, Wire;
    LabelsSplit(name, i);
    WireUnfold(Labels(name, i));
    WireLength(name, i);
  }

  lemma WireFromEnds(name: seq<byte>)
    ensures WireFrom(name, 0) == Wire(Labels(name, 0))
    ensures WireFrom(name, |name| + 1) == [0] && WireFrom(name, |name| + 2) == []
  {
  }

  /**
    The length of the label that starts after position `i`: scans to the next dot or zero. `seen` are the positions
    it reads and `written` those the encoder has overwritten so far.
   */
  method ScanLabel(t4: array<byte>, base: nat, name: seq<byte>, i: nat, ghost written: set<nat>) returns (z: nat, ghost seen: set<nat>)
    requires i <= |name| + 1 && base + |name| + 2 <= t4.Length
    requires forall k :: 0 <= k < |name| ==> name[k] != 0
    requires forall k :: base + i < k <= base + |name| ==> t4[k] == name[k - base - 1]
    requires t4[base + |name| + 1] == 0
    requires forall w :: w in written ==> w < i
    ensures z == if i <= |name| then LabelEnd(name, i) - i else 0
    ensures seen !! written && forall r :: r in seen <==> i < r <= i + z + 1 && r < |name| + 2
  {
    z := 0;
    seen := {};
    var t := i + 1;
    while t < |name| + 2
      invariant i + 1 <= t <= |name| + 2 && t == i + 1 + z
      invariant forall r :: r in seen <==> i < r < t
      invariant i <= |name| ==> i + z <= |name| && LabelEnd(name, i) == LabelEnd(name, i + z)
    {
      var deze := t4[base + t];
      seen := seen + {t};
      assert deze == if t <= |name| then name[t - 1] else 0;
      if deze == 0 || deze == DOT {
        break;
      }
      z := z + 1;
      t := t + 1;
    }
  }

  /**
    Writes `name` as a DNS question into a zeroed buffer: the text is copied one byte further, each dot is then
    replaced by the length of the label after it, and type and class follow.
   */
  method EncodeQuestion(t4: array<byte>, base: nat, name: seq<byte>)
    requires base + |name| + 6 <= t4.Length
    requires forall k :: 0 <= k < |name| ==> name[k] != 0
    requires forall k :: base <= k < base + |name| + 6 ==> t4[k] == 0
    modifies t4
    ensures t4[base..base + |name| + 2] == Wire(Labels(name, 0))
    ensures t4[base + |name| + 2..base + |name| + 6] == [0, 1, 0, 1]
    ensures forall k :: 0 <= k < t4.Length && !(base <= k < base + |name| + 6) ==> t4[k] == old(t4[k])
  {
    hide Labels, LabelEnd, Wire, WireFrom;
    var str := |name|;
    CopyName(t4, base, name);
    WireFromEnds(name);
    WireLength(name, 0);
    ghost var wire := Wire(Labels(name, 0));
    ghost var written: set<nat> := {};
    var i := 0;
    while i < str + 2
      invariant 0 <= i <= str + 2
      invariant wire[i..] == WireFrom(name, i)
      invariant forall k :: base <= k < base + i ==> t4[k] == wire[k - base]
      invariant forall k :: base + i < k <= base + str ==> t4[k] == name[k - base - 1]
      invariant i <= str + 1 ==> t4[base + str + 1] == 0
      invariant forall w :: w in written ==> w < i
      invariant forall k :: base + str + 2 <= k < base + str + 6 ==> t4[k] == 0
      invariant forall k :: 0 <= k < t4.Length && !(base <= k < base + str + 6) ==> t4[k] == old(t4[k])
    {
      var z;
      ghost var seen;
      z, seen := ScanLabel(t4, base, name, i, written);
      t4[base + i] := (z % 256) as byte;
      written := written + {i};
      NextLabel(name, i, z, wire);
      i := i + z + 1;
    }
    t4[base + str + 3] := 1;
    t4[base + str + 5] := 1;
    assert t4[base..base + str + 2] == wire;
  }

  /** One step of the encoder, seen on the finished wire form. */
  lemma NextLabel(name: seq<byte>, i: nat, z: nat, wire: seq<byte>)
    requires i <= |name| + 1 && |wire| == |name| + 2 && wire[i..] == WireFrom(name, i)
    requires z == if i <= |name| then LabelEnd(name, i) - i else 0
    ensures i + z <= |name| + 1 && (i <= |name| ==> i + z <= |name|)
    ensures wire[i] == (z % 256) as byte && wire[i + z + 1..] == WireFrom(name, i + z + 1)
    ensures forall k :: i < k <= i + z ==> wire[k] == name[k - 1]
  {
    ghost var v := WireFrom(name, i);
    if i <= |name| {
      WireFromStep(name, i);
      hide Labels, LabelEnd, Wire, WireFrom;
      assert wire[i + z + 1..] == v[z + 1..];
      forall k | i < k <= i + z
        ensures wire[k] == name[k - 1]
      {
        assert wire[k] == v[k - i] == v[1..z + 1][k - i - 1];
      }
    } else {
      WireFromEnds(name);
      hide WireFrom;
      assert wire[i] == v[0];
    }
  }

  method CopyName(t4: array<byte>, base: nat, name: seq<byte>)
    requires base + |name| + 6 <= t4.Length
    modifies t4
    ensures t4[base] == 0
    ensures forall k :: base < k <= base + |name| ==> t4[k] == name[k - base - 1]
    ensures forall k :: 0 <= k < t4.Length && !(base <= k <= base + |name|) ==> t4[k] == old(t4[k])
  {
    t4[base] := 0;
    for i := 0 to |name|
      invariant t4[base] == 0
      invariant forall k :: base < k <= base + i ==> t4[k] == name[k - base - 1]
      invariant forall k :: 0 <= k < t4.Length && !(base <= k <= base + |name|) ==> t4[k] == old(t4[k])
    {
      t4[base + i + 1] := name[i];
    }
  }
}
