/** The other half of kernel/exec/elf.c: executable images, whose code sections are copied to fixed addresses. */
module ElfExecutable {
  import opened Common
  import opened ElfModel

  /** A section that is copied: code or data with an address of its own. */
  predicate Loads(b: seq<byte>, i: nat)
    requires HasSections(b)
  {
    i < SectionCount(b) && SectionAt(b, i).addr != 0 && SectionAt(b, i).kind == PROGBITS
  }

  /** The address belongs to the target range of section `i`. */
  predicate Receives(b: seq<byte>, i: nat, at: nat)
    requires HasSections(b)
  {
    Loads(b, i) && SectionAt(b, i).addr <= at < SectionAt(b, i).addr + SectionAt(b, i).size
  }

  /** The byte of the file that belongs at address `at` of section `i`. */
  function SourceByte(b: seq<byte>, i: nat, at: nat): byte
    requires HasSections(b) && Receives(b, i, at)
  {
    var k := SectionAt(b, i).offset + (at - SectionAt(b, i).addr);
    if k < |b| then b[k] else 0
  }

  /** Target ranges lie in memory and overlap neither each other nor the file image at [image, image + |b|). */
  ghost predicate Loadable(b: seq<byte>, image: nat, memory: nat)
  {
    && HasSections(b) && image + |b| <= memory
    && (forall i: nat :: Loads(b, i) ==> SectionAt(b, i).offset + SectionAt(b, i).size <= |b| && SectionAt(b, i).addr + SectionAt(b, i).size <= memory)
    && (forall i: nat, at: nat :: Receives(b, i, at) ==> !(image <= at < image + |b|))
    && (forall i: nat, j: nat, at: nat :: Receives(b, i, at) && Receives(b, j, at) ==> i == j)
  }

  /** Memory after the first `n` sections: their bytes are in place and nothing else has changed. */
  ghost predicate Loaded(b: seq<byte>, before: seq<byte>, after: seq<byte>, n: nat)
    requires HasSections(b)
  {
    && |after| == |before|
    && (forall i: nat, at: nat :: i < n && Receives(b, i, at) && at < |after| ==> after[at] == SourceByte(b, i, at))
    && (forall at: nat :: at < |before| && (forall i: nat :: i < n ==> !Receives(b, i, at)) ==> after[at] == before[at])
  }

  function Copied(memory: seq<byte>, from: nat, to: nat, n: nat): seq<byte>
    requires from + n <= |memory| && to + n <= |memory|
  {
    memory[..to] + memory[from..from + n] + memory[to + n..]
  }

  lemma CopiedBytes(memory: seq<byte>, from: nat, to: nat, n: nat)
    requires from + n <= |memory| && to + n <= |memory|
    ensures var now := Copied(memory, from, to, n);
            && |now| == |memory|
            && (forall at: nat :: to <= at < to + n ==> now[at] == memory[at - to + from])
            && (forall at: nat :: at < |memory| && !(to <= at < to + n) ==> now[at] == memory[at])
  {
  }

  /** The byte loop: copies between ranges that do not overlap. */
  method CopyBytes(ram: array<byte>, from: nat, to: nat, n: nat)
    requires from + n <= ram.Length && to + n <= ram.Length && (from + n <= to || to + n <= from || n == 0)
    modifies ram
    ensures ram[..] == Copied(old(ram[..]), from, to, n)
  {
    var e := 0;
    while e < n
      invariant 0 <= e <= n
      invariant forall at: nat :: to <= at < to + e ==> ram[at] == old(ram[at - to + from])
      invariant forall at: nat :: at < ram.Length && !(to <= at < to + e) ==> ram[at] == old(ram[at])
    {
      ram[to + e] := ram[from + e];
      e := e + 1;
    }
  }

  /** A section's target and the file image are disjoint ranges. */
  lemma TargetApart(b: seq<byte>, image: nat, memory: nat, i: nat)
    requires Loadable(b, image, memory) && Loads(b, i)
    ensures var s := SectionAt(b, i);
            && s.offset + s.size <= |b| && s.addr + s.size <= memory && image + |b| <= memory
            && (image + |b| <= s.addr || s.addr + s.size <= image || s.size == 0 || |b| == 0)
  {
    var s := SectionAt(b, i);
    if s.size > 0 && |b| > 0 {
      var at := if s.addr >= image then s.addr else image;
      if at < s.addr + s.size && at < image + |b| {
        assert Receives(b, i, at);
      }
    }
  }

  lemma LoadableSections(b: seq<byte>, image: nat, memory: nat)
    requires Loadable(b, image, memory)
    ensures HasSections(b)
  {
  }

  /** Copies section `i`. */
  method CopySection(ram: array<byte>, image: nat, length: nat, ghost before: seq<byte>, i: nat, section: Section)
    requires image + length <= ram.Length && Loadable(ram[image..image + length], image, ram.Length)
    requires Loads(ram[image..image + length], i) && section == SectionAt(ram[image..image + length], i)
    requires Loaded(ram[image..image + length], before, ram[..], i)
    modifies ram
    ensures ram[image..image + length] == old(ram[image..image + length])
    ensures Loaded(old(ram[image..image + length]), before, ram[..], i + 1)
  {
    hide Loaded, Loadable, SectionAt, Copied, HasSections, Loads, Load32, Load16;
    ghost var b, start := ram[image..image + length], ram[..];
    TargetApart(b, image, ram.Length, i);
    CopyBytes(ram, image + section.offset, section.addr, section.size);
    SectionCopied(b, image, before, start, i);
  }

  /** Copying section `i` leaves the file image alone and completes the section. */
  lemma SectionCopied(b: seq<byte>, image: nat, before: seq<byte>, start: seq<byte>, i: nat)
    requires Loadable(b, image, |start|) && Loads(b, i) && start[image..image + |b|] == b && Loaded(b, before, start, i)
    ensures var s := SectionAt(b, i);
            && image + s.offset + s.size <= |start| && s.addr + s.size <= |start|
            && var now := Copied(start, image + s.offset, s.addr, s.size);
               |now| == |start| && now[image..image + |b|] == b && Loaded(b, before, now, i + 1)
  {
    hide Loaded, Loadable, SectionAt, SourceByte, HasSections, Load32, Load16, Copied;
    TargetApart(b, image, |start|, i);
    LoadableSections(b, image, |start|);
    var s := SectionAt(b, i);
    var now := Copied(start, image + s.offset, s.addr, s.size);
    CopiedBytes(start, image + s.offset, s.addr, s.size);
    SliceKept(start, now, image, image + |b|);
    AllBytesArrive(b, image, start, now, i);
    SectionDone(b, before, start, now, image, i);
  }

  /** The copied bytes are the file's. */
  lemma BytesArrive(b: seq<byte>, image: nat, start: seq<byte>, now: seq<byte>, i: nat, at: nat)
    requires HasSections(b) && Receives(b, i, at) && image + |b| <= |start| && start[image..image + |b|] == b
    requires SectionAt(b, i).offset + SectionAt(b, i).size <= |b| && at < |now|
    requires now[at] == start[at - SectionAt(b, i).addr + (image + SectionAt(b, i).offset)]
    ensures now[at] == SourceByte(b, i, at)
  {
  }

  lemma AllBytesArrive(b: seq<byte>, image: nat, start: seq<byte>, now: seq<byte>, i: nat)
    requires HasSections(b) && Loads(b, i) && image + |b| <= |start| && start[image..image + |b|] == b
    requires SectionAt(b, i).offset + SectionAt(b, i).size <= |b| && |now| == |start|
    requires var s := SectionAt(b, i);
             forall at: nat :: s.addr <= at < s.addr + s.size && at < |now| ==> now[at] == start[at - s.addr + (image + s.offset)]
    ensures forall at: nat :: Receives(b, i, at) && at < |now| ==> now[at] == SourceByte(b, i, at)
  {
    hide SourceByte;
    forall at: nat | Receives(b, i, at) && at < |now|
      ensures now[at] == SourceByte(b, i, at)
    {
      BytesArrive(b, image, start, now, i, at);
    }
  }

  lemma SliceKept(start: seq<byte>, now: seq<byte>, lo: nat, hi: nat)
    requires lo <= hi <= |start| == |now| && forall at: nat :: lo <= at < hi ==> now[at] == start[at]
    ensures now[lo..hi] == start[lo..hi]
  {
  }

  lemma SectionDone(b: seq<byte>, before: seq<byte>, start: seq<byte>, now: seq<byte>, image: nat, i: nat)
    requires Loadable(b, image, |start|) && Loads(b, i) && |now| == |start| && Loaded(b, before, start, i)
    requires forall at: nat :: at < |now| && !Receives(b, i, at) ==> now[at] == start[at]
    requires forall at: nat :: Receives(b, i, at) && at < |now| ==> now[at] == SourceByte(b, i, at)
    ensures Loaded(b, before, now, i + 1)
  {
  }

  /** A section to load, said with the offsets of the file format: type 1 at byte 4 of its record, a non-zero address at byte 12. */
  predicate PlainSection(b: seq<byte>, i: nat)
  {
    i < Half(b, 48) && Word(b, Word(b, 32) + 40 * i + 4) == 1 && Word(b, Word(b, 32) + 40 * i + 12) != 0
  }

  /** Its bytes stand at its address: as many as byte 20 of the record says, from the offset at byte 16 on. */
  ghost predicate PlainlyLoaded(b: seq<byte>, memory: seq<byte>, i: nat)
  {
    var record := Word(b, 32) + 40 * i;
    var address, offset, size := Word(b, record + 12), Word(b, record + 16), Word(b, record + 20);
    address + size <= |memory| && offset + size <= |b| && memory[address..address + size] == b[offset..offset + size]
  }

  ghost predicate AllPlainlyLoaded(b: seq<byte>, memory: seq<byte>)
  {
    forall i :: PlainSection(b, i) ==> PlainlyLoaded(b, memory, i)
  }

  lemma LoadedIsPlain(b: seq<byte>, image: nat, before: seq<byte>, after: seq<byte>, i: nat)
    requires Loadable(b, image, |after|) && Loaded(b, before, after, SectionCount(b)) && PlainSection(b, i)
    ensures PlainlyLoaded(b, after, i)
  {
    hide Load32, Load16, Word, Half;
    LoadsArePlain(b);
    var s := SectionAt(b, i);
    assert Loads(b, i);
    assert s.offset + s.size <= |b| && s.addr + s.size <= |after|;
    var target, source := after[s.addr..s.addr + s.size], b[s.offset..s.offset + s.size];
    forall k | 0 <= k < s.size
      ensures target[k] == source[k]
    {
      assert Receives(b, i, s.addr + k);
      assert after[s.addr + k] == SourceByte(b, i, s.addr + k);
    }
  }

  /** loadelf for an executable image: every code section ends up at its address; the header's entry point is returned. */
  method LoadExecutable(ram: array<byte>, image: nat, length: nat) returns (entry: word32)
    requires image + length <= ram.Length && Loadable(ram[image..image + length], image, ram.Length)
    modifies ram
    ensures Loaded(old(ram[image..image + length]), old(ram[..]), ram[..], SectionCount(old(ram[image..image + length])))
    ensures entry == Load32(old(ram[image..image + length]), 24) && entry as int == Word(old(ram[image..image + length]), 24)
    ensures AllPlainlyLoaded(old(ram[image..image + length]), ram[..])
  {
    hide Loadable, Loaded, SectionAt, SectionTable, SectionCount, Load32, PlainSection, PlainlyLoaded, Word;
    ghost var before, b := ram[..], ram[image..image + length];
    SectionsReadable(b, image, ram[..]);
    var count := SectionCount(ram[image..image + length]);
    for i := 0 to count
      invariant ram[image..image + length] == b && Loaded(b, before, ram[..], i)
    {
      var section := SectionAt(ram[image..image + length], i);
      if section.addr != 0 {
        if section.kind == PROGBITS {
          CopySection(ram, image, length, before, i, section);
        } else {
          SkippedSection(b, before, ram[..], i);
        }
      } else {
        SkippedSection(b, before, ram[..], i);
      }
    }
    entry := Load32(ram[image..image + length], 24);
    LoadsArePlain(b);
    forall i | PlainSection(b, i)
      ensures PlainlyLoaded(b, ram[..], i)
    {
      LoadedIsPlain(b, image, before, ram[..], i);
    }
  }

  lemma SectionsReadable(b: seq<byte>, image: nat, ram: seq<byte>)
    requires Loadable(b, image, |ram|)
    ensures HasSections(b) && image + |b| <= |ram| && Loaded(b, ram, ram, 0)
  {
  }

  lemma SkippedSection(b: seq<byte>, before: seq<byte>, after: seq<byte>, i: nat)
    requires HasSections(b) && Loaded(b, before, after, i) && !Loads(b, i)
    ensures Loaded(b, before, after, i + 1)
  {
  }
}
