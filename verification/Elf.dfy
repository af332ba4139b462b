/** The ELF loader of kernel/exec/elf.c. */
module Elf {
  import opened Common
  import opened ElfModel

  // ----- patching never disturbs what the loader still has to read -----

  ghost predicate SameMeta(b0: seq<byte>, b: seq<byte>)
    requires HasSections(b0)
  {
    |b| == |b0| && forall off: nat :: off < |b0| && Meta(b0, off) ==> b[off] == b0[off]
  }

  lemma ProgressKeepsMeta(b0: seq<byte>, b: seq<byte>, env: Bindings, i: nat, j: nat)
    requires Relocatable(b0) && Progress(b0, b, env, i, j)
    ensures SameMeta(b0, b)
  {
  }

  lemma HeaderSame(b0: seq<byte>, b: seq<byte>)
    requires HasSections(b0) && SameMeta(b0, b)
    ensures HasSections(b) && SectionTable(b) == SectionTable(b0) && SectionCount(b) == SectionCount(b0)
  {
  }

  lemma SectionSame(b0: seq<byte>, b: seq<byte>, i: nat)
    requires HasSections(b0) && SameMeta(b0, b) && i < SectionCount(b0)
    ensures HasSections(b) && SectionCount(b) == SectionCount(b0) && SectionAt(b, i) == SectionAt(b0, i)
  {
    hide Load32, Load16;
    HeaderSame(b0, b);
    var p := SectionTable(b0) + SECTION_SIZE * i;
    assert p + SECTION_SIZE <= SectionTable(b0) + SECTION_SIZE * SectionCount(b0);
    forall off: nat | p <= off < p + SECTION_SIZE
      ensures b[off] == b0[off]
    {
      assert Meta(b0, off);
    }
    SameWords(b0, b, p, p + SECTION_SIZE);
  }

  /** Words inside a table read the same. */
  lemma TableSame(b0: seq<byte>, b: seq<byte>, i: nat, from: nat, to: nat)
    requires HasSections(b0) && TablesFit(b0) && SameMeta(b0, b) && i < SectionCount(b0) && IsTable(SectionAt(b0, i))
    requires SectionAt(b0, i).offset <= from <= to <= SectionAt(b0, i).offset + SectionAt(b0, i).size
    ensures to <= |b0| == |b| && b[from..to] == b0[from..to]
  {
  }

  lemma SameWords(b0: seq<byte>, b: seq<byte>, from: nat, to: nat)
    requires from <= to <= |b0| == |b| && b[from..to] == b0[from..to]
    ensures forall off: nat :: from <= off < to ==> b[off] == b0[off]
    ensures forall off: nat :: from <= off && off + 4 <= to ==> Load32(b, off) == Load32(b0, off)
    ensures forall off: nat :: from <= off && off + 2 <= to ==> Load16(b, off) == Load16(b0, off)
  {
  }

  /** A relocation entry reads the same at any time during loading. */
  lemma EntrySame(b0: seq<byte>, b: seq<byte>, i: nat, j: nat)
    requires Relocatable(b0) && SameMeta(b0, b) && IsEntry(b0, i, j)
    ensures HasSections(b) && i < SectionCount(b) && SectionAt(b, i) == SectionAt(b0, i) && EntryFits(b, i, j)
    ensures TargetOf(b, i, j) == TargetOf(b0, i, j) && KindOf(b, i, j) == KindOf(b0, i, j) && SymbolIndex(b, i, j) == SymbolIndex(b0, i, j)
  {
    SectionSame(b0, b, i);
    SectionSame(b0, b, SectionAt(b0, i).info);
    hide Meta, SameMeta, SectionTable, SectionCount;
    EntryInside(SectionAt(b0, i), j);
    var from := EntryOffset(b0, i, j);
    TableSame(b0, b, i, from, from + RELOCATION_SIZE);
    SameWords(b0, b, from, from + RELOCATION_SIZE);
  }

  lemma SymbolRecordSame(b0: seq<byte>, b: seq<byte>, table: nat, info: nat)
    requires HasSections(b0) && TablesFit(b0) && SameMeta(b0, b) && HasSymbol(b0, table, info)
    ensures HasSections(b) && HasSymbol(b, table, info) && SymbolOf(b, table, info) == SymbolOf(b0, table, info)
  {
    SectionSame(b0, b, table);
    var from := SectionAt(b0, table).offset + SYMBOL_SIZE * info;
    TableSame(b0, b, table, from, from + SYMBOL_SIZE);
    SameWords(b0, b, from, from + SYMBOL_SIZE);
  }

  lemma SameComparison(b0: seq<byte>, b: seq<byte>, name: nat, limit: nat)
    requires Comparable(b0, name, limit) && |b| == |b0| && b[name..limit] == b0[name..limit]
    ensures Comparable(b, name, limit) && IsPrintf(b, name) == IsPrintf(b0, name)
  {
    assert forall i :: name <= i < limit ==> b[i] == b[name..limit][i - name] && b0[i] == b0[name..limit][i - name];
    ComparisonEnds(b0, name, limit);
    if name + |PRINTF| <= limit {
      assert b[name..name + |PRINTF|] == b0[name..name + |PRINTF|];
    } else {
      ComparisonEnds(b, name, limit);
    }
  }

  /** A comparison that ends at a difference is of another name. */
  lemma ComparisonEnds(b: seq<byte>, name: nat, limit: nat)
    requires Comparable(b, name, limit)
    ensures Comparable(b, name, |b|)
    ensures name + |PRINTF| > limit ==> !IsPrintf(b, name)
  {
    if name + |PRINTF| > limit {
      var k :| 0 <= k < |PRINTF| && name + k < limit && b[name + k] != PRINTF[k];
      if name + |PRINTF| <= |b| {
        assert b[name..name + |PRINTF|][k] != PRINTF[k];
      }
    }
  }

  lemma ComparableInside(b: seq<byte>, name: nat, limit: nat)
    requires Comparable(b, name, limit)
    ensures name <= limit <= |b|
  {
  }

  lemma NameSame(b0: seq<byte>, b: seq<byte>, table: nat, sym: Symbol)
    requires HasSections(b0) && TablesFit(b0) && SameMeta(b0, b) && HasName(b0, table, sym)
    ensures HasSections(b) && HasName(b, table, sym)
    ensures NameOffset(b, table, sym) == NameOffset(b0, table, sym)
    ensures IsPrintf(b, NameOffset(b, table, sym)) == IsPrintf(b0, NameOffset(b0, table, sym))
  {
    hide Meta, SectionAt, SectionTable, SectionCount, HasSections, TablesFit, SameMeta, IsPrintf;
    SectionSame(b0, b, table);
    var link := SectionAt(b0, table).link;
    SectionSame(b0, b, link);
    ComparableInside(b0, SectionAt(b0, link).offset + sym.name, SectionAt(b0, link).offset + SectionAt(b0, link).size);
    hide Comparable;
    var name, strtab := NameOffset(b0, table, sym), SectionAt(b0, link);
    TableSame(b0, b, link, name, strtab.offset + strtab.size);
    SameComparison(b0, b, name, strtab.offset + strtab.size);
  }

  /** So does the symbol it refers to. */
  lemma SymbolSame(b0: seq<byte>, b: seq<byte>, env: Bindings, table: nat, info: nat)
    requires HasSections(b0) && TablesFit(b0) && SameMeta(b0, b) && SymbolFits(b0, table, info)
    ensures HasSections(b) && SymbolFits(b, table, info)
    ensures SymbolValue(b, env, table, info) == SymbolValue(b0, env, table, info)
  {
    hide Meta, SectionAt, SectionTable, SectionCount, HasSections, TablesFit, SameMeta, SymbolOf, HasSymbol, HasName, NameOffset, IsPrintf, ExternalValue;
    HeaderSame(b0, b);
    if table != 0 && info != 0 {
      SymbolRecordSame(b0, b, table, info);
      var sym := SymbolOf(b0, table, info);
      if sym.shndx == 0 {
        NameSame(b0, b, table, sym);
      } else if sym.shndx != ABSOLUTE {
        SectionSame(b0, b, sym.shndx);
      }
    }
  }

  // ----- one entry -----

  lemma SameBytesSameWord(b: seq<byte>, b': seq<byte>, t: nat)
    requires t + 4 <= |b| == |b'| && forall off: nat :: t <= off < t + 4 ==> b'[off] == b[off]
    ensures Load32(b', t) == Load32(b, t)
  {
  }

  /** Two entries that patch do not share a byte. */
  lemma TargetsApart(b0: seq<byte>, i: nat, j: nat, k: nat, l: nat, off: nat)
    requires Relocatable(b0) && Patches(b0, i, j) && Patches(b0, k, l) && (i != k || j != l)
    requires TargetOf(b0, k, l) <= off < TargetOf(b0, k, l) + 4
    ensures !(TargetOf(b0, i, j) <= off < TargetOf(b0, i, j) + 4)
  {
    if TargetOf(b0, i, j) <= off < TargetOf(b0, i, j) + 4 {
      assert Covers(b0, i, j, off) && Covers(b0, k, l, off);
    }
  }

  /** Applying entry (i, j), and no other change, advances the progress by one. */
  lemma ProgressStep(b0: seq<byte>, b: seq<byte>, b': seq<byte>, env: Bindings, i: nat, j: nat)
    requires Relocatable(b0) && Progress(b0, b, env, i, j) && IsEntry(b0, i, j) && |b'| == |b|
    requires if Patches(b0, i, j) then
               && Load32(b', TargetOf(b0, i, j)) == WantedWord(b0, env, i, j)
               && forall off: nat :: off < |b| && !(TargetOf(b0, i, j) <= off < TargetOf(b0, i, j) + 4) ==> b'[off] == b[off]
             else b' == b
    ensures Progress(b0, b', env, i, j + 1)
  {
    hide WantedWord, Load32;
    forall k, l | Patches(b0, k, l)
      ensures Load32(b', TargetOf(b0, k, l)) == if Before(k, l, i, j + 1) then WantedWord(b0, env, k, l) else Load32(b0, TargetOf(b0, k, l))
    {
      if k != i || l != j {
        if Patches(b0, i, j) {
          forall off: nat | TargetOf(b0, k, l) <= off < TargetOf(b0, k, l) + 4
            ensures b'[off] == b[off]
          {
            TargetsApart(b0, i, j, k, l, off);
          }
          SameBytesSameWord(b, b', TargetOf(b0, k, l));
        }
        assert Before(k, l, i, j + 1) == Before(k, l, i, j);
      }
    }
    forall off: nat | off < |b0| && forall k, l :: !Covers(b0, k, l, off)
      ensures b'[off] == b0[off]
    {
      assert !Covers(b0, i, j, off);
    }
  }

  lemma NextSection(b0: seq<byte>, b: seq<byte>, env: Bindings, i: nat, n: nat)
    requires Relocatable(b0) && Progress(b0, b, env, i, n)
    requires forall j: nat :: IsEntry(b0, i, j) ==> j < n
    ensures Progress(b0, b, env, i + 1, 0)
  {
  }

  method Store32(image: array<byte>, off: nat, v: word32)
    requires off + 4 <= image.Length
    modifies image
    ensures Load32(image[..], off) == v
    ensures forall k :: 0 <= k < image.Length && !(off <= k < off + 4) ==> image[k] == old(image[k])
  {
    image[off], image[off + 1] := (v % 256) as byte, (v / 0x100 % 256) as byte;
    image[off + 2], image[off + 3] := (v / 0x1_0000 % 256) as byte, (v / 0x100_0000) as byte;
    Bytes32(v);
  }

  lemma SymbolCases(b: seq<byte>, env: Bindings, table: nat, info: nat)
    requires HasSections(b) && SymbolFits(b, table, info) && table != 0 && info != 0
    ensures HasSymbol(b, table, info)
    ensures var sym := SymbolOf(b, table, info);
            if sym.shndx == 0 then
              HasName(b, table, sym) && Comparable(b, NameOffset(b, table, sym), |b|) &&
              SymbolValue(b, env, table, info) == ExternalValue(env, NameOffset(b, table, sym), IsPrintf(b, NameOffset(b, table, sym)))
            else if sym.shndx == ABSOLUTE then SymbolValue(b, env, table, info) == sym.value
            else sym.shndx < SectionCount(b) &&
                 SymbolValue(b, env, table, info) == (env.image + sym.value + SectionAt(b, sym.shndx).offset) % TWO32
  {
    var sym := SymbolOf(b, table, info);
    if sym.shndx == 0 {
      var strtab := SectionAt(b, SectionAt(b, table).link);
      ComparisonEnds(b, NameOffset(b, table, sym), strtab.offset + strtab.size);
    }
  }

  /** memcmp with "printf": stops at the first difference, so that it reads no byte behind it. */
  method NameIsPrintf(image: array<byte>, name: nat) returns (same: bool)
    requires Comparable(image[..], name, image.Length)
    ensures same == IsPrintf(image[..], name)
  {
    ghost var b := image[..];
    for i := 0 to |PRINTF|
      invariant name + i <= image.Length && forall k :: 0 <= k < i ==> b[name + k] == PRINTF[k]
    {
      if image[name + i] != PRINTF[i] {
        assert name + |PRINTF| <= |b| ==> b[name..name + |PRINTF|][i] != PRINTF[i];
        return false;
      }
    }
    assert b[name..name + |PRINTF|] == PRINTF;
    same := true;
  }

  lemma NullSymbol(b: seq<byte>, env: Bindings, table: nat, info: nat)
    requires HasSections(b) && SymbolFits(b, table, info) && (table == 0 || info == 0)
    ensures SymbolValue(b, env, table, info) == 0
  {
  }

  /** elf_get_symval */
  method ElfGetSymval(image: array<byte>, env: Bindings, table: nat, info: nat) returns (symval: word32)
    requires HasSections(image[..]) && SymbolFits(image[..], table, info)
    ensures symval == SymbolValue(image[..], env, table, info)
    ensures symval as int == PlainValue(image[..], env, table, info)
  {
    hide SectionAt, SymbolOf, SectionCount, SectionTable, IsPrintf, NameOffset, HasSymbol, HasName, HasSections, SymbolFits, SymbolValue, Load32, Load16;
    PlainSymbol(image[..], env, table, info);
    hide PlainValue;
    if table == 0 || info == 0 {
      NullSymbol(image[..], env, table, info);
      return 0;
    }
    SymbolCases(image[..], env, table, info);
    var symbol := SymbolOf(image[..], table, info);
    if symbol.shndx == 0 {
      var name := NameOffset(image[..], table, symbol);
      if (env.image + name) % TWO32 != 0 {
        var same := NameIsPrintf(image, name);
        if same {
          return env.printf;
        } else {
          return env.error;
        }
      }
      return 0xffff_ffff;
    } else if symbol.shndx == ABSOLUTE {
      return symbol.value;
    } else {
      var target := SectionAt(image[..], symbol.shndx);
      return (env.image + symbol.value + target.offset) % TWO32;
    }
  }

  /** Reads entry `j` of section `i`: where it patches, how, and its symbol's value. */
  method ReadEntry(image: array<byte>, env: Bindings, ghost b0: seq<byte>, i: nat, j: nat) returns (ref: nat, kind: nat, symval: word32)
    requires Relocatable(b0) && SameMeta(b0, image[..]) && IsEntry(b0, i, j)
    ensures EntryFits(b0, i, j) && ref == TargetOf(b0, i, j) && kind == KindOf(b0, i, j)
    ensures SymbolFits(b0, SectionAt(b0, i).link, SymbolIndex(b0, i, j)) && symval == EntryValue(b0, env, i, j)
  {
    hide Meta, SymbolValue, SymbolFits, TablesFit;
    ghost var b := image[..];
    EntrySame(b0, b, i, j);
    var section := SectionAt(image[..], i);
    var relocation := section.offset + RELOCATION_SIZE * j;
    var offset, info := Load32(image[..], relocation), Load32(image[..], relocation + 4);
    var target := SectionAt(image[..], section.info);
    ref := target.offset + offset;
    kind := info % 256;
    SymbolSame(b0, b, env, section.link, info / 256);
    symval := 0;
    if info / 256 != 0 {
      symval := ElfGetSymval(image, env, section.link, info / 256);
    } else {
      NoSymbol(b0, env, section.link);
    }
  }

  lemma NoSymbol(b0: seq<byte>, env: Bindings, table: nat)
    requires HasSections(b0)
    ensures SymbolFits(b0, table, 0) && SymbolValue(b0, env, table, 0) == 0
  {
  }

  /** One turn of the relocation loop. */
  method ApplyEntry(image: array<byte>, env: Bindings, ghost b0: seq<byte>, i: nat, j: nat) returns (symval: word32)
    requires Relocatable(b0) && Progress(b0, image[..], env, i, j) && IsEntry(b0, i, j)
    modifies image
    ensures Progress(b0, image[..], env, i, j + 1)
    ensures EntryFits(b0, i, j) && SymbolFits(b0, SectionAt(b0, i).link, SymbolIndex(b0, i, j)) && symval == EntryValue(b0, env, i, j)
  {
    hide Progress, EntryValue, SymbolFits, SymbolIndex, TargetOf, KindOf, IsEntry, EntryFits, SameMeta, Relocatable, Load32, SectionAt;
    ghost var b := image[..];
    ProgressKeepsMeta(b0, b, env, i, j);
    var ref, kind;
    ref, kind, symval := ReadEntry(image, env, b0, i, j);
    TargetReadable(b0, b, env, i, j);
    if kind == R_386_32 {
      Store32(image, ref, (symval + Load32(image[..], ref)) % TWO32);
    } else if kind == R_386_PC32 {
      Store32(image, ref, (symval + Load32(image[..], ref) - (env.image + ref)) % TWO32);
    }
    ProgressStep(b0, b, image[..], env, i, j);
  }

  /** The word an entry is about to patch still holds its original value. */
  lemma TargetReadable(b0: seq<byte>, b: seq<byte>, env: Bindings, i: nat, j: nat)
    requires Relocatable(b0) && Progress(b0, b, env, i, j) && IsEntry(b0, i, j)
    ensures HasSections(b0) && EntryFits(b0, i, j) && TargetOf(b0, i, j) + 4 <= |b| == |b0|
    ensures Patches(b0, i, j) ==> Load32(b, TargetOf(b0, i, j)) == Load32(b0, TargetOf(b0, i, j))
  {
  }

  lemma RelocatableSection(b0: seq<byte>, env: Bindings, i: nat)
    requires Relocatable(b0)
    requires i < SectionCount(b0) && SectionAt(b0, i).kind == REL
    ensures HasSections(b0) && TablesFit(b0) && SectionAt(b0, i).entsize >= RELOCATION_SIZE && !HasBadSymbol(b0, env, i, 0)
  {
  }

  lemma BadSymbolStep(b0: seq<byte>, env: Bindings, i: nat, j: nat)
    requires Relocatable(b0) && IsEntry(b0, i, j)
    ensures EntryFits(b0, i, j) && SymbolFits(b0, SectionAt(b0, i).link, SymbolIndex(b0, i, j))
    ensures HasBadSymbol(b0, env, i, j + 1) <==> HasBadSymbol(b0, env, i, j) || EntryValue(b0, env, i, j) == 0xffff_ffff
  {
    hide EntryValue, EntryFits, SymbolFits;
  }

  /** Works through all entries of relocation section `i`; tells whether a symbol value was -1. */
  method RelocateSection(image: array<byte>, env: Bindings, ghost b0: seq<byte>, i: nat) returns (bad: bool)
    requires Relocatable(b0) && Progress(b0, image[..], env, i, 0)
    requires i < SectionCount(b0) && SectionAt(b0, i).kind == REL
    modifies image
    ensures Progress(b0, image[..], env, i + 1, 0)
    ensures SectionAt(b0, i).entsize > 0 && (bad <==> HasBadSymbol(b0, env, i, EntryCount(SectionAt(b0, i))))
  {
    hide Progress, EntryFits, SymbolFits, SymbolIndex, EntryValue, SameMeta, HasBadSymbol, Relocatable, SectionAt, TablesFit, HasSections;
    ProgressKeepsMeta(b0, image[..], env, i, 0);
    RelocatableSection(b0, env, i);
    SectionSame(b0, image[..], i);
    var section := SectionAt(image[..], i);
    bad := false;
    for j := 0 to section.size / section.entsize
      invariant Progress(b0, image[..], env, i, j)
      invariant bad <==> HasBadSymbol(b0, env, i, j)
    {
      assert IsEntry(b0, i, j);
      var symval := ApplyEntry(image, env, b0, i, j);
      BadSymbolStep(b0, env, i, j);
      if symval == 0xffff_ffff {
        bad := true;
      }
    }
    NextSection(b0, image[..], env, i, section.size / section.entsize);
  }

  lemma ProgressStarts(b0: seq<byte>, env: Bindings)
    requires Relocatable(b0)
    ensures Progress(b0, b0, env, 0, 0)
  {
  }

  lemma ProgressEnds(b0: seq<byte>, b: seq<byte>, env: Bindings)
    requires Relocatable(b0) && Progress(b0, b, env, SectionCount(b0), 0)
    ensures Relocated(b0, b, env)
  {
  }

  lemma SkipSection(b0: seq<byte>, b: seq<byte>, env: Bindings, i: nat)
    requires HasSections(b0) && Relocatable(b0) && Progress(b0, b, env, i, 0) && i < SectionCount(b0) && SectionAt(b0, i).kind != REL
    ensures Progress(b0, b, env, i + 1, 0)
  {
    hide Relocatable, Patches, Covers, WantedWord, TargetOf, SectionAt, Load32;
    NoPatches(b0, i);
  }

  lemma NoPatches(b0: seq<byte>, i: nat)
    requires HasSections(b0) && i < SectionCount(b0) && SectionAt(b0, i).kind != REL
    ensures forall j :: !Patches(b0, i, j)
  {
    hide SectionAt, SectionCount;
  }

  /**
    loadelf for a relocatable image: the words are relocated where they lie, and the entry point is the first code
    section. The memory a NOBITS section asks for is allocated, but its address only reaches a local copy of the
    section record, so the image is unaffected. Without a code section the loader never returns.
   */
  method LoadRelocatable(image: array<byte>, env: Bindings) returns (entry: Option<word32>)
    requires Relocatable(image[..])
    modifies image
    ensures Relocated(old(image[..]), image[..], env)
    ensures forall i, j :: PlainEntry(old(image[..]), i, j) ==> PlainlyApplied(old(image[..]), image[..], env, i, j)
    ensures var b0 := old(image[..]);
            entry == if OkAfter(b0, env, SectionCount(b0)) != 0 then Some((env.image + OkAfter(b0, env, SectionCount(b0))) % TWO32) else None
  {
    hide Progress, Relocated, SameMeta, Relocatable, HasBadSymbol, SectionAt, HasSections, PlainEntry, PlainlyApplied;
    ghost var b0 := image[..];
    ProgressStarts(b0, env);
    HasSectionsOf(b0);
    var count := SectionCount(image[..]);
    var ok := 0;
    for i := 0 to count
      invariant Progress(b0, image[..], env, i, 0)
      invariant ok == OkAfter(b0, env, i)
    {
      ProgressKeepsMeta(b0, image[..], env, i, 0);
      SectionSame(b0, image[..], i);
      var section := SectionAt(image[..], i);
      if section.kind == REL {
        var bad := RelocateSection(image, env, b0, i);
        if bad {
          ok := 0;
        }
      } else {
        SkipSection(b0, image[..], env, i);
        if section.kind == PROGBITS {
          if ok == 0 {
            ok := section.offset;
          }
        }
      }
    }
    ProgressEnds(b0, image[..], env);
    forall i, j | PlainEntry(b0, i, j)
      ensures PlainlyApplied(b0, image[..], env, i, j)
    {
      RelocatedIsPlain(b0, image[..], env, i, j);
    }
    if ok != 0 {
      entry := Some((env.image + ok) % TWO32);
    } else {
      entry := None;
    }
  }

  lemma HasSectionsOf(b0: seq<byte>)
    requires Relocatable(b0)
    ensures HasSections(b0)
  {
  }

  /** Without a symbol value of -1 the entry point is the first code section that does not start at offset 0. */
  lemma {:induction false} EntryIsFirstCode(b: seq<byte>, env: Bindings, k: nat, n: nat)
    requires Relocatable(b) && k < n <= SectionCount(b)
    requires forall i, m: nat :: 0 <= i < n && SectionAt(b, i).kind == REL ==> !HasBadSymbol(b, env, i, m)
    requires SectionAt(b, k).kind == PROGBITS && SectionAt(b, k).offset != 0
    requires forall i :: 0 <= i < k && SectionAt(b, i).kind == PROGBITS ==> SectionAt(b, i).offset == 0
    ensures OkAfter(b, env, n) == SectionAt(b, k).offset
  {
    if n == k + 1 {
      NothingYet(b, env, k);
    } else {
      EntryIsFirstCode(b, env, k, n - 1);
    }
  }

  lemma {:induction false} NothingYet(b: seq<byte>, env: Bindings, n: nat)
    requires Relocatable(b) && n <= SectionCount(b)
    requires forall i :: 0 <= i < n && SectionAt(b, i).kind == PROGBITS ==> SectionAt(b, i).offset == 0
    ensures OkAfter(b, env, n) == 0
  {
    if n > 0 {
      NothingYet(b, env, n - 1);
    }
  }

  // ----- the loader on plain bytes -----

  /** A symbol's value, said with the offsets of the file format alone: section records of 40 bytes, symbol records of 16. */
  function PlainValue(b: seq<byte>, env: Bindings, link: nat, index: nat): nat
  {
    if link == 0 || index == 0 then 0
    else
      var sections := Word(b, 32);
      var symbol := Word(b, sections + 40 * link + 16) + 16 * index;
      var section := Half(b, symbol + 14);
      if section == 0 then
        var name := Word(b, sections + 40 * Word(b, sections + 40 * link + 24) + 16) + Word(b, symbol);
        if (env.image + name) % 0x1_0000_0000 == 0 then 0xffff_ffff
        else if name + 6 <= |b| && b[name..name + 6] == [112, 114, 105, 110, 116, 102] then env.printf // "printf"
        else env.error
      else if section == 10234 then Word(b, symbol + 4)
      else (env.image + Word(b, symbol + 4) + Word(b, sections + 40 * section + 16)) % 0x1_0000_0000
  }

  /** A relocation: section `i` has type 9 and at least `j` + 1 entries. */
  predicate PlainEntry(b: seq<byte>, i: nat, j: nat)
  {
    var record := Word(b, 32) + 40 * i;
    i < Half(b, 48) && Word(b, record + 4) == 9 && Word(b, record + 36) > 0 && j < Word(b, record + 20) / Word(b, record + 36)
  }

  /** Where the entry stands: eight bytes each from the section's offset on. */
  function PlainOffset(b: seq<byte>, i: nat, j: nat): nat
  {
    Word(b, Word(b, 32) + 40 * i + 16) + 8 * j
  }

  /** The word it patches: its first field, from the offset of the section that it is about. */
  function PlainTarget(b: seq<byte>, i: nat, j: nat): nat
  {
    Word(b, Word(b, 32) + 40 * Word(b, Word(b, 32) + 40 * i + 28) + 16) + Word(b, PlainOffset(b, i, j))
  }

  /** What that relocation made of its word: S + A for type 1, S + A - P for type 2. */
  predicate PlainlyApplied(before: seq<byte>, after: seq<byte>, env: Bindings, i: nat, j: nat)
  {
    var info, t := Word(before, PlainOffset(before, i, j) + 4), PlainTarget(before, i, j);
    var s := PlainValue(before, env, Word(before, Word(before, 32) + 40 * i + 24), info / 256);
    && (info % 256 == 1 ==> t + 4 <= |after| && Word(after, t) == (s + Word(before, t)) % 0x1_0000_0000)
    && (info % 256 == 2 ==> t + 4 <= |after| && Word(after, t) == (s + Word(before, t) - (env.image + t)) % 0x1_0000_0000)
  }

  lemma PlainSymbol(b: seq<byte>, env: Bindings, table: nat, info: nat)
    requires HasSections(b) && SymbolFits(b, table, info)
    ensures SymbolValue(b, env, table, info) == PlainValue(b, env, table, info)
  {
    hide Load32, Load16, Word, Half;
    LoadsArePlain(b);
    if table == 0 || info == 0 {
      NullSymbol(b, env, table, info);
    } else {
      SymbolCases(b, env, table, info);
    }
  }

  lemma PlainPlaces(b: seq<byte>, i: nat, j: nat)
    requires Relocatable(b) && PlainEntry(b, i, j)
    ensures HasSections(b) && IsEntry(b, i, j) && EntryFits(b, i, j) && i < SectionCount(b)
    ensures SectionAt(b, i).link == Word(b, Word(b, 32) + 40 * i + 24)
    ensures EntryOffset(b, i, j) == PlainOffset(b, i, j) && TargetOf(b, i, j) == PlainTarget(b, i, j) && TargetOf(b, i, j) + 4 <= |b|
    ensures KindOf(b, i, j) == Word(b, PlainOffset(b, i, j) + 4) % 256 && SymbolIndex(b, i, j) == Word(b, PlainOffset(b, i, j) + 4) / 256
    ensures SymbolFits(b, SectionAt(b, i).link, SymbolIndex(b, i, j))
  {
    hide Load32, Load16, Word, Half, SymbolFits, Covers;
    LoadsArePlain(b);
    assert IsEntry(b, i, j);
  }

  /** Every relocation of a relocated image was applied in this plain sense. */
  lemma RelocatedIsPlain(b0: seq<byte>, b: seq<byte>, env: Bindings, i: nat, j: nat)
    requires Relocatable(b0) && Relocated(b0, b, env) && PlainEntry(b0, i, j)
    ensures PlainlyApplied(b0, b, env, i, j)
  {
    hide Load32, Load16, Word, Half, SymbolValue, PlainValue, SymbolFits, SectionAt, IsEntry, EntryFits, EntryOffset, TargetOf, KindOf, SymbolIndex, PlainOffset, PlainTarget, Covers, Relocatable, PlainEntry;
    LoadsArePlain(b0);
    LoadsArePlain(b);
    PlainPlaces(b0, i, j);
    PlainSymbol(b0, env, SectionAt(b0, i).link, SymbolIndex(b0, i, j));
  }

  /** The simplest image with something to relocate: a code section of one word and one entry that patches it. */
  predicate OneEntryImage(b: seq<byte>)
  {
    && |b| == 144 && Word(b, 32) == 52 && Half(b, 48) == 2
    // section 0: four bytes of code at 132
    && Word(b, 52 + 4) == 1 && Word(b, 52 + 16) == 132 && Word(b, 52 + 20) == 4
    // section 1: one relocation at 136, against section 0 and without a symbol table
    && Word(b, 92 + 4) == 9 && Word(b, 92 + 16) == 136 && Word(b, 92 + 20) == 8
    && Word(b, 92 + 24) == 0 && Word(b, 92 + 28) == 0 && Word(b, 92 + 36) == 8
    // the entry: offset 0, relative to the patched word
    && Word(b, 136) == 0 && Word(b, 140) == 2
  }

  /** Such images are relocatable, and the loader turns their word A into A - P. */
  lemma OneEntryIsRelocatable(b: seq<byte>, env: Bindings)
    requires OneEntryImage(b)
    ensures Relocatable(b) && Patches(b, 1, 0)
    ensures WantedWord(b, env, 1, 0) == (Word(b, 132) - (env.image + 132)) % TWO32
    ensures OkAfter(b, env, 2) == 132
  {
    hide Load32, Load16, Word, Half;
    LoadsArePlain(b);
    var code, rel := SectionAt(b, 0), SectionAt(b, 1);
    assert code.kind == PROGBITS && code.offset == 132 && code.size == 4;
    assert rel.kind == REL && rel.offset == 136 && rel.size == 8 && rel.link == 0 && rel.info == 0 && rel.entsize == 8;
    assert forall i, j :: IsEntry(b, i, j) <==> i == 1 && j == 0;
    assert EntryFits(b, 1, 0) && TargetOf(b, 1, 0) == 132 && KindOf(b, 1, 0) == R_386_PC32;
    assert OkAfter(b, env, 1) == 132;
  }

  /** An image with a code section of one word, a symbol in that section, and one entry that patches the word by it. */
  predicate OneSymbolImage(b: seq<byte>, kind: nat)
  {
    && |b| == 256 && Word(b, 32) == 52 && Half(b, 48) == 4
    // section 0: unused
    && Word(b, 52 + 4) == 0
    // section 1: four bytes of code at 212
    && Word(b, 92 + 4) == 1 && Word(b, 92 + 16) == 212 && Word(b, 92 + 20) == 4
    // section 2: two symbols at 216
    && Word(b, 132 + 4) == 2 && Word(b, 132 + 16) == 216 && Word(b, 132 + 20) == 32
    // section 3: one relocation at 248, against section 1 and with the symbols of section 2
    && Word(b, 172 + 4) == 9 && Word(b, 172 + 16) == 248 && Word(b, 172 + 20) == 8
    && Word(b, 172 + 24) == 2 && Word(b, 172 + 28) == 1 && Word(b, 172 + 36) == 8
    // symbol 1 lies in section 1
    && Half(b, 232 + 14) == 1
    // the entry: offset 0, symbol 1
    && Word(b, 248) == 0 && Word(b, 252) == 0x100 + kind
  }

  lemma OneSymbolSections(b: seq<byte>, kind: nat)
    requires OneSymbolImage(b, kind) && (kind == 1 || kind == 2)
    ensures HasSections(b) && SectionCount(b) == 4
    ensures SectionAt(b, 0).kind == 0
    ensures var s := SectionAt(b, 1); s.kind == 1 && s.offset == 212 && s.size == 4
    ensures var s := SectionAt(b, 2); s.kind == 2 && s.offset == 216 && s.size == 32
    ensures var s := SectionAt(b, 3); s.kind == 9 && s.offset == 248 && s.size == 8 && s.link == 2 && s.info == 1 && s.entsize == 8
    ensures Load32(b, 248) == 0 && Load32(b, 252) == 0x100 + kind && Load16(b, 246) == 1
  {
    hide Load32, Load16, Word, Half;
    LoadsArePlain(b);
  }

  lemma OneSymbolIsRelocatable(b: seq<byte>, kind: nat)
    requires OneSymbolImage(b, kind) && (kind == 1 || kind == 2)
    ensures Relocatable(b) && PlainEntry(b, 3, 0)
  {
    hide Load32, Load16, Word, Half;
    LoadsArePlain(b);
    OneSymbolSections(b, kind);
    hide SectionAt, SectionCount;
    assert forall i, j :: IsEntry(b, i, j) <==> i == 3 && j == 0;
    assert EntryFits(b, 3, 0) && TargetOf(b, 3, 0) == 212 && KindOf(b, 3, 0) == kind;
    assert SymbolFits(b, 2, 1);
  }

  /** The symbol's address S is that of its section, here 212 bytes into the image, plus its value. Type 1 gives S + A, type 2 gives S + A - P. */
  lemma OneSymbolIsApplied(b: seq<byte>, after: seq<byte>, env: Bindings, kind: nat)
    requires OneSymbolImage(b, kind) && (kind == 1 || kind == 2)
    requires Relocatable(b) && Relocated(b, after, env)
    ensures var s, a, p := env.image + 212 + Word(b, 236), Word(b, 212), env.image + 212;
            Word(after, 212) == (if kind == 1 then s + a else s + a - p) % 0x1_0000_0000
  {
    hide Load32, Load16, Word, Half, Relocatable, Relocated, PlainEntry;
    OneSymbolIsRelocatable(b, kind);
    RelocatedIsPlain(b, after, env, 3, 0);
    assert PlainOffset(b, 3, 0) == 248 && PlainTarget(b, 3, 0) == 212;
    assert PlainValue(b, env, 2, 1) == (env.image + Word(b, 236) + 212) % TWO32;
    SumAfterRemainder(env.image + Word(b, 236) + 212, Word(b, 212));
    SumAfterRemainder(env.image + Word(b, 236) + 212, Word(b, 212) - (env.image + 212));
  }

  lemma SumAfterRemainder(x: nat, y: int)
    ensures (x % TWO32 + y) % TWO32 == (x + y) % TWO32
  {
  }
}
