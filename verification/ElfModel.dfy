/** Relocatable ELF images as kernel/exec/elf.c reads them: plain bytes, with every field loaded in place. */
module ElfModel {
  import opened Common

  const HEADER_SIZE: nat := 52
  const SECTION_SIZE: nat := 40
  const SYMBOL_SIZE: nat := 16
  const RELOCATION_SIZE: nat := 8

  const PROGBITS: nat := 1
  const SYMTAB: nat := 2
  const STRTAB: nat := 3
  const REL: nat := 9

  const R_386_32: nat := 1
  const R_386_PC32: nat := 2

  // the section index the source takes for an absolute symbol
  const ABSOLUTE: nat := 10234

  datatype Section = Section(kind: nat, flags: nat, addr: nat, offset: nat, size: nat, link: nat, info: nat, entsize: nat)

  datatype Symbol = Symbol(name: nat, value: nat, shndx: nat)

  function SectionTable(b: seq<byte>): nat
    requires |b| >= HEADER_SIZE
  {
    Load32(b, 32)
  }

  function SectionCount(b: seq<byte>): nat
    requires |b| >= HEADER_SIZE
  {
    Load16(b, 48)
  }

  /** The header and the whole section table lie inside the image. */
  predicate HasSections(b: seq<byte>)
  {
    |b| >= HEADER_SIZE && SectionTable(b) + SECTION_SIZE * SectionCount(b) <= |b|
  }

  function SectionAt(b: seq<byte>, i: nat): Section
    requires HasSections(b) && i < SectionCount(b)
  {
    var p := SectionTable(b) + SECTION_SIZE * i;
    Section(Load32(b, p + 4), Load32(b, p + 8), Load32(b, p + 12), Load32(b, p + 16), Load32(b, p + 20), Load32(b, p + 24), Load32(b, p + 28), Load32(b, p + 36))
  }

  /** Sections that hold relocations, symbols or names. */
  predicate IsTable(s: Section)
  {
    s.kind == SYMTAB || s.kind == STRTAB || s.kind == REL
  }

  /** Bytes that tell how to relocate: header, section table, and the contents of every table. */
  ghost predicate Meta(b: seq<byte>, off: nat)
    requires HasSections(b)
  {
    || off < HEADER_SIZE
    || SectionTable(b) <= off < SectionTable(b) + SECTION_SIZE * SectionCount(b)
    || exists i :: 0 <= i < SectionCount(b) && InTable(SectionAt(b, i), off)
  }

  predicate InTable(s: Section, off: nat)
  {
    IsTable(s) && s.offset <= off < s.offset + s.size
  }

  /** Every table lies inside the image. */
  ghost predicate TablesFit(b: seq<byte>)
    requires HasSections(b)
  {
    forall i :: 0 <= i < SectionCount(b) && IsTable(SectionAt(b, i)) ==> SectionAt(b, i).offset + SectionAt(b, i).size <= |b|
  }

  // ----- relocations -----

  function EntryCount(s: Section): nat
    requires s.entsize > 0
  {
    s.size / s.entsize
  }

  /** Entry `j` of relocation section `i`. */
  ghost predicate IsEntry(b: seq<byte>, i: nat, j: nat)
    requires HasSections(b)
  {
    i < SectionCount(b) && SectionAt(b, i).kind == REL && SectionAt(b, i).entsize >= RELOCATION_SIZE && j < EntryCount(SectionAt(b, i))
  }

  lemma EntryInside(s: Section, j: nat)
    requires s.entsize >= RELOCATION_SIZE && j < EntryCount(s)
    ensures RELOCATION_SIZE * j + RELOCATION_SIZE <= s.size
  {
  }

  function EntryOffset(b: seq<byte>, i: nat, j: nat): nat
    requires HasSections(b) && i < SectionCount(b)
  {
    SectionAt(b, i).offset + RELOCATION_SIZE * j
  }

  ghost predicate EntryFits(b: seq<byte>, i: nat, j: nat)
    requires HasSections(b)
  {
    i < SectionCount(b) && EntryOffset(b, i, j) + RELOCATION_SIZE <= |b| && SectionAt(b, i).info < SectionCount(b) && SectionAt(b, i).link < SectionCount(b)
  }

  /** Where entry `j` of section `i` patches, as an offset into the image. */
  ghost function TargetOf(b: seq<byte>, i: nat, j: nat): nat
    requires HasSections(b) && EntryFits(b, i, j)
  {
    SectionAt(b, SectionAt(b, i).info).offset + Load32(b, EntryOffset(b, i, j))
  }

  ghost function KindOf(b: seq<byte>, i: nat, j: nat): nat
    requires HasSections(b) && EntryFits(b, i, j)
  {
    Load32(b, EntryOffset(b, i, j) + 4) % 256
  }

  ghost function SymbolIndex(b: seq<byte>, i: nat, j: nat): nat
    requires HasSections(b) && EntryFits(b, i, j)
  {
    Load32(b, EntryOffset(b, i, j) + 4) / 256
  }

  /** The four bytes at `off` as a number, 0 behind the end. */
  function Word(b: seq<byte>, off: nat): nat
  {
    if off + 4 <= |b| then b[off] as nat + 256 * b[off + 1] as nat + 65536 * b[off + 2] as nat + 16777216 * b[off + 3] as nat else 0
  }

  function Half(b: seq<byte>, off: nat): nat
  {
    if off + 2 <= |b| then b[off] as nat + 256 * b[off + 1] as nat else 0
  }

  lemma LoadsArePlain(b: seq<byte>)
    ensures forall off: nat :: off + 4 <= |b| ==> Word(b, off) == Load32(b, off)
    ensures forall off: nat :: off + 2 <= |b| ==> Half(b, off) == Load16(b, off)
  {
  }

  /** Addresses the loader knows: where the image lies, and the kernel functions external symbols are bound to. */
  datatype Bindings = Bindings(image: word32, printf: word32, error: word32)

  function SymbolAt(b: seq<byte>, off: nat): Symbol
    requires off + SYMBOL_SIZE <= |b|
  {
    Symbol(Load32(b, off), Load32(b, off + 4), Load16(b, off + 14))
  }

  const PRINTF: seq<byte> := [112, 114, 105, 110, 116, 102]

  /** The symbol table holds symbol `info`. */
  ghost predicate HasSymbol(b: seq<byte>, table: nat, info: nat)
    requires HasSections(b)
  {
    && table < SectionCount(b) && SectionAt(b, table).kind == SYMTAB
    && SYMBOL_SIZE * info + SYMBOL_SIZE <= SectionAt(b, table).size
    && SectionAt(b, table).offset + SectionAt(b, table).size <= |b|
  }

  function SymbolOf(b: seq<byte>, table: nat, info: nat): Symbol
    requires HasSections(b) && HasSymbol(b, table, info)
  {
    SymbolAt(b, SectionAt(b, table).offset + SYMBOL_SIZE * info)
  }

  /** Comparing the bytes from `name` on with "printf" ends before `limit`: after six bytes, or at the first difference. */
  predicate Comparable(b: seq<byte>, name: nat, limit: nat)
  {
    && name <= limit <= |b|
    && (name + |PRINTF| <= limit || exists k :: 0 <= k < |PRINTF| && name + k < limit && b[name + k] != PRINTF[k])
  }

  /** The symbol's name is in the string table that belongs to the symbol table, as far as it is looked at. */
  ghost predicate HasName(b: seq<byte>, table: nat, sym: Symbol)
    requires HasSections(b)
  {
    && table < SectionCount(b) && SectionAt(b, table).link < SectionCount(b)
    && var strtab := SectionAt(b, SectionAt(b, table).link);
       strtab.kind == STRTAB && Comparable(b, strtab.offset + sym.name, strtab.offset + strtab.size)
  }

  function NameOffset(b: seq<byte>, table: nat, sym: Symbol): nat
    requires HasSections(b) && HasName(b, table, sym)
  {
    SectionAt(b, SectionAt(b, table).link).offset + sym.name
  }

  predicate IsPrintf(b: seq<byte>, name: nat)
  {
    name + |PRINTF| <= |b| && b[name..name + |PRINTF|] == PRINTF
  }

  /** What elf_get_symval needs to find in the image for this symbol. */
  ghost predicate SymbolFits(b: seq<byte>, table: nat, info: nat)
    requires HasSections(b)
  {
    table == 0 || info == 0 ||
    (&& HasSymbol(b, table, info)
     && var sym := SymbolOf(b, table, info);
        if sym.shndx == 0 then HasName(b, table, sym) else sym.shndx == ABSOLUTE || sym.shndx < SectionCount(b))
  }

  /** The address of an external symbol: printf, or the error stub for every other name. */
  function ExternalValue(env: Bindings, name: nat, isPrintf: bool): word32
  {
    if (env.image + name) % TWO32 == 0 then 0xffff_ffff else if isPrintf then env.printf else env.error
  }

  /** elf_get_symval: the address of a symbol. */
  ghost function SymbolValue(b: seq<byte>, env: Bindings, table: nat, info: nat): word32
    requires HasSections(b) && SymbolFits(b, table, info)
  {
    if table == 0 || info == 0 then 0
    else
      var sym := SymbolOf(b, table, info);
      if sym.shndx == 0 then
        var name := NameOffset(b, table, sym);
        ExternalValue(env, name, IsPrintf(b, name))
      else if sym.shndx == ABSOLUTE then sym.value
      else (env.image + sym.value + SectionAt(b, sym.shndx).offset) % TWO32
  }

  /** S, the value of the entry's symbol. */
  ghost function EntryValue(b: seq<byte>, env: Bindings, i: nat, j: nat): word32
    requires HasSections(b) && EntryFits(b, i, j) && SymbolFits(b, SectionAt(b, i).link, SymbolIndex(b, i, j))
  {
    SymbolValue(b, env, SectionAt(b, i).link, SymbolIndex(b, i, j))
  }

  /** The word the entry asks for: S + A, or S + A - P, modulo 2^32, with A the word now at the target. */
  ghost function WantedWord(b: seq<byte>, env: Bindings, i: nat, j: nat): word32
    requires HasSections(b) && EntryFits(b, i, j) && SymbolFits(b, SectionAt(b, i).link, SymbolIndex(b, i, j))
    requires TargetOf(b, i, j) + 4 <= |b|
  {
    var s, a, p := EntryValue(b, env, i, j), Load32(b, TargetOf(b, i, j)), env.image + TargetOf(b, i, j);
    if KindOf(b, i, j) == R_386_32 then (s + a) % TWO32
    else if KindOf(b, i, j) == R_386_PC32 then (s + a - p) % TWO32
    else a
  }

  /** An entry that patches a word. */
  ghost predicate Patches(b: seq<byte>, i: nat, j: nat)
    requires HasSections(b)
  {
    IsEntry(b, i, j) && EntryFits(b, i, j) && (KindOf(b, i, j) == R_386_32 || KindOf(b, i, j) == R_386_PC32)
  }

  ghost predicate Covers(b: seq<byte>, i: nat, j: nat, off: nat)
    requires HasSections(b)
  {
    Patches(b, i, j) && TargetOf(b, i, j) <= off < TargetOf(b, i, j) + 4
  }

  /**
    A relocatable image: everything the entries refer to lies inside it, and the patched words overlap neither
    each other nor the tables.
   */
  ghost predicate Relocatable(b: seq<byte>)
  {
    && HasSections(b) && TablesFit(b)
    && (forall i :: 0 <= i < SectionCount(b) && SectionAt(b, i).kind == REL ==> SectionAt(b, i).entsize >= RELOCATION_SIZE)
    && (forall i, j :: IsEntry(b, i, j) ==> EntryFits(b, i, j) && TargetOf(b, i, j) + 4 <= |b| && SymbolFits(b, SectionAt(b, i).link, SymbolIndex(b, i, j)))
    && (forall i, j, off :: Covers(b, i, j, off) ==> !Meta(b, off))
    && (forall i, j, k, l, off :: Covers(b, i, j, off) && Covers(b, k, l, off) ==> i == k && j == l)
  }

  /** Entries before (i, j) in the order the loader works through them. */
  predicate Before(k: nat, l: nat, i: nat, j: nat)
  {
    k < i || (k == i && l < j)
  }

  /** `b` is the original image `b0` with exactly the entries before (i, j) applied, once each. */
  ghost predicate Progress(b0: seq<byte>, b: seq<byte>, env: Bindings, i: nat, j: nat)
    requires Relocatable(b0)
  {
    && |b| == |b0|
    && (forall k, l :: Patches(b0, k, l) ==>
          Load32(b, TargetOf(b0, k, l)) == if Before(k, l, i, j) then WantedWord(b0, env, k, l) else Load32(b0, TargetOf(b0, k, l)))
    && (forall off: nat :: off < |b0| && (forall k, l :: !Covers(b0, k, l, off)) ==> b[off] == b0[off])
  }

  /** The image after loading: every word relocated, nothing else changed. */
  ghost predicate Relocated(b0: seq<byte>, b: seq<byte>, env: Bindings)
    requires Relocatable(b0)
  {
    && |b| == |b0|
    && (forall k, l :: Patches(b0, k, l) ==> Load32(b, TargetOf(b0, k, l)) == WantedWord(b0, env, k, l))
    && (forall off: nat :: off < |b0| && (forall k, l :: !Covers(b0, k, l, off)) ==> b[off] == b0[off])
  }

  /** Some entry of section `i` among the first `n` has the symbol value -1, which the loader takes for a failure. */
  ghost predicate HasBadSymbol(b: seq<byte>, env: Bindings, i: nat, n: nat)
    requires Relocatable(b)
  {
    exists j :: 0 <= j < n && IsEntry(b, i, j) && EntryValue(b, env, i, j) == 0xffff_ffff
  }

  /** The loader's `ok` after the first `i` sections: the offset of the first code section, reset by a bad symbol. */
  ghost function OkAfter(b: seq<byte>, env: Bindings, i: nat): nat
    requires Relocatable(b) && i <= SectionCount(b)
  {
    if i == 0 then 0
    else
      var before, s := OkAfter(b, env, i - 1), SectionAt(b, i - 1);
      if s.kind == REL then (if HasBadSymbol(b, env, i - 1, EntryCount(s)) then 0 else before)
      else if s.kind == PROGBITS && before == 0 then s.offset
      else before
  }
}
