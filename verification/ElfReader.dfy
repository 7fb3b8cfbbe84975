/** A reader of ELF32 files after chapters 4 and 5 of the System V ABI: it follows the offsets in the
    headers, takes names from the string table that e_shstrndx selects, and loads PT_LOAD segments.
    The lemmas say that it recovers from an image exactly what was put into it. */
module ElfReader {
  import opened Bytes
  import opened Tables
  import opened ElfImage

  // ---------------------------------------------------------------- the reader

  function EntryPoint(image: seq<byte>): nat { Number(image, 24, 4) }
  function ProgramHeaderOffset(image: seq<byte>): nat { Number(image, 28, 4) }
  function SectionTableOffset(image: seq<byte>): nat { Number(image, 32, 4) }
  function ProgramHeaderSize(image: seq<byte>): nat { Number(image, 42, 2) }
  function SegmentCount(image: seq<byte>): nat { Number(image, 44, 2) }
  function SectionHeaderSize(image: seq<byte>): nat { Number(image, 46, 2) }
  function SectionCount(image: seq<byte>): nat { Number(image, 48, 2) }
  function NameTableIndex(image: seq<byte>): nat { Number(image, 50, 2) }

  /** The offset of row i of a table. */
  function RowOffset(table: nat, i: nat, size: nat): nat {
    table + i * size
  }

  /** Field f of section header i, in words. */
  function SectionField(image: seq<byte>, i: nat, f: nat): nat {
    Number(image, RowOffset(SectionTableOffset(image), i, SectionHeaderSize(image)) + 4 * f, 4)
  }

  function SegmentField(image: seq<byte>, j: nat, f: nat): nat {
    Number(image, RowOffset(ProgramHeaderOffset(image), j, ProgramHeaderSize(image)) + 4 * f, 4)
  }

  /** The part of a file at an offset; nothing if it runs past the end. */
  function Slice(image: seq<byte>, offset: nat, size: nat): seq<byte> {
    if offset + size <= |image| then image[offset..offset + size] else []
  }

  /** A NUL-terminated string in a table. */
  function NameAt(table: seq<byte>, offset: nat): seq<byte> {
    if offset <= |table| then table[offset..][..TextLength(table[offset..])] else []
  }

  /** What a reader learns of a section. */
  datatype SectionView = SectionView(
    name: seq<byte>, sectionType: nat, flags: nat, address: nat, content: seq<byte>, size: nat,
    link: nat, info: nat, alignment: nat, entrySize: nat)

  function ReadContent(image: seq<byte>, i: nat): seq<byte> {
    if SectionField(image, i, 1) == SHT_NOBITS then []
    else Slice(image, SectionField(image, i, 4), SectionField(image, i, 5))
  }

  function ReadSection(image: seq<byte>, i: nat): SectionView {
    SectionView(NameAt(ReadContent(image, NameTableIndex(image)), SectionField(image, i, 0)),
                SectionField(image, i, 1), SectionField(image, i, 2), SectionField(image, i, 3),
                ReadContent(image, i), SectionField(image, i, 5),
                SectionField(image, i, 6), SectionField(image, i, 7), SectionField(image, i, 8),
                SectionField(image, i, 9))
  }

  type Memory = map<nat, byte>

  predicate Within(a: nat, start: nat, size: nat) {
    start <= a < start + size
  }

  /** The bytes of one PT_LOAD segment: p_filesz of them from the file, zeros up to p_memsz. */
  function SegmentMemory(image: seq<byte>, offset: nat, address: nat, fileSize: nat, memorySize: nat): Memory {
    map a: nat | address <= a < address + memorySize && Within(a, address, memorySize) ::
      if a - address < fileSize && offset + (a - address) < |image| then image[offset + (a - address)] else 0
  }

  /** The memory after loading the first n segments. */
  function LoadUpTo(image: seq<byte>, n: nat): Memory {
    if n == 0 then map[]
    else
      var j := n - 1;
      LoadUpTo(image, j) +
      if SegmentField(image, j, 0) == 1 then
        SegmentMemory(image, SegmentField(image, j, 1), SegmentField(image, j, 2), SegmentField(image, j, 4),
                      SegmentField(image, j, 5))
      else map[]
  }

  function LoadElf(image: seq<byte>): Memory {
    LoadUpTo(image, SegmentCount(image))
  }

  // ---------------------------------------------------------------- where things are stored

  lemma LayoutIs(base: nat, all: seq<Content>, n: nat)
    requires Aligned(all) && n < |all|
    ensures var before := Layout(base, all, n);
            var padding := Zeros(Padding(base + |before|, all[n].alignment));
            && Layout(base, all, n + 1) == before + padding + all[n].Stored()
            && Offset(base, all, n) == base + |before + padding|
  {
    hide Padding;
  }

  lemma {:induction false} LayoutStores(base: nat, all: seq<Content>, k: nat, n: nat)
    requires Aligned(all) && k < n <= |all|
    ensures base <= Offset(base, all, k)
    ensures StoredAt(Layout(base, all, n), Offset(base, all, k) - base, all[k].Stored())
    ensures Offset(base, all, k) + |all[k].Stored()| <= base + |Layout(base, all, n)|
    decreases n
  {
    hide Padding;
    hide Layout;
    hide Offset;
    hide StoredAt;
    hide Content.Stored;
    var before := Layout(base, all, n - 1);
    var padding := Zeros(Padding(base + |before|, all[n - 1].alignment));
    LayoutIs(base, all, n - 1);
    if k == n - 1 {
      AppendedStored(before + padding, all[k].Stored());
    } else {
      LayoutStores(base, all, k, n - 1);
      StoredInPrefix(before, padding, Offset(base, all, k) - base, all[k].Stored());
      StoredInPrefix(before + padding, all[n - 1].Stored(), Offset(base, all, k) - base, all[k].Stored());
    }
  }

  predicate IsMultiple(n: nat, d: nat)
    requires d > 0
  {
    n % d == 0
  }

  lemma PaddingAligns(length: nat, alignment: nat)
    requires alignment > 0
    ensures IsMultiple(length + Padding(length, alignment), alignment)
    ensures Padding(length, alignment) < alignment
  {
    var q := -(length as int) / alignment;
    assert length + Padding(length, alignment) == -q * alignment;
    MultipleRemainder(-q, alignment);
  }

  lemma MultipleRemainder(q: int, d: nat)
    requires d > 0
    ensures q * d % d == 0
  {
    var x := q * d;
    var t := q - x / d;
    Difference(q, x / d, d);
    if t >= 1 {
      AtLeast(t, d);
    } else if t <= -1 {
      AtLeast(-t, d);
      Difference(0, t, d);
    }
  }

  lemma Difference(a: int, b: int, d: int)
    ensures (a - b) * d == a * d - b * d
  {
  }

  lemma AtLeast(t: int, d: nat)
    requires t >= 1
    ensures t * d >= d
  {
  }

  lemma OffsetAligned(all: seq<Content>, k: nat)
    requires Aligned(all) && k < |all|
    ensures all[k].alignment > 0 && IsMultiple(Offset(Base(all), all, k), all[k].alignment)
  {
    PaddingAligns(Base(all) + |Layout(Base(all), all, k)|, all[k].alignment);
  }

  // ---------------------------------------------------------------- the parts of an image

  /** The header, the program headers, the stored section data and the section table are where the
      file header says, one behind the other: no two of them overlap. */
  lemma ImageParts(entry: nat, all: seq<Content>)
    requires Aligned(all)
    ensures var image := Image(entry, all);
            var n := |LoadedIndices(all)|;
            && |Header(entry, all)| == 52 && StoredAt(image, 0, Header(entry, all))
            && StoredAt(image, 52, Concat(SegmentRows(all, n)))
            && |Concat(SegmentRows(all, n))| == 32 * n
            && StoredAt(image, Base(all), Layout(Base(all), all, |all|))
            && Base(all) + |Layout(Base(all), all, |all|)| <= TableOffset(all)
            && StoredAt(image, TableOffset(all), Concat(SectionRows(all, |all|)))
            && |image| == TableOffset(all) + 40 * (|all| + 1)
  {
    hide *;
    var n := |LoadedIndices(all)|;
    HeaderLength(entry, all);
    RowLengths(all, n, |all|);
    ImageIs(entry, all);
    FivePartsStored(Header(entry, all), Concat(SegmentRows(all, n)), Layout(Base(all), all, |all|),
                    Zeros(Padding(Base(all) + |Layout(Base(all), all, |all|)|, 4)), Concat(SectionRows(all, |all|)));
  }

  lemma ImageIs(entry: nat, all: seq<Content>)
    requires Aligned(all)
    ensures var n, layout := |LoadedIndices(all)|, Layout(Base(all), all, |all|);
            var padding := Zeros(Padding(Base(all) + |layout|, 4));
            && Base(all) == 52 + 32 * n
            && TableOffset(all) == Base(all) + |layout| + |padding|
            && Image(entry, all) == Header(entry, all) + Concat(SegmentRows(all, n))
                                    + (layout + padding + Concat(SectionRows(all, |all|)))
  {
    hide Header;
    hide SegmentRows;
    hide SectionRows;
    hide Layout;
    hide Concat;
    hide Padding;
    hide LoadedIndices;
  }

  lemma FivePartsStored(a: seq<byte>, b: seq<byte>, c: seq<byte>, d: seq<byte>, e: seq<byte>)
    ensures var whole := a + b + (c + d + e);
            && StoredAt(whole, 0, a) && StoredAt(whole, |a|, b) && StoredAt(whole, |a| + |b|, c)
            && StoredAt(whole, |a| + |b| + |c| + |d|, e)
            && |whole| == |a| + |b| + |c| + |d| + |e|
  {
  }

  /** Every section's data is in the file at its offset, a multiple of its alignment, and behind the
      data of the sections before it. */
  lemma DataStored(entry: nat, all: seq<Content>, k: nat)
    requires Aligned(all) && k < |all|
    ensures StoredAt(Image(entry, all), Offset(Base(all), all, k), all[k].Stored())
    ensures Base(all) <= Offset(Base(all), all, k) && IsMultiple(Offset(Base(all), all, k), all[k].alignment)
    ensures Offset(Base(all), all, k) + |all[k].Stored()| <= TableOffset(all)
  {
    hide *;
    ImageParts(entry, all);
    LayoutStores(Base(all), all, k, |all|);
    OffsetAligned(all, k);
    StoredWithin(Image(entry, all), Base(all), Layout(Base(all), all, |all|),
                 Offset(Base(all), all, k) - Base(all), all[k].Stored());
  }

  lemma {:induction false} DataDisjoint(base: nat, all: seq<Content>, j: nat, k: nat)
    requires Aligned(all) && j < k < |all|
    ensures Offset(base, all, j) + |all[j].Stored()| <= Offset(base, all, k)
  {
    LayoutStores(base, all, j, k);
  }

  /** The numbers of the file header. */
  lemma HeaderRead(entry: nat, all: seq<Content>)
    requires Aligned(all) && Packable(entry, all)
    ensures var image := Image(entry, all);
            && EntryPoint(image) == entry
            && ProgramHeaderOffset(image) == 52 && SectionTableOffset(image) == TableOffset(all)
            && ProgramHeaderSize(image) == 32 && SegmentCount(image) == |LoadedIndices(all)|
            && SectionHeaderSize(image) == 40 && SectionCount(image) == |all| + 1
            && NameTableIndex(image) == |all|
  {
    hide Image;
    hide TableOffset;
    hide LoadedIndices;
    hide Number;
    hide Packable;
    HeaderWordRead(entry, all, 1);
    HeaderWordRead(entry, all, 2);
    HeaderWordRead(entry, all, 3);
    HeaderHalfRead(entry, all, 1);
    HeaderHalfRead(entry, all, 2);
    HeaderHalfRead(entry, all, 3);
    HeaderHalfRead(entry, all, 4);
    HeaderHalfRead(entry, all, 5);
  }

  lemma HeaderFits(entry: nat, all: seq<Content>, i: nat)
    requires Aligned(all) && Packable(entry, all)
    ensures i < 5 ==> HeaderWords(entry, all)[i] < Radix(4)
    ensures i < 6 ==> HeaderHalves(all)[i] < Radix(2)
  {
    RadixOf4();
    assert i < 5 ==> HeaderWords(entry, all)[i] in HeaderWords(entry, all);
    assert i < 6 ==> HeaderHalves(all)[i] in HeaderHalves(all);
  }

  lemma HeaderWordRead(entry: nat, all: seq<Content>, i: nat)
    requires Aligned(all) && Packable(entry, all) && i < 5
    ensures Number(Image(entry, all), 20 + 4 * i, 4) == HeaderWords(entry, all)[i]
  {
    hide *;
    HeaderFits(entry, all, i);
    HeaderPieces(entry, all);
    NumberOfPacked(Image(entry, all), 20, HeaderWords(entry, all), 4, i);
  }

  lemma HeaderHalfRead(entry: nat, all: seq<Content>, i: nat)
    requires Aligned(all) && Packable(entry, all) && i < 6
    ensures Number(Image(entry, all), 40 + 2 * i, 2) == HeaderHalves(all)[i]
  {
    hide *;
    HeaderFits(entry, all, i);
    HeaderPieces(entry, all);
    NumberOfPacked(Image(entry, all), 40, HeaderHalves(all), 2, i);
  }

  lemma HeaderPieces(entry: nat, all: seq<Content>)
    requires Aligned(all)
    ensures StoredAt(Image(entry, all), 20, Pack(HeaderWords(entry, all), 4))
    ensures StoredAt(Image(entry, all), 40, Pack(HeaderHalves(all), 2))
  {
    hide Image;
    hide Pack;
    ImageParts(entry, all);
    PackLength([2, 8], 2);
    PackLength(HeaderWords(entry, all), 4);
    PackLength(HeaderHalves(all), 2);
    var a, b, c, d := IDENT, Pack([2, 8], 2), Pack(HeaderWords(entry, all), 4), Pack(HeaderHalves(all), 2);
    var header := a + b + c + d;
    assert header == Header(entry, all);
    assert StoredAt(header, 20, c) && StoredAt(header, 40, d);
    StoredWithin(Image(entry, all), 0, header, 20, c);
    StoredWithin(Image(entry, all), 0, header, 40, d);
  }

  lemma SectionRowIs(all: seq<Content>, k: nat)
    requires Aligned(all) && k < |all|
    ensures SectionRows(all, |all|)[k + 1] == Pack(SectionFields(all, k), 4)
  {
  }

  lemma SegmentRowIs(all: seq<Content>, j: nat)
    requires Aligned(all) && j < |LoadedIndices(all)|
    ensures SegmentRows(all, |LoadedIndices(all)|)[j] == Pack(SegmentFields(all, j), 4)
  {
  }

  lemma RowOffsets(table: nat, i: nat)
    ensures RowOffset(table, i, 40) == table + 40 * i
    ensures RowOffset(table, i, 32) == table + 32 * i
  {
  }

  /** The words of section header k + 1 and of program header j. */
  lemma SectionFieldsRead(entry: nat, all: seq<Content>, k: nat, f: nat)
    requires Aligned(all) && Packable(entry, all) && k < |all| && f < 10
    ensures SectionField(Image(entry, all), k + 1, f) == SectionFields(all, k)[f]
  {
    hide *;
    var image, rows, table := Image(entry, all), SectionRows(all, |all|), TableOffset(all);
    SectionFieldsFit(entry, all, k, f);
    HeaderRead(entry, all);
    RowOffsets(table, k + 1);
    SectionRowIs(all, k);
    SectionFieldIs(image, k + 1, f);
    ImageParts(entry, all);
    RowLengths(all, 0, |all|);
    RowStored(rows, 40, k + 1);
    StoredWithin(image, table, Concat(rows), 40 * (k + 1), rows[k + 1]);
    NumberOfPacked(image, table + 40 * (k + 1), SectionFields(all, k), 4, f);
  }

  lemma SectionFieldIs(image: seq<byte>, i: nat, f: nat)
    ensures SectionField(image, i, f)
         == Number(image, RowOffset(SectionTableOffset(image), i, SectionHeaderSize(image)) + 4 * f, 4)
    ensures SegmentField(image, i, f)
         == Number(image, RowOffset(ProgramHeaderOffset(image), i, ProgramHeaderSize(image)) + 4 * f, 4)
  {
  }

  lemma SegmentFieldsRead(entry: nat, all: seq<Content>, j: nat, f: nat)
    requires Aligned(all) && Packable(entry, all) && j < |LoadedIndices(all)| && f < 8
    ensures SegmentField(Image(entry, all), j, f) == SegmentFields(all, j)[f]
  {
    hide *;
    var image, rows := Image(entry, all), SegmentRows(all, |LoadedIndices(all)|);
    SegmentFieldsFit(entry, all, j, f);
    HeaderRead(entry, all);
    RowOffsets(52, j);
    SegmentRowIs(all, j);
    SectionFieldIs(image, j, f);
    ImageParts(entry, all);
    RowLengths(all, |LoadedIndices(all)|, 0);
    RowStored(rows, 32, j);
    StoredWithin(image, 52, Concat(rows), 32 * j, rows[j]);
    NumberOfPacked(image, 52 + 32 * j, SegmentFields(all, j), 4, f);
  }

  lemma SectionFieldsFit(entry: nat, all: seq<Content>, k: nat, f: nat)
    requires Aligned(all) && Packable(entry, all) && k < |all| && f < 10
    ensures SectionFields(all, k)[f] < Radix(4) == WORD
  {
    RadixOf4();
    assert SectionFields(all, k)[f] in SectionFields(all, k);
  }

  lemma SegmentFieldsFit(entry: nat, all: seq<Content>, j: nat, f: nat)
    requires Aligned(all) && Packable(entry, all) && j < |LoadedIndices(all)| && f < 8
    ensures SegmentFields(all, j)[f] < Radix(4)
  {
    var k := LoadedIndices(all)[j];
    SectionFieldsFit(entry, all, k, 3);
    SectionFieldsFit(entry, all, k, 4);
    SectionFieldsFit(entry, all, k, 5);
    SectionFieldsFit(entry, all, k, 8);
    assert |all[k].Stored()| <= all[k].Size();
  }
}
