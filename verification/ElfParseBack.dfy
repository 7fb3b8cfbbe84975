/** What a reader recovers from a built file: every section in order, and the memory image. */
module ElfParseBack {
  import opened Bytes
  import opened Tables
  import opened ElfImage
  import opened ElfReader

  // ---------------------------------------------------------------- names

  ghost predicate ReadableName(name: string) {
    IsAscii(name) && forall c | c in name :: c as int != 0
  }

  lemma {:induction false} NameStored(names: seq<string>, k: nat, n: nat)
    requires k < n <= |names|
    ensures StoredAt(NameTable(names[..n]), NameOffset(names, k), AsciiBytes(names[k]) + [0])
    decreases n
  {
    var before := NameTable(names[..n - 1]);
    var last := AsciiBytes(names[n - 1]) + [0];
    assert names[..n][..n - 1] == names[..n - 1];
    if k == n - 1 {
      AppendedStored(before, last);
    } else {
      NameStored(names, k, n - 1);
      StoredInPrefix(before, last, NameOffset(names, k), AsciiBytes(names[k]) + [0]);
    }
  }

  lemma NameFound(table: seq<byte>, offset: nat, name: string)
    requires StoredAt(table, offset, AsciiBytes(name) + [0]) && ReadableName(name)
    ensures NameAt(table, offset) == AsciiBytes(name)
  {
    var rest := table[offset..];
    var text := AsciiBytes(name);
    assert text + [0] == table[offset..offset + |text| + 1] == rest[..|text| + 1];
    assert rest[..|text|] == (text + [0])[..|text|] == text;
    assert rest[|text|] == (text + [0])[|text|];
    assert forall i :: 0 <= i < |name| ==> name[i] in name && text[i] != 0;
    TextLengthUnique(rest, |text|);
  }

  /** The name table holds the names of all sections, its own included. */
  lemma NameTableComplete(sections: seq<Content>)
    ensures var all := WithNameTable(sections);
            && all[|sections|].Stored() == NameTable(NamesOf(all))
            && all[|sections|].sectionType == SHT_STRTAB
            && forall k :: 0 <= k < |sections| ==> all[k] == sections[k]
  {
    var all := WithNameTable(sections);
    assert NamesOf(all) == NamesOf(sections) + [".shstrtab"];
  }

  // ---------------------------------------------------------------- sections

  function ViewOf(c: Content): SectionView {
    SectionView(AsciiBytes(c.name), c.sectionType, c.flags, c.address, c.Stored(), c.Size(),
                c.link, c.info, c.alignment, c.entrySize)
  }

  lemma SectionFieldsAre(all: seq<Content>, k: nat)
    requires Aligned(all) && k < |all|
    ensures SectionFields(all, k) == [NameOffset(NamesOf(all), k), all[k].sectionType, all[k].flags, all[k].address,
                                      Offset(Base(all), all, k), all[k].Size(), all[k].link, all[k].info,
                                      all[k].alignment, all[k].entrySize]
  {
  }

  lemma ContentIs(image: seq<byte>, i: nat, c: Content)
    requires SectionField(image, i, 1) == c.sectionType && SectionField(image, i, 5) == c.Size()
    requires StoredAt(image, SectionField(image, i, 4), c.Stored())
    ensures ReadContent(image, i) == c.Stored()
  {
    hide SectionField;
  }

  lemma ContentRead(entry: nat, all: seq<Content>, k: nat)
    requires Aligned(all) && Packable(entry, all) && k < |all|
    ensures ReadContent(Image(entry, all), k + 1) == all[k].Stored()
  {
    hide *;
    SectionFieldsAre(all, k);
    SectionFieldsRead(entry, all, k, 1);
    SectionFieldsRead(entry, all, k, 4);
    SectionFieldsRead(entry, all, k, 5);
    DataStored(entry, all, k);
    ContentIs(Image(entry, all), k + 1, all[k]);
  }

  lemma ReadSectionIs(image: seq<byte>, i: nat)
    ensures ReadSection(image, i) ==
            SectionView(NameAt(ReadContent(image, NameTableIndex(image)), SectionField(image, i, 0)),
                        SectionField(image, i, 1), SectionField(image, i, 2), SectionField(image, i, 3),
                        ReadContent(image, i), SectionField(image, i, 5), SectionField(image, i, 6),
                        SectionField(image, i, 7), SectionField(image, i, 8), SectionField(image, i, 9))
  {
    hide NameAt;
    hide ReadContent;
    hide SectionField;
  }

  lemma ViewIs(c: Content)
    ensures ViewOf(c) == SectionView(AsciiBytes(c.name), c.sectionType, c.flags, c.address, c.Stored(), c.Size(),
                                     c.link, c.info, c.alignment, c.entrySize)
  {
  }

  lemma SectionRead(entry: nat, all: seq<Content>, k: nat)
    requires Aligned(all) && Packable(entry, all) && k < |all|
    requires NameAt(ReadContent(Image(entry, all), NameTableIndex(Image(entry, all))), NameOffset(NamesOf(all), k))
          == AsciiBytes(all[k].name)
    ensures ReadSection(Image(entry, all), k + 1) == ViewOf(all[k])
  {
    hide *;
    SectionFieldsAre(all, k);
    SectionFieldsRead(entry, all, k, 0);
    SectionFieldsRead(entry, all, k, 1);
    SectionFieldsRead(entry, all, k, 2);
    SectionFieldsRead(entry, all, k, 3);
    SectionFieldsRead(entry, all, k, 5);
    SectionFieldsRead(entry, all, k, 6);
    SectionFieldsRead(entry, all, k, 7);
    SectionFieldsRead(entry, all, k, 8);
    SectionFieldsRead(entry, all, k, 9);
    ContentRead(entry, all, k);
    ReadSectionIs(Image(entry, all), k + 1);
    ViewIs(all[k]);
  }

  lemma NameRead(entry: nat, sections: seq<Content>, all: seq<Content>, k: nat)
    requires all == WithNameTable(sections) && Aligned(all) && Packable(entry, all)
    requires k < |all| && ReadableName(all[k].name)
    ensures NameAt(ReadContent(Image(entry, all), NameTableIndex(Image(entry, all))), NameOffset(NamesOf(all), k))
         == AsciiBytes(all[k].name)
  {
    hide *;
    HeaderRead(entry, all);
    NameTableComplete(sections);
    ContentRead(entry, all, |sections|);
    NamesAre(all, k);
    NameStored(NamesOf(all), k, |all|);
    NameFound(NameTable(NamesOf(all)), NameOffset(NamesOf(all), k), all[k].name);
  }

  lemma NamesAre(all: seq<Content>, k: nat)
    requires k < |all|
    ensures NamesOf(all)[k] == all[k].name && NamesOf(all)[..|all|] == NamesOf(all)
  {
  }

  lemma BuiltIs(entry: nat, sections: seq<Content>)
    requires Built(entry, sections).Success?
    ensures var all := WithNameTable(sections);
            Aligned(all) && Packable(entry, all) && Built(entry, sections).value == Image(entry, all)
    ensures forall k :: 0 <= k < |sections| ==> IsAscii(sections[k].name)
    ensures ReadableName(WithNameTable(sections)[|sections|].name)
  {
    hide Image;
    hide Packable;
  }

  /** A reader that starts from the file header finds as many sections as were written, after one
      null section, each with its own name, type, flags, address, size, links and contents. */
  lemma ParseBack(entry: nat, sections: seq<Content>, k: nat)
    requires Built(entry, sections).Success? && k <= |sections|
    requires k < |sections| ==> ReadableName(sections[k].name)
    ensures var image := Built(entry, sections).value;
            && EntryPoint(image) == entry
            && SectionCount(image) == |sections| + 2
            && ReadSection(image, k + 1) == ViewOf(WithNameTable(sections)[k])
  {
    hide *;
    var all := WithNameTable(sections);
    BuiltIs(entry, sections);
    NameTableComplete(sections);
    HeaderRead(entry, all);
    NameRead(entry, sections, all, k);
    SectionRead(entry, all, k);
  }

  // ---------------------------------------------------------------- memory

  /** What loading a section puts into memory. */
  function ContentMemory(c: Content): Memory {
    map a: nat | c.address <= a < c.address + c.Size() && Within(a, c.address, c.Size()) ::
      if a - c.address < |c.Stored()| then c.Stored()[a - c.address] else 0
  }

  function LoadedMemory(all: seq<Content>, n: nat): Memory
    requires n <= |LoadedIndices(all)|
  {
    if n == 0 then map[] else LoadedMemory(all, n - 1) + ContentMemory(all[LoadedIndices(all)[n - 1]])
  }

  lemma SegmentMemoryIs(image: seq<byte>, offset: nat, c: Content)
    requires StoredAt(image, offset, c.Stored())
    ensures SegmentMemory(image, offset, c.address, |c.Stored()|, c.Size()) == ContentMemory(c)
  {
    assert forall i :: 0 <= i < |c.Stored()| ==> image[offset + i] == c.Stored()[i];
  }

  lemma SegmentFieldsAre(all: seq<Content>, j: nat)
    requires Aligned(all) && j < |LoadedIndices(all)|
    ensures var k := LoadedIndices(all)[j];
            var fields := SegmentFields(all, j);
            && fields[0] == 1 && fields[1] == Offset(Base(all), all, k) && fields[2] == all[k].address
            && fields[4] == |all[k].Stored()| && fields[5] == all[k].Size()
  {
  }

  lemma LoadStep(image: seq<byte>, j: nat, c: Content)
    requires SegmentField(image, j, 0) == 1 && SegmentField(image, j, 2) == c.address
    requires SegmentField(image, j, 4) == |c.Stored()| && SegmentField(image, j, 5) == c.Size()
    requires StoredAt(image, SegmentField(image, j, 1), c.Stored())
    ensures LoadUpTo(image, j + 1) == LoadUpTo(image, j) + ContentMemory(c)
  {
    hide ContentMemory;
    hide SegmentField;
    hide SegmentMemory;
    SegmentMemoryIs(image, SegmentField(image, j, 1), c);
  }

  lemma LoadSegment(entry: nat, all: seq<Content>, j: nat)
    requires Aligned(all) && Packable(entry, all) && j < |LoadedIndices(all)|
    ensures LoadUpTo(Image(entry, all), j + 1) ==
              LoadUpTo(Image(entry, all), j) + ContentMemory(all[LoadedIndices(all)[j]])
  {
    hide *;
    SegmentFieldsRead(entry, all, j, 0);
    SegmentFieldsRead(entry, all, j, 1);
    SegmentFieldsRead(entry, all, j, 2);
    SegmentFieldsRead(entry, all, j, 4);
    SegmentFieldsRead(entry, all, j, 5);
    SegmentFieldsAre(all, j);
    DataStored(entry, all, LoadedIndices(all)[j]);
    LoadStep(Image(entry, all), j, all[LoadedIndices(all)[j]]);
  }

  lemma LoadStarts(image: seq<byte>, all: seq<Content>, n: nat)
    requires n <= |LoadedIndices(all)|
    ensures LoadUpTo(image, 0) == map[] && LoadedMemory(all, 0) == map[]
    ensures n > 0 ==> LoadedMemory(all, n) == LoadedMemory(all, n - 1) + ContentMemory(all[LoadedIndices(all)[n - 1]])
  {
    hide ContentMemory;
  }

  /** Loading the segments of a built file is loading the sections that were to be loaded. */
  lemma {:induction false} LoadBack(entry: nat, all: seq<Content>, n: nat)
    requires Aligned(all) && Packable(entry, all) && n <= |LoadedIndices(all)|
    ensures LoadUpTo(Image(entry, all), n) == LoadedMemory(all, n)
  {
    hide *;
    LoadStarts(Image(entry, all), all, n);
    if n > 0 {
      LoadBack(entry, all, n - 1);
      LoadSegment(entry, all, n - 1);
    }
  }
}
