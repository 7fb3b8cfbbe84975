/** The method that builds the file: scripts/psx_exe_to_elf.py, `build_elf`. */
module ElfBuilder {
  import opened Bytes
  import opened Tables
  import opened Wrappers
  import opened ElfImage

  /** The values of section objects. */
  ghost function Values(sections: seq<Section>): (values: seq<Content>)
    reads sections
    ensures |values| == |sections|
  {
    seq(|sections|, i requires 0 <= i < |sections| reads sections => sections[i].Value())
  }

  /** Section objects that describe `all`, of which the first k have been given their place. */
  ghost predicate Placed(sections: seq<Section>, all: seq<Content>, k: nat)
    requires k <= |all| && Aligned(all)
    reads sections
  {
    && |sections| == |all|
    && (forall i :: 0 <= i < |all| ==>
          sections[i].Value() == if i < k then all[i].(noBitsSize := all[i].Size()) else all[i])
    && (forall i :: 0 <= i < k ==> sections[i].offset == Offset(Base(all), all, i))
  }

  ghost predicate NoAliases(sections: seq<Section>) {
    forall i, j :: 0 <= i < j < |sections| ==> sections[i] != sections[j]
  }

  method NameTableOf(sections: seq<Section>) returns (table: seq<byte>, offsets: seq<nat>)
    ensures table == NameTable(NamesOf(Values(sections)) + [".shstrtab"])
    ensures |offsets| == |sections| + 1
    ensures forall k :: 0 <= k <= |sections| ==>
              offsets[k] == NameOffset(NamesOf(Values(sections)) + [".shstrtab"], k)
  {
    ghost var names := NamesOf(Values(sections)) + [".shstrtab"];
    table := [0];
    offsets := [];
    for i := 0 to |sections|
      invariant table == NameTable(names[..i]) && |offsets| == i
      invariant forall k :: 0 <= k < i ==> offsets[k] == NameOffset(names, k)
    {
      offsets := offsets + [|table|];
      table := table + (AsciiBytes(sections[i].name) + [0]);
      assert names[..i + 1][..i] == names[..i];
    }
    offsets := offsets + [|table|];
    table := table + (AsciiBytes(".shstrtab") + [0]);
    assert names[..|sections| + 1] == names;
  }

  /** One round of the layout loop: pad, record where the section starts, append what it stores. */
  method PlaceSection(section: Section, image: seq<byte>) returns (after: seq<byte>)
    requires section.alignment > 0
    modifies section
    ensures section.offset == |image| + Padding(|image|, section.alignment)
    ensures section.Value() == old(section.Value()).(noBitsSize := old(section.Value()).Size())
    ensures after == image + Zeros(Padding(|image|, section.alignment)) + old(section.Value()).Stored()
  {
    after := image + Zeros(Padding(|image|, section.alignment));
    section.offset := |after|;
    if section.sectionType != SHT_NOBITS {
      section.size := |section.data|;
      after := after + section.data;
    }
  }

  lemma LayoutStep(image: seq<byte>, base: nat, all: seq<Content>, k: nat)
    requires k < |all| && Aligned(all) && |image| == base
    ensures all[k].alignment > 0
    ensures var before := image + Layout(base, all, k);
            && |before| + Padding(|before|, all[k].alignment) == Offset(base, all, k)
            && before + Zeros(Padding(|before|, all[k].alignment)) + all[k].Stored() == image + Layout(base, all, k + 1)
  {
    var layout := Layout(base, all, k);
    var padding := Zeros(Padding(|image + layout|, all[k].alignment));
    Associate(image, layout, padding);
    Associate(image, layout + padding, all[k].Stored());
  }

  /** Placing one section leaves the others, no two of them being the same object. */
  method PlaceNext(sections: seq<Section>, i: nat, image: seq<byte>, ghost all: seq<Content>)
    returns (after: seq<byte>)
    requires Aligned(all) && NoAliases(sections) && i < |all| && Placed(sections, all, i)
    requires |image| + Padding(|image|, all[i].alignment) == Offset(Base(all), all, i)
    modifies sections
    ensures Placed(sections, all, i + 1)
    ensures after == image + Zeros(Padding(|image|, all[i].alignment)) + all[i].Stored()
  {
    hide Offset;
    assert sections[i].Value() == all[i];
    after := PlaceSection(sections[i], image);
    forall j | 0 <= j < |all| && j != i
      ensures sections[j].Value() == old(sections[j].Value()) && sections[j].offset == old(sections[j].offset)
    {
      assert sections[j] in sections && sections[j] != sections[i];
    }
  }

  method PlaceSections(sections: seq<Section>, image: seq<byte>, ghost all: seq<Content>) returns (after: seq<byte>)
    requires Aligned(all) && NoAliases(sections) && Placed(sections, all, 0) && |image| == Base(all)
    modifies sections
    ensures Placed(sections, all, |all|)
    ensures after == image + Layout(Base(all), all, |all|)
  {
    hide Layout;
    after := image;
    LayoutStart(image, all);
    for i := 0 to |sections|
      invariant Placed(sections, all, i)
      invariant after == image + Layout(Base(all), all, i)
    {
      LayoutStep(image, Base(all), all, i);
      after := PlaceNext(sections, i, after, all);
    }
  }

  lemma LayoutStart(image: seq<byte>, all: seq<Content>)
    requires Aligned(all)
    ensures image + Layout(Base(all), all, 0) == image
  {
  }

  lemma SectionRowsMore(all: seq<Content>, k: nat)
    requires Aligned(all) && k < |all|
    ensures SectionRows(all, k + 1) == SectionRows(all, k) + [Pack(SectionFields(all, k), 4)]
  {
    hide Pack;
    hide SectionFields;
    hide Zeros;
    hide Aligned;
  }

  lemma SectionRowsStep(all: seq<Content>, k: nat)
    requires Aligned(all) && k < |all|
    ensures Concat(SectionRows(all, k + 1)) == Concat(SectionRows(all, k)) + Pack(SectionFields(all, k), 4)
  {
    hide *;
    SectionRowsMore(all, k);
    ConcatMore(SectionRows(all, k), Pack(SectionFields(all, k), 4));
  }

  lemma SectionRowsStart(all: seq<Content>)
    requires Aligned(all)
    ensures Concat(SectionRows(all, 0)) == Zeros(40)
  {
    assert SectionRows(all, 0) == [Zeros(40)];
    assert [Zeros(40)][..0] == [];
    assert Concat([]) + Zeros(40) == Zeros(40);
  }

  method SectionHeader(s: Section, nameOffset: nat, ghost all: seq<Content>, ghost k: nat) returns (fields: seq<nat>)
    requires Aligned(all) && k < |all| && nameOffset == NameOffset(NamesOf(all), k)
    requires s.Value() == all[k].(noBitsSize := all[k].Size()) && s.offset == Offset(Base(all), all, k)
    ensures fields == SectionFields(all, k)
  {
    fields := [nameOffset, s.sectionType, s.flags, s.address, s.offset,
               s.size, s.link, s.info, s.alignment, s.entrySize];
    assert s.size == s.Value().noBitsSize;
  }

  method AppendSectionTable(image: seq<byte>, sections: seq<Section>, nameOffsets: seq<nat>, ghost all: seq<Content>)
    returns (r: Option<seq<byte>>)
    requires Aligned(all) && Placed(sections, all, |all|) && |nameOffsets| == |all|
    requires forall k :: 0 <= k < |all| ==> nameOffsets[k] == NameOffset(NamesOf(all), k)
    ensures r == if forall k | 0 <= k < |all| :: Fits(SectionFields(all, k), WORD)
                 then Some(image + Concat(SectionRows(all, |all|))) else None
  {
    hide Concat;
    hide Pack;
    hide SectionFields;
    hide SectionRows;
    hide Fits;
    hide Offset;
    hide NameOffset;
    var table := Zeros(40);
    SectionRowsStart(all);
    for k := 0 to |sections|
      invariant table == Concat(SectionRows(all, k))
      invariant forall i | 0 <= i < k :: Fits(SectionFields(all, i), WORD)
    {
      var fields := SectionHeader(sections[k], nameOffsets[k], all, k);
      if !Fits(fields, WORD) {
        return None;
      }
      SectionRowsStep(all, k);
      table := table + Pack(fields, 4);
    }
    r := Some(image + table);
  }

  method LoadSections(sections: seq<Section>, ghost values: seq<Content>) returns (load: seq<Section>)
    requires |values| == |sections| && forall i :: 0 <= i < |values| ==> sections[i].Value() == values[i]
    ensures |load| == |LoadedIndices(values)|
    ensures forall j :: 0 <= j < |load| ==> load[j] == sections[LoadedIndices(values)[j]]
  {
    load := [];
    for i := 0 to |sections|
      invariant |load| == |LoadedUpTo(values, i)|
      invariant forall j :: 0 <= j < |load| ==>
                  LoadedUpTo(values, i)[j] < i && load[j] == sections[LoadedUpTo(values, i)[j]]
    {
      if sections[i].flags / SHF_ALLOC % 2 == 1 {
        load := load + [sections[i]];
      }
    }
  }

  lemma PatchZeros(before: seq<byte>, row: seq<byte>, n: nat, after: seq<byte>)
    requires |row| <= n
    ensures Patched(before + Zeros(n) + after, |before|, row) == before + row + Zeros(n - |row|) + after
  {
  }

  lemma SegmentRowsMore(all: seq<Content>, j: nat)
    requires Aligned(all) && j < |LoadedIndices(all)|
    ensures SegmentRows(all, j + 1) == SegmentRows(all, j) + [Pack(SegmentFields(all, j), 4)]
  {
    hide Pack;
    hide SegmentFields;
    hide LoadedIndices;
    hide Aligned;
  }

  lemma SegmentRowsStep(all: seq<Content>, j: nat)
    requires Aligned(all) && j < |LoadedIndices(all)|
    ensures Concat(SegmentRows(all, j + 1)) == Concat(SegmentRows(all, j)) + Pack(SegmentFields(all, j), 4)
  {
    hide *;
    SegmentRowsMore(all, j);
    ConcatMore(SegmentRows(all, j), Pack(SegmentFields(all, j), 4));
  }

  /** The object is the j-th loaded section, in its place. */
  ghost predicate LoadedSection(s: Section, all: seq<Content>, j: nat)
    requires Aligned(all)
    reads s
  {
    && j < |LoadedIndices(all)|
    && var k := LoadedIndices(all)[j];
       s.Value() == all[k].(noBitsSize := all[k].Size()) && s.offset == Offset(Base(all), all, k)
  }

  method ProgramHeader(s: Section, ghost all: seq<Content>, ghost j: nat) returns (fields: seq<nat>)
    requires Aligned(all) && LoadedSection(s, all, j)
    ensures fields == SegmentFields(all, j)
  {
    var flags := 4;
    if s.flags / SHF_WRITE % 2 == 1 {
      flags := flags + 2;
    }
    if s.flags / SHF_EXECINSTR % 2 == 1 {
      flags := flags + 1;
    }
    fields := [1, s.offset, s.address, s.address,
               if s.sectionType == SHT_NOBITS then 0 else s.size, s.size, flags, s.alignment];
    assert s.size == s.Value().noBitsSize;
  }

  /** Program headers are packed into the space left for them. */
  method PatchSegments(image: seq<byte>, load: seq<Section>, ghost all: seq<Content>,
                       ghost header: seq<byte>, ghost body: seq<byte>)
    returns (after: seq<byte>)
    requires Aligned(all) && |header| == 52
    requires |load| == |LoadedIndices(all)| && forall j :: 0 <= j < |load| ==> LoadedSection(load[j], all, j)
    requires image == header + Zeros(32 * |load|) + body
    ensures after == header + Concat(SegmentRows(all, |load|)) + body
  {
    hide Concat;
    hide Pack;
    hide SegmentFields;
    hide SegmentRows;
    hide Patched;
    hide LoadedSection;
    hide LoadedIndices;
    after := image;
    SegmentRowsStart(all, header);
    for j := 0 to |load|
      invariant after == header + Concat(SegmentRows(all, j)) + Zeros(32 * (|load| - j)) + body
    {
      var row := ProgramHeader(load[j], all, j);
      PackLength(row, 4);
      RowLengths(all, j, 0);
      PatchZeros(header + Concat(SegmentRows(all, j)), Pack(row, 4), 32 * (|load| - j), body);
      SegmentRowsStep(all, j);
      Associate(header, Concat(SegmentRows(all, j)), Pack(row, 4));
      after := Patched(after, 52 + j * 32, Pack(row, 4));
    }
    NoZeros(header + Concat(SegmentRows(all, |load|)), body);
  }

  lemma SegmentRowsStart(all: seq<Content>, header: seq<byte>)
    requires Aligned(all)
    ensures header + Concat(SegmentRows(all, 0)) == header
  {
  }

  lemma NoZeros(before: seq<byte>, after: seq<byte>)
    ensures before + Zeros(0) + after == before + after
  {
  }

  /** The appended name table is not loaded and does not move the others. */
  lemma NameTableIsNotLoaded(sections: seq<Content>)
    ensures LoadedIndices(WithNameTable(sections)) == LoadedIndices(sections)
  {
    LoadedPrefix(sections, WithNameTable(sections), |sections|);
  }

  lemma {:induction false} LoadedPrefix(sections: seq<Content>, all: seq<Content>, k: nat)
    requires k <= |sections| && sections <= all
    ensures LoadedUpTo(all, k) == LoadedUpTo(sections, k)
  {
    if k > 0 {
      LoadedPrefix(sections, all, k - 1);
    }
  }

  lemma PatchHeader(header: seq<byte>, n: nat, body: seq<byte>)
    requires |header| == 52
    ensures Patched(Zeros(52 + n) + body, 0, header) == header + Zeros(n) + body
  {
  }

  lemma BodyIs(all: seq<Content>, front: seq<byte>)
    requires Aligned(all) && |front| == Base(all)
    ensures var layout := front + Layout(Base(all), all, |all|);
            && |layout| + Padding(|layout|, 4) == TableOffset(all)
            && layout + Zeros(Padding(|layout|, 4)) + Concat(SectionRows(all, |all|)) == front + Body(all)
  {
    hide Layout;
    hide Concat;
    hide SectionRows;
    hide LoadedIndices;
    AssociateFour(front, Layout(Base(all), all, |all|), Zeros(Padding(Base(all) + |Layout(Base(all), all, |all|)|, 4)),
                  Concat(SectionRows(all, |all|)));
  }

  method FileHeader(entry: nat, tableOffset: nat, segments: nat, sections: nat, ghost all: seq<Content>)
    returns (r: Option<seq<byte>>)
    requires Aligned(all) && tableOffset == TableOffset(all)
    requires segments == |LoadedIndices(all)| && sections == |all|
    ensures r == if Fits(HeaderWords(entry, all), WORD) && Fits(HeaderHalves(all), HALF)
                 then Some(Header(entry, all)) else None
  {
    hide TableOffset;
    var words := [1, entry, 52, tableOffset, 0x1001];
    var halves := [52, 32, segments, 40, sections + 1, sections];
    assert words == HeaderWords(entry, all) && halves == HeaderHalves(all);
    if !Fits(words, WORD) || !Fits(halves, HALF) {
      return None;
    }
    r := Some(IDENT + Pack([2, 8], 2) + Pack(words, 4) + Pack(halves, 2));
  }

  /** Everything behind the headers, which are left blank. */
  method LayOut(list: seq<Section>, segments: nat, nameOffsets: seq<nat>, ghost all: seq<Content>)
    returns (r: Option<seq<byte>>, tableOffset: nat)
    requires Aligned(all) && NoAliases(list) && Placed(list, all, 0) && segments == |LoadedIndices(all)|
    requires |nameOffsets| == |all| && forall k :: 0 <= k < |all| ==> nameOffsets[k] == NameOffset(NamesOf(all), k)
    modifies list
    ensures Placed(list, all, |all|) && tableOffset == TableOffset(all)
    ensures r == if forall k | 0 <= k < |all| :: Fits(SectionFields(all, k), WORD)
                 then Some(Zeros(52 + 32 * segments) + Body(all)) else None
  {
    hide Layout;
    hide Concat;
    hide Body;
    hide SectionRows;
    hide SectionFields;
    hide LoadedIndices;
    hide NameOffset;
    var image := Zeros(52 + 32 * segments);
    BodyIs(all, image);
    image := PlaceSections(list, image, all);
    image := image + Zeros(Padding(|image|, 4));
    tableOffset := |image|;
    r := AppendSectionTable(image, list, nameOffsets, all);
  }

  /** Layout, section table and headers. */
  method Assemble(entry: nat, list: seq<Section>, load: seq<Section>, nameOffsets: seq<nat>, ghost all: seq<Content>)
    returns (r: Result<seq<byte>, Error>)
    requires Aligned(all) && NoAliases(list) && Placed(list, all, 0)
    requires |load| == |LoadedIndices(all)|
    requires forall j :: 0 <= j < |load| ==> load[j] == list[LoadedIndices(all)[j]]
    requires |nameOffsets| == |all| && forall k :: 0 <= k < |all| ==> nameOffsets[k] == NameOffset(NamesOf(all), k)
    modifies list
    ensures r == if Packable(entry, all) then Success(Image(entry, all)) else Failure(FieldOutOfRange)
  {
    hide NameOffset;
    hide Body;
    hide SegmentRows;
    hide SectionFields;
    hide Concat;
    hide Fits;
    hide Patched;
    hide Header;
    hide LoadedIndices;
    hide Layout;
    hide Offset;
    hide TableOffset;
    hide HeaderHalves;
    hide HeaderWords;
    var blank, tableOffset := LayOut(list, |load|, nameOffsets, all);
    if blank.None? {
      return Failure(FieldOutOfRange);
    }
    var header := FileHeader(entry, tableOffset, |load|, |list|, all);
    if header.None? {
      return Failure(FieldOutOfRange);
    }
    HeaderLength(entry, all);
    PatchHeader(header.value, 32 * |load|, Body(all));
    var image := Patched(blank.value, 0, header.value);
    image := PatchSegments(image, load, all, header.value, Body(all));
    r := Success(image);
  }

  method BuildElf(entry: nat, sections: seq<Section>) returns (r: Result<seq<byte>, Error>)
    requires NoAliases(sections)
    modifies sections
    ensures r == Built(entry, old(Values(sections)))
  {
    hide NameTable;
    hide Layout;
    hide Image;
    hide Packable;
    hide IsAscii;
    hide NamesOf;
    hide NameOffset;
    hide LoadedIndices;
    hide WithNameTable;
    ghost var values := Values(sections);
    ghost var all := WithNameTable(values);
    assert forall k :: 0 <= k < |sections| ==> values[k].name == sections[k].name;
    if k :| 0 <= k < |sections| && !IsAscii(sections[k].name) {
      assert !IsAscii(values[k].name);
      return Failure(NameNotAscii);
    }
    NameTableIsNotLoaded(values);
    var load := LoadSections(sections, values);
    var list, nameOffsets := AppendNameTable(sections, values);
    assert forall k :: 0 <= k < |sections| ==> values[k].alignment == sections[k].alignment;
    if k :| 0 <= k < |list| && list[k].alignment == 0 {
      assert values[k].alignment == 0;
      return Failure(ZeroAlignment);
    }
    assert forall k :: 0 <= k < |sections| ==> list[k] == sections[k];
    AlignedWithTable(values);
    r := Assemble(entry, list, load, nameOffsets, all);
  }

  lemma AlignedWithTable(values: seq<Content>)
    requires Aligned(values)
    ensures Aligned(WithNameTable(values))
  {
    hide NameTable;
  }

  /** The name table becomes one more section of the list. */
  method AppendNameTable(sections: seq<Section>, ghost values: seq<Content>)
    returns (list: seq<Section>, nameOffsets: seq<nat>)
    requires NoAliases(sections) && values == Values(sections)
    ensures NoAliases(list) && |list| == |sections| + 1 && fresh(list[|sections|]) && list[..|sections|] == sections
    ensures list[|sections|].alignment == 1
    ensures var all := WithNameTable(values);
            && |list| == |all| == |nameOffsets|
            && (forall k :: 0 <= k < |all| ==> list[k].Value() == all[k])
            && (forall k :: 0 <= k < |all| ==> nameOffsets[k] == NameOffset(NamesOf(all), k))
  {
    hide NameTable;
    hide NameOffset;
    var names;
    names, nameOffsets := NameTableOf(sections);
    NamesWithTable(values);
    var shstrtab := new Section(Content(".shstrtab", SHT_STRTAB, 0, 0, names, 0, 0, 0, 1, 0));
    list := sections + [shstrtab];
  }

  lemma NamesWithTable(values: seq<Content>)
    ensures NamesOf(WithNameTable(values)) == NamesOf(values) + [".shstrtab"]
  {
    hide NameTable;
    assert WithNameTable(values)[..|values|] == values;
  }
}
