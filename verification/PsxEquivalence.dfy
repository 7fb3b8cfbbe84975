/** The converted file loads the same program as the input, under the two formats' own loaders. */
module PsxEquivalence {
  import opened Bytes
  import opened Tables
  import opened Wrappers
  import opened ElfImage
  import opened ElfReader
  import opened ElfParseBack
  import opened PsxConvert

  // ---------------------------------------------------------------- which sections are loaded

  /** When the loaded sections come first, they are exactly a prefix. */
  lemma {:induction false} LoadedIsPrefix(loaded: seq<Content>, rest: seq<Content>, k: nat)
    requires forall c | c in loaded :: c.Loaded()
    requires forall c | c in rest :: !c.Loaded()
    requires k <= |loaded| + |rest|
    ensures LoadedUpTo(loaded + rest, k) == seq(if k < |loaded| then k else |loaded|, i => i)
  {
    if k > 0 {
      LoadedIsPrefix(loaded, rest, k - 1);
      var c := (loaded + rest)[k - 1];
      assert if k <= |loaded| then c in loaded else c in rest;
    }
  }

  lemma AnalysisIsNotLoaded(data: seq<byte>, before: nat)
    requires |data| >= 0x800
    ensures forall c | c in AnalysisSections(data, before) :: !c.Loaded() && IsAscii(c.name) && c.alignment > 0
  {
    hide Concat;
    hide Pack;
    hide NameTable;
    hide SymbolRows;
    hide Number;
  }

  lemma TextAndBssAreLoaded(data: seq<byte>)
    requires Rejection(data).None?
    ensures forall c | c in [Text(data)] + BssSections(data) :: c.Loaded() && IsAscii(c.name) && c.alignment > 0
    ensures |BssSections(data)| <= 2
  {
    hide Number;
  }

  lemma LoadedSections(data: seq<byte>)
    requires Rejection(data).None?
    ensures var all := WithNameTable(Sections(data));
            var loaded := [Text(data)] + BssSections(data);
            && LoadedIndices(all) == seq(|loaded|, i => i)
            && loaded <= all
  {
    hide NameTable;
    hide Number;
    hide AnalysisSections;
    var all := WithNameTable(Sections(data));
    var loaded := [Text(data)] + BssSections(data);
    var last := all[|all| - 1];
    var rest := AnalysisSections(data, |loaded|) + [last];
    AnalysisIsNotLoaded(data, |loaded|);
    TextAndBssAreLoaded(data);
    assert all == loaded + rest;
    LoadedIsPrefix(loaded, rest, |all|);
  }

  // ---------------------------------------------------------------- memory

  function MemoryOf(sections: seq<Content>): Memory {
    if sections == [] then map[] else MemoryOf(sections[..|sections| - 1]) + ContentMemory(sections[|sections| - 1])
  }

  lemma {:induction false} LoadedMemoryIs(all: seq<Content>, loaded: seq<Content>, n: nat)
    requires loaded <= all && LoadedIndices(all) == seq(|loaded|, i => i) && n <= |loaded|
    ensures LoadedMemory(all, n) == MemoryOf(loaded[..n])
  {
    if n > 0 {
      LoadedMemoryIs(all, loaded, n - 1);
      assert loaded[..n][..n - 1] == loaded[..n - 1];
    }
  }

  /** An address is loaded if some section covers it, and what the last such section says counts. */
  lemma MemoryAt(sections: seq<Content>, a: nat)
    requires sections != []
    ensures var m, last := MemoryOf(sections[..|sections| - 1]), sections[|sections| - 1];
            && (a in MemoryOf(sections) <==> a in m || Covers(last, a))
            && (Covers(last, a) ==> MemoryOf(sections)[a] == ByteOf(last, a))
            && (!Covers(last, a) && a in m ==> MemoryOf(sections)[a] == m[a])
  {
    ContentMemoryAt(sections[|sections| - 1], a);
    hide ContentMemory;
  }

  predicate Covers(c: Content, a: nat) {
    c.address <= a < c.address + c.Size()
  }

  function ByteOf(c: Content, a: nat): byte
    requires Covers(c, a)
  {
    if a - c.address < |c.Stored()| then c.Stored()[a - c.address] else 0
  }

  lemma ContentMemoryAt(c: Content, a: nat)
    ensures a in ContentMemory(c) <==> Covers(c, a)
    ensures Covers(c, a) ==> ContentMemory(c)[a] == ByteOf(c, a)
  {
  }

  lemma PsxMemoryAt(data: seq<byte>, a: nat)
    requires Rejection(data).None?
    ensures a in PsxMemory(data) <==> BssAddress(data) <= a < BssEnd(data) || LoadAddress(data) <= a < PayloadEnd(data)
    ensures a in PsxMemory(data) ==>
              PsxMemory(data)[a]
                == if LoadAddress(data) <= a < PayloadEnd(data) then Payload(data)[a - LoadAddress(data)] else 0
  {
    hide Number;
  }

  lemma BssAt(data: seq<byte>, a: nat)
    requires Rejection(data).None?
    ensures |BssSections(data)| <= 2
    ensures (exists c | c in BssSections(data) :: Covers(c, a)) <==>
              BssAddress(data) <= a < BssEnd(data) && !(LoadAddress(data) <= a < PayloadEnd(data))
    ensures forall c | c in BssSections(data) && Covers(c, a) :: ByteOf(c, a) == 0
    ensures Covers(Text(data), a) <==> LoadAddress(data) <= a < PayloadEnd(data)
    ensures Covers(Text(data), a) ==> ByteOf(Text(data), a) == Payload(data)[a - LoadAddress(data)]
  {
    hide Number;
    var below := if BssEnd(data) < LoadAddress(data) then BssEnd(data) else LoadAddress(data);
    var above := if BssAddress(data) > PayloadEnd(data) then BssAddress(data) else PayloadEnd(data);
    if BssAddress(data) <= a < below {
      assert Covers(BssSections(data)[0], a);
    }
    if above <= a < BssEnd(data) {
      assert Covers(BssSections(data)[|BssSections(data)| - 1], a);
    }
  }

  lemma MemoryOfFew(sections: seq<Content>, a: nat)
    requires 1 <= |sections| <= 3
    ensures a in MemoryOf(sections) <==> exists c | c in sections :: Covers(c, a)
    ensures a in MemoryOf(sections) ==>
              exists c | c in sections && Covers(c, a) :: MemoryOf(sections)[a] == ByteOf(c, a)
  {
    MemoryAt(sections, a);
    if |sections| > 1 {
      var fewer := sections[..|sections| - 1];
      MemoryAt(fewer, a);
      if |sections| > 2 {
        MemoryAt(fewer[..|fewer| - 1], a);
      }
    }
    hide MemoryOf;
  }

  /** Clearing and then copying is the same as copying and then clearing around the copy, however the
      two ranges lie. */
  lemma SplitIsSame(data: seq<byte>)
    requires Rejection(data).None?
    ensures MemoryOf([Text(data)] + BssSections(data)) == PsxMemory(data)
  {
    hide *;
    var loaded := [Text(data)] + BssSections(data);
    forall a: nat
      ensures a in MemoryOf(loaded) <==> a in PsxMemory(data)
      ensures a in PsxMemory(data) ==> MemoryOf(loaded)[a] == PsxMemory(data)[a]
    {
      BssAt(data, a);
      PsxMemoryAt(data, a);
      MemoryOfFew(loaded, a);
      assert loaded[0] == Text(data) && Text(data) in loaded;
      assert forall c :: c in loaded <==> c == Text(data) || c in BssSections(data);
    }
  }

  /** The main result. Whatever the ranges of an accepted input, loading the converted file gives
      exactly the memory of the PS-X loader, address for address and byte for byte, and the same entry
      point. */
  lemma SameProgram(data: seq<byte>)
    requires Converted(data).Success?
    ensures LoadElf(Converted(data).value) == PsxMemory(data)
    ensures EntryPoint(Converted(data).value) == Entry(data)
  {
    hide *;
    ConvertedIs(data);
    var all := WithNameTable(Sections(data));
    var loaded := [Text(data)] + BssSections(data);
    HeaderRead(Entry(data), all);
    LoadedSections(data);
    LoadBack(Entry(data), all, |loaded|);
    LoadedMemoryIs(all, loaded, |loaded|);
    SplitIsSame(data);
    LoadElfIs(Converted(data).value);
    assert loaded[..|loaded|] == loaded;
  }

  lemma LoadElfIs(image: seq<byte>)
    ensures LoadElf(image) == LoadUpTo(image, SegmentCount(image))
  {
    hide LoadUpTo;
    hide SegmentCount;
  }

  lemma ConvertedIs(data: seq<byte>)
    requires Converted(data).Success?
    ensures Rejection(data).None? && Built(Entry(data), Sections(data)) == Converted(data)
    ensures var all := WithNameTable(Sections(data));
            Aligned(all) && Packable(Entry(data), all) && Converted(data).value == Image(Entry(data), all)
  {
    hide Image;
    hide Packable;
    hide Sections;
    BuiltIs(Entry(data), Sections(data));
  }

  ghost predicate NoOverlap(a: nat, sizeA: nat, b: nat, sizeB: nat) {
    a + sizeA <= b || b + sizeB <= a
  }

  lemma LoadedDisjoint(data: seq<byte>, i: nat, j: nat)
    requires Rejection(data).None?
    requires var loaded := [Text(data)] + BssSections(data); i < j < |loaded|
    ensures var loaded := [Text(data)] + BssSections(data);
            NoOverlap(loaded[i].address, loaded[i].Size(), loaded[j].address, loaded[j].Size())
  {
    hide Number;
  }

  lemma SegmentRange(all: seq<Content>, j: nat)
    requires Aligned(all) && j < |LoadedIndices(all)|
    ensures var s := all[LoadedIndices(all)[j]];
            SegmentFields(all, j)[2] == s.address && SegmentFields(all, j)[5] == s.Size()
  {
    hide LoadedIndices;
    hide Offset;
  }

  /** The segments of the converted file, as its program headers give them, never overlap in memory. */
  lemma SegmentsDisjoint(data: seq<byte>, i: nat, j: nat)
    requires Converted(data).Success? && i < j < SegmentCount(Converted(data).value)
    ensures var image := Converted(data).value;
            NoOverlap(SegmentField(image, i, 2), SegmentField(image, i, 5), SegmentField(image, j, 2),
                      SegmentField(image, j, 5))
  {
    hide *;
    ConvertedIs(data);
    var entry, all := Entry(data), WithNameTable(Sections(data));
    HeaderRead(entry, all);
    LoadedSections(data);
    forall k | k == i || k == j
      ensures var s := ([Text(data)] + BssSections(data))[k];
              && SegmentField(Image(entry, all), k, 2) == s.address
              && SegmentField(Image(entry, all), k, 5) == s.Size()
    {
      SegmentRange(all, k);
      SegmentFieldsRead(entry, all, k, 2);
      SegmentFieldsRead(entry, all, k, 5);
    }
    LoadedDisjoint(data, i, j);
  }

  // ---------------------------------------------------------------- which inputs are accepted

  /** Fields that do not depend on the layout and fit a word. */
  predicate SmallFields(c: Content) {
    && c.sectionType < WORD && c.flags < WORD && c.address < WORD && c.link < WORD && c.info < WORD
    && c.alignment < WORD && c.entrySize < WORD && (c.sectionType == SHT_NOBITS ==> c.noBitsSize < WORD)
  }

  lemma {:induction false} NameTableGrows(names: seq<string>, k: nat, n: nat)
    requires k <= n <= |names|
    ensures |NameTable(names[..k])| <= |NameTable(names[..n])|
    decreases n
  {
    if k < n {
      NameTableGrows(names, k, n - 1);
      assert names[..n][..n - 1] == names[..n - 1];
    }
  }

  lemma FieldsFit(sections: seq<Content>, all: seq<Content>, k: nat)
    requires all == WithNameTable(sections) && Aligned(all) && k < |all| && SmallFields(all[k])
    requires TableOffset(all) < WORD
    ensures Fits(SectionFields(all, k), WORD)
  {
    hide *;
    SectionFieldsAre(all, k);
    DataStored(0, all, k);
    DataStored(0, all, |sections|);
    NameTableComplete(sections);
    NamesAre(all, k);
    NameTableGrows(NamesOf(all), k, |all|);
    FitsIs(all, k);
  }

  lemma FitsIs(all: seq<Content>, k: nat)
    requires Aligned(all) && k < |all| && SmallFields(all[k])
    ensures (NameOffset(NamesOf(all), k) < WORD && Offset(Base(all), all, k) < WORD && |all[k].Stored()| < WORD)
            ==> Fits(SectionFields(all, k), WORD)
    ensures NameOffset(NamesOf(all), k) == |NameTable(NamesOf(all)[..k])|
    ensures WORD == 0x1_0000_0000
  {
    hide Offset;
    hide Base;
    hide NameTable;
  }

  /** With small fields, a section list can be packed exactly if the section table starts below 4 GiB. */
  lemma PackableIff(entry: nat, sections: seq<Content>, all: seq<Content>)
    requires all == WithNameTable(sections) && Aligned(all) && entry < WORD && |all| + 1 < HALF
    requires forall k :: 0 <= k < |all| ==> SmallFields(all[k])
    ensures Packable(entry, all) <==> TableOffset(all) < WORD
  {
    hide SectionFields;
    hide TableOffset;
    hide WithNameTable;
    hide LoadedIndices;
    hide HeaderWords;
    hide HeaderHalves;
    HeaderFitsIff(entry, all);
    if TableOffset(all) < WORD {
      forall k | 0 <= k < |all|
        ensures Fits(SectionFields(all, k), WORD)
      {
        FieldsFit(sections, all, k);
      }
    }
  }

  lemma HeaderFitsIff(entry: nat, all: seq<Content>)
    requires Aligned(all) && entry < WORD && |all| + 1 < HALF
    ensures Fits(HeaderWords(entry, all), WORD) <==> TableOffset(all) < WORD
    ensures Fits(HeaderHalves(all), HALF)
  {
    hide TableOffset;
    hide LoadedIndices;
    LoadedCount(all, |all|);
    assert HeaderWords(entry, all)[3] == TableOffset(all);
    assert HeaderWords(entry, all)[3] in HeaderWords(entry, all);
  }

  lemma {:induction false} LoadedCount(all: seq<Content>, k: nat)
    requires k <= |all|
    ensures |LoadedUpTo(all, k)| <= k
    ensures k == |all| ==> |LoadedIndices(all)| <= k
  {
    if k > 0 {
      LoadedCount(all, k - 1);
    }
  }

  lemma NumberFits(image: seq<byte>, offset: nat)
    ensures Number(image, offset, 4) < WORD
  {
    RadixOf4();
    if offset + 4 <= |image| {
      EncodeDecode(image[offset..offset + 4]);
    }
  }

  lemma AnalysisFieldsSmall(data: seq<byte>, before: nat)
    requires |data| >= 0x800 && before <= 3
    ensures forall c | c in AnalysisSections(data, before) :: SmallFields(c)
  {
    hide Concat;
    hide Pack;
    hide NameTable;
    hide SymbolRows;
    hide Number;
  }

  lemma LoadedFieldsSmall(data: seq<byte>)
    requires Rejection(data).None?
    ensures forall c | c in [Text(data)] + BssSections(data) :: SmallFields(c)
    ensures Entry(data) < WORD
  {
    NumberFits(data, 0x10);
    NumberFits(data, 0x18);
    NumberFits(data, 0x28);
    NumberFits(data, 0x2C);
    hide Number;
  }

  lemma SectionsAre(data: seq<byte>, all: seq<Content>)
    requires Rejection(data).None? && all == WithNameTable(Sections(data))
    ensures |data| >= 0x800
    ensures |all| == 6 + |BssSections(data)|
    ensures forall c :: c in all <==>
              || c in [Text(data)] + BssSections(data) || c in AnalysisSections(data, 1 + |BssSections(data)|)
              || c == all[|all| - 1]
    ensures SmallFields(all[|all| - 1]) && all[|all| - 1].alignment > 0 && IsAscii(all[|all| - 1].name)
  {
    hide NameTable;
    hide AnalysisSections;
    hide BssSections;
    hide Number;
    var rest := AnalysisSections(data, 1 + |BssSections(data)|);
    assert all == ([Text(data)] + BssSections(data)) + rest + [all[|all| - 1]];
  }

  lemma ConvertedFieldsSmall(data: seq<byte>)
    requires Rejection(data).None?
    ensures var all := WithNameTable(Sections(data));
            && |all| + 1 < HALF && Entry(data) < WORD
            && forall k :: 0 <= k < |all| ==> SmallFields(all[k]) && all[k].alignment > 0 && IsAscii(all[k].name)
  {
    hide WithNameTable;
    hide Sections;
    hide AnalysisSections;
    hide BssSections;
    hide Text;
    hide SmallFields;
    hide IsAscii;
    hide Number;
    var all := WithNameTable(Sections(data));
    SectionsAre(data, all);
    TextAndBssAreLoaded(data);
    LoadedFieldsSmall(data);
    AnalysisIsNotLoaded(data, 1 + |BssSections(data)|);
    AnalysisFieldsSmall(data, 1 + |BssSections(data)|);
    assert forall k :: 0 <= k < |all| ==> all[k] in all;
  }

  /** The section table of the file would start below 4 GiB. (Every alignment is positive.) */
  ghost predicate BelowFourGiB(data: seq<byte>)
    requires Rejection(data).None?
  {
    var all := WithNameTable(Sections(data));
    Aligned(all) && TableOffset(all) < WORD
  }

  lemma BelowFourGiBIs(data: seq<byte>, all: seq<Content>)
    requires Rejection(data).None? && all == WithNameTable(Sections(data)) && Aligned(all)
    ensures BelowFourGiB(data) <==> TableOffset(all) < WORD
  {
    hide Sections;
    hide TableOffset;
  }

  /** The converter accepts exactly the inputs that pass its checks and whose section table starts
      below 4 GiB. */
  lemma AcceptedIff(data: seq<byte>)
    ensures Converted(data).Success? <==> Rejection(data).None? && BelowFourGiB(data)
  {
    hide *;
    if Rejection(data).None? {
      var all := WithNameTable(Sections(data));
      ConvertedFieldsSmall(data);
      AlignedIf(all);
      PackableIff(Entry(data), Sections(data), all);
      ConvertedSucceeds(data);
      BelowFourGiBIs(data, all);
    } else {
      RejectedFails(data);
    }
  }

  lemma AlignedIf(all: seq<Content>)
    ensures (forall k :: 0 <= k < |all| ==> all[k].alignment > 0) ==> Aligned(all)
  {
  }

  lemma RejectedFails(data: seq<byte>)
    requires Rejection(data).Some?
    ensures Converted(data) == Failure(Rejection(data).value)
  {
    hide Built;
  }

  lemma ConvertedSucceeds(data: seq<byte>)
    requires Rejection(data).None?
    requires var all := WithNameTable(Sections(data));
             forall k :: 0 <= k < |all| ==> all[k].alignment > 0 && IsAscii(all[k].name)
    ensures Converted(data).Success? <==> Packable(Entry(data), WithNameTable(Sections(data)))
  {
    hide Sections;
    hide Packable;
    hide Image;
    NameTableComplete(Sections(data));
  }

  // ---------------------------------------------------------------- symbols

  datatype SymbolView = SymbolView(name: seq<byte>, value: nat, info: nat, section: nat)

  /** Symbol i of a symbol table section, whose names are in the section it links to. */
  function ReadSymbol(image: seq<byte>, table: nat, i: nat): SymbolView {
    var rows := ReadContent(image, table);
    var names := ReadContent(image, SectionField(image, table, 6));
    SymbolView(NameAt(names, Number(rows, 16 * i, 4)), Number(rows, 16 * i + 4, 4),
               Number(rows, 16 * i + 12, 1), Number(rows, 16 * i + 14, 2))
  }

  lemma SymbolRowRead(rows: seq<byte>, at: nat, nameOffset: nat, s: Symbol)
    requires StoredAt(rows, at, SymbolRow(nameOffset, s)) && nameOffset < WORD && s.value < WORD && s.section < HALF
    ensures Number(rows, at, 4) == nameOffset && Number(rows, at + 4, 4) == s.value
    ensures Number(rows, at + 12, 1) == s.info && Number(rows, at + 14, 2) == s.section
  {
    hide Number;
    RadixOf4();
    SymbolRowParts(nameOffset, s);
    var row := SymbolRow(nameOffset, s);
    StoredWithin(rows, at, row, 0, Pack([nameOffset, s.value, 0], 4));
    StoredWithin(rows, at, row, 12, Pack([s.info], 1));
    StoredWithin(rows, at, row, 14, Pack([s.section], 2));
    hide Pack;
    hide SymbolRow;
    NumberOfPacked(rows, at, [nameOffset, s.value, 0], 4, 0);
    NumberOfPacked(rows, at, [nameOffset, s.value, 0], 4, 1);
    NumberOfPacked(rows, at + 12, [s.info], 1, 0);
    NumberOfPacked(rows, at + 14, [s.section], 2, 0);
  }

  lemma SymbolRowParts(nameOffset: nat, s: Symbol)
    ensures var row := SymbolRow(nameOffset, s);
            && |row| == 16 && StoredAt(row, 0, Pack([nameOffset, s.value, 0], 4))
            && StoredAt(row, 12, Pack([s.info], 1)) && StoredAt(row, 14, Pack([s.section], 2))
  {
    PackLength([nameOffset, s.value, 0], 4);
    PackLength([s.section], 2);
    PackOneByte(s.info);
    hide Pack;
  }

  lemma PackOneByte(b: byte)
    ensures Pack([b], 1) == [b]
  {
    assert Encode(b, 1) == [b % 256] + Encode(b / 256, 0) == [b];
    assert PackRows([b], 1) == [[b]];
    assert [[b]][..0] == [];
    assert Concat([]) + [b] == [b];
  }

  lemma SymbolRowsAre(symbols: seq<Symbol>, i: nat)
    requires i < |symbols|
    ensures RowsOf(SymbolRows(symbols, |symbols|), 16)
    ensures SymbolRows(symbols, |symbols|)[i + 1] == SymbolRow(NameOffset(SymbolNames(symbols), i), symbols[i])
  {
    hide SymbolRow;
    hide NameOffset;
    var rows := SymbolRows(symbols, |symbols|);
    forall k | 0 <= k < |rows|
      ensures |rows[k]| == 16
    {
      if k > 0 {
        SymbolRowParts(NameOffset(SymbolNames(symbols), k - 1), symbols[k - 1]);
      }
    }
  }

  lemma SymbolStored(symbols: seq<Symbol>, i: nat)
    requires i < |symbols|
    ensures StoredAt(Concat(SymbolRows(symbols, |symbols|)), 16 * (i + 1),
                     SymbolRow(NameOffset(SymbolNames(symbols), i), symbols[i]))
    ensures StoredAt(NameTable(SymbolNames(symbols)), NameOffset(SymbolNames(symbols), i),
                     AsciiBytes(symbols[i].name) + [0])
  {
    hide *;
    SymbolRowsAre(symbols, i);
    RowStored(SymbolRows(symbols, |symbols|), 16, i + 1);
    NameStored(SymbolNames(symbols), i, |symbols|);
    SymbolNamesAre(symbols, i);
  }

  lemma SymbolNamesAre(symbols: seq<Symbol>, i: nat)
    requires i < |symbols|
    ensures SymbolNames(symbols)[i] == symbols[i].name && SymbolNames(symbols)[..|symbols|] == SymbolNames(symbols)
  {
  }

  lemma SymbolsSmall(data: seq<byte>, i: nat)
    requires i < |SymbolsOf(data)|
    ensures SymbolsOf(data)[i].value < WORD && SymbolsOf(data)[i].section < HALF
    ensures ReadableName(SymbolsOf(data)[i].name)
  {
    NumberFits(data, 0x10);
    NumberFits(data, 0x14);
    hide Number;
  }

  lemma SymbolSections(data: seq<byte>, all: seq<Content>)
    requires Rejection(data).None? && all == WithNameTable(Sections(data))
    ensures var n := |BssSections(data)|;
            && |all| == n + 6
            && all[n + 3].Stored() == NameTable(SymbolNames(SymbolsOf(data)))
            && all[n + 4].Stored() == Concat(SymbolRows(SymbolsOf(data), |SymbolsOf(data)|))
            && all[n + 4].link == n + 4
  {
    hide BssSections;
    hide NameTable;
    hide Concat;
    hide SymbolRows;
    hide SymbolNames;
    hide SymbolsOf;
    hide Number;
    hide Pack;
  }

  /** A reader of the converted file finds the entry point, the initial global pointer and, if the
      input sets one, the initial stack pointer under their names in the symbol table. */
  lemma SymbolsBack(data: seq<byte>, i: nat)
    requires Converted(data).Success? && i < |SymbolsOf(data)|
    ensures var s := SymbolsOf(data)[i];
            ReadSymbol(Converted(data).value, |BssSections(data)| + 5, i + 1)
              == SymbolView(AsciiBytes(s.name), s.value, s.info, s.section)
  {
    hide *;
    ConvertedIs(data);
    var all, n, symbols := WithNameTable(Sections(data)), |BssSections(data)|, SymbolsOf(data);
    var image := Image(Entry(data), all);
    var at := NameOffset(SymbolNames(symbols), i);
    SymbolSections(data, all);
    ContentRead(Entry(data), all, n + 3);
    ContentRead(Entry(data), all, n + 4);
    SectionFieldsAre(all, n + 4);
    SectionFieldsRead(Entry(data), all, n + 4, 6);
    SymbolsSmall(data, i);
    SymbolStored(symbols, i);
    NameFound(NameTable(SymbolNames(symbols)), at, symbols[i].name);
    SymbolNameFits(data, i);
    SymbolRowRead(Concat(SymbolRows(symbols, |symbols|)), 16 * (i + 1), at, symbols[i]);
    ReadSymbolIs(image, n + 5, i + 1);
  }

  lemma ReadSymbolIs(image: seq<byte>, table: nat, i: nat)
    ensures var rows := ReadContent(image, table);
            var names := ReadContent(image, SectionField(image, table, 6));
            ReadSymbol(image, table, i) ==
            SymbolView(NameAt(names, Number(rows, 16 * i, 4)), Number(rows, 16 * i + 4, 4),
                       Number(rows, 16 * i + 12, 1), Number(rows, 16 * i + 14, 2))
  {
    hide ReadContent;
    hide SectionField;
    hide Number;
    hide NameAt;
  }

  lemma SymbolNameFits(data: seq<byte>, i: nat)
    requires i < |SymbolsOf(data)|
    ensures NameOffset(SymbolNames(SymbolsOf(data)), i) < WORD
  {
    ShortNames(SymbolNames(SymbolsOf(data)), i);
    hide Number;
    hide NameTable;
  }

  lemma {:induction false} ShortNames(names: seq<string>, k: nat)
    requires k <= |names| && forall name | name in names :: |name| < 100
    ensures |NameTable(names[..k])| <= 1 + 100 * k
  {
    if k > 0 {
      ShortNames(names, k - 1);
      assert names[..k][..k - 1] == names[..k - 1];
      assert names[k - 1] in names;
    }
  }
}
