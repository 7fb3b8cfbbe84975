/** The ELF32 serializer of scripts/psx_exe_to_elf.py, `build_elf`, and the image it is to produce.

    `Image` describes the file by concatenation; the method `BuildElf` grows a byte array, gives each
    section object its place and patches the headers in afterwards, as the original does. An ELF32
    file header has 52 bytes, a program header 32 and a section header 40. */
module ElfImage {
  import opened Bytes
  import opened Tables
  import opened Wrappers

  const SHT_PROGBITS := 1
  const SHT_SYMTAB := 2
  const SHT_STRTAB := 3
  const SHT_NOBITS := 8
  const SHF_WRITE := 1
  const SHF_ALLOC := 2
  const SHF_EXECINSTR := 4

  /** The exceptions of the original, in the order in which it can raise them. */
  datatype Error =
    | TooSmall | BadSignature | EmptyPayload | TruncatedPayload | RangeWraps
    | NameNotAscii | ZeroAlignment | FieldOutOfRange

  /** The value of a section object. The size of stored data is its length. */
  datatype Content = Content(
    name: string, sectionType: nat, flags: nat, address: nat, data: seq<byte>, noBitsSize: nat,
    link: nat, info: nat, alignment: nat, entrySize: nat)
  {
    function Stored(): seq<byte> {
      if sectionType == SHT_NOBITS then [] else data
    }

    function Size(): nat {
      if sectionType == SHT_NOBITS then noBitsSize else |data|
    }

    predicate Loaded() {
      flags / SHF_ALLOC % 2 == 1
    }

    function SegmentFlags(): nat {
      4 + (if flags / SHF_WRITE % 2 == 1 then 2 else 0) + (if flags / SHF_EXECINSTR % 2 == 1 then 1 else 0)
    }
  }

  class Section {
    const name: string
    const sectionType: nat
    const flags: nat
    const address: nat
    const data: seq<byte>
    var size: nat
    const link: nat
    const info: nat
    const alignment: nat
    const entrySize: nat
    var offset: nat

    constructor (c: Content)
      ensures Value() == c && offset == 0
    {
      name, sectionType, flags, address, data := c.name, c.sectionType, c.flags, c.address, c.data;
      size, link, info, alignment, entrySize := c.noBitsSize, c.link, c.info, c.alignment, c.entrySize;
      offset := 0;
    }

    function Value(): Content
      reads this
    {
      Content(name, sectionType, flags, address, data, size, link, info, alignment, entrySize)
    }
  }

  // ---------------------------------------------------------------- names

  predicate IsAscii(s: string) {
    forall c | c in s :: c as int < 128
  }

  function AsciiBytes(s: string): (bytes: seq<byte>)
    ensures |bytes| == |s|
  {
    seq(|s|, i requires 0 <= i < |s| => if s[i] as int < 128 then s[i] as int else 0)
  }

  /** The name table starts with the empty name; each name ends with a NUL. */
  function NameTable(names: seq<string>): (table: seq<byte>)
    ensures |table| > 0
  {
    if names == [] then [0] else NameTable(names[..|names| - 1]) + (AsciiBytes(names[|names| - 1]) + [0])
  }

  function NameOffset(names: seq<string>, k: nat): nat
    requires k < |names|
  {
    |NameTable(names[..k])|
  }

  function NamesOf(sections: seq<Content>): (names: seq<string>)
    ensures |names| == |sections|
  {
    seq(|sections|, i requires 0 <= i < |sections| => sections[i].name)
  }

  /** The section list with the name table appended as its last section. */
  function WithNameTable(sections: seq<Content>): (all: seq<Content>)
    ensures |all| == |sections| + 1
  {
    sections + [Content(".shstrtab", SHT_STRTAB, 0, 0, NameTable(NamesOf(sections) + [".shstrtab"]), 0, 0, 0, 1, 0)]
  }

  // ---------------------------------------------------------------- layout

  /** The padding that brings a length to a multiple of the alignment. */
  function Padding(length: nat, alignment: nat): nat
    requires alignment > 0
  {
    -(length as int) % alignment
  }

  ghost predicate Aligned(sections: seq<Content>) {
    forall k :: 0 <= k < |sections| ==> sections[k].alignment > 0
  }

  /** What follows the headers, for the first k sections. */
  function Layout(base: nat, sections: seq<Content>, k: nat): seq<byte>
    requires k <= |sections| && Aligned(sections)
  {
    if k == 0 then []
    else
      var before := Layout(base, sections, k - 1);
      before + Zeros(Padding(base + |before|, sections[k - 1].alignment)) + sections[k - 1].Stored()
  }

  function Offset(base: nat, sections: seq<Content>, k: nat): nat
    requires k < |sections| && Aligned(sections)
  {
    var end := base + |Layout(base, sections, k)|;
    end + Padding(end, sections[k].alignment)
  }

  /** The indices of the loaded sections among the first k. */
  function LoadedUpTo(sections: seq<Content>, k: nat): (indices: seq<nat>)
    requires k <= |sections|
    ensures forall j :: 0 <= j < |indices| ==> indices[j] < k && sections[indices[j]].Loaded()
  {
    if k == 0 then []
    else LoadedUpTo(sections, k - 1) + (if sections[k - 1].Loaded() then [k - 1] else [])
  }

  function LoadedIndices(sections: seq<Content>): (indices: seq<nat>)
    ensures forall j :: 0 <= j < |indices| ==> indices[j] < |sections| && sections[indices[j]].Loaded()
  {
    LoadedUpTo(sections, |sections|)
  }

  /** Where the section data starts: behind the file header and the program headers. */
  function Base(sections: seq<Content>): nat {
    52 + 32 * |LoadedIndices(sections)|
  }

  function TableOffset(sections: seq<Content>): nat
    requires Aligned(sections)
  {
    var end := Base(sections) + |Layout(Base(sections), sections, |sections|)|;
    end + Padding(end, 4)
  }

  // ---------------------------------------------------------------- headers

  function SectionFields(all: seq<Content>, k: nat): (fields: seq<nat>)
    requires k < |all| && Aligned(all)
    ensures |fields| == 10
  {
    var s := all[k];
    [NameOffset(NamesOf(all), k), s.sectionType, s.flags, s.address, Offset(Base(all), all, k),
     s.Size(), s.link, s.info, s.alignment, s.entrySize]
  }

  /** Program header j describes the j-th loaded section. */
  function SegmentFields(all: seq<Content>, j: nat): (fields: seq<nat>)
    requires j < |LoadedIndices(all)| && Aligned(all)
    ensures |fields| == 8
  {
    var k := LoadedIndices(all)[j];
    var s := all[k];
    [1, Offset(Base(all), all, k), s.address, s.address, |s.Stored()|, s.Size(), s.SegmentFlags(), s.alignment]
  }

  function SectionRows(all: seq<Content>, k: nat): (rows: seq<seq<byte>>)
    requires k <= |all| && Aligned(all)
    ensures |rows| == k + 1
  {
    [Zeros(40)] + seq(k, i requires 0 <= i < k => Pack(SectionFields(all, i), 4))
  }

  function SegmentRows(all: seq<Content>, n: nat): (rows: seq<seq<byte>>)
    requires n <= |LoadedIndices(all)| && Aligned(all)
    ensures |rows| == n
  {
    seq(n, j requires 0 <= j < n => Pack(SegmentFields(all, j), 4))
  }

  const IDENT: seq<byte> := [0x7F, 0x45, 0x4C, 0x46, 1, 1, 1, 0, 0, 0, 0, 0, 0, 0, 0, 0]

  function HeaderHalves(all: seq<Content>): (fields: seq<nat>)
    ensures |fields| == 6
  {
    [52, 32, |LoadedIndices(all)|, 40, |all| + 1, |all|]
  }

  function HeaderWords(entry: nat, all: seq<Content>): (fields: seq<nat>)
    requires Aligned(all)
    ensures |fields| == 5
  {
    [1, entry, 52, TableOffset(all), 0x1001]
  }

  function Header(entry: nat, all: seq<Content>): seq<byte>
    requires Aligned(all)
  {
    IDENT + Pack([2, 8], 2) + Pack(HeaderWords(entry, all), 4) + Pack(HeaderHalves(all), 2)
  }

  /** The whole file: file header, program headers, section data, section table. */
  function Image(entry: nat, all: seq<Content>): seq<byte>
    requires Aligned(all)
  {
    Header(entry, all) + Concat(SegmentRows(all, |LoadedIndices(all)|)) + Body(all)
  }

  function Body(all: seq<Content>): seq<byte>
    requires Aligned(all)
  {
    var layout := Layout(Base(all), all, |all|);
    layout + Zeros(Padding(Base(all) + |layout|, 4)) + Concat(SectionRows(all, |all|))
  }

  // ---------------------------------------------------------------- what can be packed

  predicate Fits(values: seq<nat>, limit: nat) {
    forall v | v in values :: v < limit
  }

  const WORD := 0x1_0000_0000
  const HALF := 0x1_0000

  ghost predicate Packable(entry: nat, all: seq<Content>)
    requires Aligned(all)
  {
    && (forall k | 0 <= k < |all| :: Fits(SectionFields(all, k), WORD))
    && Fits(HeaderWords(entry, all), WORD) && Fits(HeaderHalves(all), HALF)
  }

  ghost function Built(entry: nat, sections: seq<Content>): Result<seq<byte>, Error> {
    if exists k :: 0 <= k < |sections| && !IsAscii(sections[k].name) then Failure(NameNotAscii)
    else if !Aligned(sections) then Failure(ZeroAlignment)
    else if !Packable(entry, WithNameTable(sections)) then Failure(FieldOutOfRange)
    else Success(Image(entry, WithNameTable(sections)))
  }

  lemma HeaderLength(entry: nat, all: seq<Content>)
    requires Aligned(all)
    ensures |Header(entry, all)| == 52
  {
    PackLength([2, 8], 2);
    PackLength(HeaderWords(entry, all), 4);
    PackLength(HeaderHalves(all), 2);
  }

  lemma RowLengths(all: seq<Content>, n: nat, k: nat)
    requires n <= |LoadedIndices(all)| && k <= |all| && Aligned(all)
    ensures RowsOf(SegmentRows(all, n), 32)
    ensures RowsOf(SectionRows(all, k), 40)
    ensures |Concat(SegmentRows(all, n))| == 32 * n
    ensures |Concat(SectionRows(all, k))| == 40 * (k + 1)
  {
    forall j | 0 <= j < n ensures |Pack(SegmentFields(all, j), 4)| == 32 {
      PackLength(SegmentFields(all, j), 4);
    }
    forall i | 0 <= i < k ensures |Pack(SectionFields(all, i), 4)| == 40 {
      PackLength(SectionFields(all, i), 4);
    }
    ConcatLength(SegmentRows(all, n), 32);
    ConcatLength(SectionRows(all, k), 40);
  }
}
