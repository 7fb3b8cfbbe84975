/** The converter of scripts/psx_exe_to_elf.py, `convert`: it checks a PS-X EXE, splits its zero-fill
    range around its payload, builds the symbol table and serializes an ELF file. The main result is
    that the two files load the same program. */
module PsxConvert {
  import opened Bytes
  import opened Tables
  import opened Wrappers
  import opened ElfImage
  import opened ElfBuilder
  import opened ElfReader

  const SHN_ABS := 0xFFF1

  // ---------------------------------------------------------------- the input format

  function Entry(data: seq<byte>): nat { Number(data, 0x10, 4) }
  function Gp(data: seq<byte>): nat { Number(data, 0x14, 4) }
  function LoadAddress(data: seq<byte>): nat { Number(data, 0x18, 4) }
  function PayloadSize(data: seq<byte>): nat { Number(data, 0x1C, 4) }
  function BssAddress(data: seq<byte>): nat { Number(data, 0x28, 4) }
  function BssSize(data: seq<byte>): nat { Number(data, 0x2C, 4) }
  function StackBase(data: seq<byte>): nat { Number(data, 0x30, 4) }
  function StackOffset(data: seq<byte>): nat { Number(data, 0x34, 4) }
  function PayloadEnd(data: seq<byte>): nat { LoadAddress(data) + PayloadSize(data) }
  function BssEnd(data: seq<byte>): nat { BssAddress(data) + BssSize(data) }

  /** The exceptions raised before anything is built. */
  function Rejection(data: seq<byte>): Option<Error> {
    if |data| < 0x800 then Some(TooSmall)
    else if data[..8] != AsciiBytes("PS-X EXE") then Some(BadSignature)
    else if PayloadSize(data) == 0 then Some(EmptyPayload)
    else if PayloadSize(data) > |data| - 0x800 then Some(TruncatedPayload)
    else if PayloadEnd(data) > 0x1_0000_0000 || BssEnd(data) > 0x1_0000_0000 then Some(RangeWraps)
    else None
  }

  function Payload(data: seq<byte>): (payload: seq<byte>)
    requires Rejection(data).None?
    ensures |payload| == PayloadSize(data)
  {
    data[0x800..0x800 + PayloadSize(data)]
  }

  /** The PS-X loader: it clears the zero-fill range, then copies the payload to its address. */
  function PsxMemory(data: seq<byte>): Memory
    requires Rejection(data).None?
  {
    (map a: nat | BssAddress(data) <= a < BssEnd(data) && Within(a, BssAddress(data), BssSize(data)) :: 0)
    + (map a: nat | LoadAddress(data) <= a < PayloadEnd(data) && Within(a, LoadAddress(data), PayloadSize(data)) ::
         Payload(data)[a - LoadAddress(data)])
  }

  // ---------------------------------------------------------------- symbols

  datatype Symbol = Symbol(name: string, value: nat, info: byte, section: nat)

  function SymbolsOf(data: seq<byte>): seq<Symbol> {
    [Symbol("_start", Entry(data), 0x12, if LoadAddress(data) <= Entry(data) < PayloadEnd(data) then 1 else SHN_ABS),
     Symbol("_gp", Gp(data), 0x10, SHN_ABS)]
    + if StackBase(data) == 0 then []
      else [Symbol("__initial_sp", (StackBase(data) + StackOffset(data)) % 0x1_0000_0000, 0x10, SHN_ABS)]
  }

  function SymbolNames(symbols: seq<Symbol>): (names: seq<string>)
    ensures |names| == |symbols|
  {
    seq(|symbols|, i requires 0 <= i < |symbols| => symbols[i].name)
  }

  function SymbolRow(nameOffset: nat, s: Symbol): (row: seq<byte>) {
    Pack([nameOffset, s.value, 0], 4) + [s.info, 0] + Pack([s.section], 2)
  }

  function SymbolRows(symbols: seq<Symbol>, n: nat): (rows: seq<seq<byte>>)
    requires n <= |symbols|
    ensures |rows| == n + 1
  {
    [Zeros(16)] + seq(n, i requires 0 <= i < n => SymbolRow(NameOffset(SymbolNames(symbols), i), symbols[i]))
  }

  // ---------------------------------------------------------------- sections

  function Text(data: seq<byte>): Content
    requires Rejection(data).None?
  {
    Content(".text", SHT_PROGBITS, 7, LoadAddress(data), Payload(data), 0, 0, 0, 1, 0)
  }

  function Bss(name: string, start: nat, end: nat): Content
    requires start <= end
  {
    Content(name, SHT_NOBITS, 3, start, [], end - start, 0, 0, 1, 0)
  }

  /** What is left of the zero-fill range below and above the payload. */
  function BssSections(data: seq<byte>): seq<Content> {
    var below := if BssEnd(data) < LoadAddress(data) then BssEnd(data) else LoadAddress(data);
    var above := if BssAddress(data) > PayloadEnd(data) then BssAddress(data) else PayloadEnd(data);
    var first := if BssAddress(data) < below then [Bss(".bss", BssAddress(data), below)] else [];
    first + if above < BssEnd(data) then [Bss(if first == [] then ".bss" else ".bss.1", above, BssEnd(data))] else []
  }

  function AnalysisSections(data: seq<byte>, before: nat): (rest: seq<Content>)
    requires |data| >= 0x800
    ensures |rest| == 4
  {
    var symbols := SymbolsOf(data);
    [Content(".reginfo", 0x70000006, 0, 0, Pack([0, 0, 0, 0, 0, Gp(data)], 4), 0, 0, 0, 4, 24),
     Content(".psx_exe_header", SHT_PROGBITS, 0, 0, data[..0x800], 0, 0, 0, 1, 0),
     Content(".strtab", SHT_STRTAB, 0, 0, NameTable(SymbolNames(symbols)), 0, 0, 0, 1, 0),
     Content(".symtab", SHT_SYMTAB, 0, 0, Concat(SymbolRows(symbols, |symbols|)), 0, before + 3, 1, 4, 16)]
  }

  function Sections(data: seq<byte>): seq<Content>
    requires Rejection(data).None?
  {
    [Text(data)] + BssSections(data) + AnalysisSections(data, 1 + |BssSections(data)|)
  }

  ghost function Converted(data: seq<byte>): Result<seq<byte>, Error> {
    if Rejection(data).Some? then Failure(Rejection(data).value) else Built(Entry(data), Sections(data))
  }

  // ---------------------------------------------------------------- the converter

  lemma SymbolStep(symbols: seq<Symbol>, n: nat)
    requires n < |symbols|
    ensures var names := SymbolNames(symbols);
            && NameOffset(names, n) == |NameTable(names[..n])|
            && NameTable(names[..n + 1]) == NameTable(names[..n]) + (AsciiBytes(symbols[n].name) + [0])
            && Concat(SymbolRows(symbols, n + 1)) ==
                 Concat(SymbolRows(symbols, n)) + SymbolRow(NameOffset(names, n), symbols[n])
  {
    hide SymbolRow;
    assert SymbolNames(symbols)[..n + 1][..n] == SymbolNames(symbols)[..n];
    assert SymbolRows(symbols, n + 1)[..n + 1] == SymbolRows(symbols, n);
  }

  lemma SymbolStart(symbols: seq<Symbol>)
    ensures Concat(SymbolRows(symbols, 0)) == Zeros(16) && NameTable(SymbolNames(symbols)[..0]) == [0]
    ensures SymbolNames(symbols)[..|symbols|] == SymbolNames(symbols)
  {
    hide SymbolRow;
    assert SymbolRows(symbols, 0) == [Zeros(16)];
    assert [Zeros(16)][..0] == [];
    assert Concat([]) + Zeros(16) == Zeros(16);
  }

  method AddSymbol(names: seq<byte>, rows: seq<byte>, s: Symbol, ghost symbols: seq<Symbol>, ghost n: nat)
    returns (names': seq<byte>, rows': seq<byte>)
    requires n < |symbols| && symbols[n] == s
    requires names == NameTable(SymbolNames(symbols)[..n]) && rows == Concat(SymbolRows(symbols, n))
    ensures names' == NameTable(SymbolNames(symbols)[..n + 1]) && rows' == Concat(SymbolRows(symbols, n + 1))
  {
    hide NameTable;
    hide Concat;
    hide SymbolRows;
    hide NameOffset;
    hide Pack;
    SymbolStep(symbols, n);
    var nameOffset := |names|;
    names' := names + (AsciiBytes(s.name) + [0]);
    rows' := rows + (Pack([nameOffset, s.value, 0], 4) + [s.info, 0] + Pack([s.section], 2));
  }

  method BuildSymbols(data: seq<byte>) returns (names: seq<byte>, rows: seq<byte>)
    ensures names == NameTable(SymbolNames(SymbolsOf(data)))
    ensures rows == Concat(SymbolRows(SymbolsOf(data), |SymbolsOf(data)|))
  {
    hide NameTable;
    hide Concat;
    hide SymbolRows;
    hide SymbolNames;
    hide Number;
    ghost var symbols := SymbolsOf(data);
    SymbolStart(symbols);
    names, rows := [0], Zeros(16);
    var entry, loadAddress, payloadEnd := Entry(data), LoadAddress(data), PayloadEnd(data);
    var startSection := if loadAddress <= entry < payloadEnd then 1 else SHN_ABS;
    names, rows := AddSymbol(names, rows, Symbol("_start", entry, 0x12, startSection), symbols, 0);
    names, rows := AddSymbol(names, rows, Symbol("_gp", Gp(data), 0x10, SHN_ABS), symbols, 1);
    if StackBase(data) != 0 {
      var sp := (StackBase(data) + StackOffset(data)) % 0x1_0000_0000;
      names, rows := AddSymbol(names, rows, Symbol("__initial_sp", sp, 0x10, SHN_ABS), symbols, 2);
    }
  }

  /** The zero-fill ranges below and above the payload become sections unless they are empty. */
  method SplitZeroFill(data: seq<byte>, bssAddress: nat, bssEnd: nat, loadAddress: nat, payloadEnd: nat)
    returns (sections: seq<Content>)
    requires bssAddress == BssAddress(data) && bssEnd == BssEnd(data)
    requires loadAddress == LoadAddress(data) && payloadEnd == PayloadEnd(data)
    ensures sections == BssSections(data)
  {
    hide Number;
    sections := [];
    var ranges := [(bssAddress, if bssEnd < loadAddress then bssEnd else loadAddress),
                   (if bssAddress > payloadEnd then bssAddress else payloadEnd, bssEnd)];
    var bssCount := 0;
    for i := 0 to |ranges|
      invariant 0 <= bssCount <= i
      invariant i == 0 ==> bssCount == 0 && sections == []
      invariant i == 1 ==>
                  && sections == (if ranges[0].0 < ranges[0].1 then [Bss(".bss", ranges[0].0, ranges[0].1)] else [])
                  && bssCount == |sections|
      invariant i == 2 ==> sections == BssSections(data)
    {
      var (start, end) := ranges[i];
      if start < end {
        var name := if bssCount == 0 then ".bss" else ".bss." + [('0' as int + bssCount) as char];
        assert bssCount == 1 ==> name == ".bss.1";
        sections := sections + [Content(name, SHT_NOBITS, SHF_WRITE + SHF_ALLOC, start, [], end - start, 0, 0, 1, 0)];
        bssCount := bssCount + 1;
      }
    }
  }

  method Convert(data: seq<byte>) returns (r: Result<seq<byte>, Error>)
    ensures r == Converted(data)
  {
    hide Number;
    hide Built;
    hide BssSections;
    hide SymbolsOf;
    hide NameTable;
    hide Concat;
    hide Pack;
    if |data| < 0x800 {
      return Failure(TooSmall);
    }
    if data[..8] != AsciiBytes("PS-X EXE") {
      return Failure(BadSignature);
    }
    var entry, gp := Number(data, 0x10, 4), Number(data, 0x14, 4);
    var loadAddress, payloadSize := Number(data, 0x18, 4), Number(data, 0x1C, 4);
    var bssAddress, bssSize := Number(data, 0x28, 4), Number(data, 0x2C, 4);
    if payloadSize == 0 {
      return Failure(EmptyPayload);
    }
    if payloadSize > |data| - 0x800 {
      return Failure(TruncatedPayload);
    }
    var payloadEnd, bssEnd := loadAddress + payloadSize, bssAddress + bssSize;
    if payloadEnd > 0x1_0000_0000 || bssEnd > 0x1_0000_0000 {
      return Failure(RangeWraps);
    }
    var text := Content(".text", SHT_PROGBITS, SHF_WRITE + SHF_ALLOC + SHF_EXECINSTR, loadAddress,
                        data[0x800..0x800 + payloadSize], 0, 0, 0, 1, 0);
    var bss := SplitZeroFill(data, bssAddress, bssEnd, loadAddress, payloadEnd);
    var contents := [text] + bss;
    var reginfo := Content(".reginfo", 0x70000006, 0, 0, Pack([0, 0, 0, 0, 0, gp], 4), 0, 0, 0, 4, 24);
    var header := Content(".psx_exe_header", SHT_PROGBITS, 0, 0, data[..0x800], 0, 0, 0, 1, 0);
    var names, rows := BuildSymbols(data);
    var strtab := Content(".strtab", SHT_STRTAB, 0, 0, names, 0, 0, 0, 1, 0);
    var symtab := Content(".symtab", SHT_SYMTAB, 0, 0, rows, 0, |contents + [reginfo, header, strtab]|, 1, 4, 16);
    contents := contents + [reginfo, header, strtab, symtab];
    r := Serialize(entry, contents);
  }

  /** The section objects of `contents`, serialized. */
  method Serialize(entry: nat, contents: seq<Content>) returns (r: Result<seq<byte>, Error>)
    ensures r == Built(entry, contents)
  {
    var sections: seq<Section> := [];
    for i := 0 to |contents|
      invariant |sections| == i && fresh(sections) && NoAliases(sections)
      invariant forall k :: 0 <= k < i ==> sections[k].Value() == contents[k]
    {
      var section := new Section(contents[i]);
      sections := sections + [section];
    }
    assert Values(sections) == contents;
    r := BuildElf(entry, sections);
  }
}
