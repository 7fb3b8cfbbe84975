# Verified models of DuckStation's foundations and translation tools

This project models six parts of the repository in Dafny and proves what each is for. The imperative
parts are classes and methods with loops, proved against functions; what the source promises is proved
about those functions.

- **PS-X EXE to ELF** (`ElfImage`, `ElfBuilder`, `ElfReader`, `ElfParseBack`, `PsxConvert`,
  `PsxEquivalence`, with `Tables` and `Bytes`). `convert` and `build_elf` lay out and back-patch an ELF32
  image. A reader that follows only the headers gets every section, symbol and segment back, and loading the
  image gives the memory and entry point that the PS-X loader gives, for every overlap of payload and
  zero-fill range.
- **Paths and directory search** (`PathComponents`, `PathAppend`, `PathWalk`, `PathRelative`, `UrlCoding`,
  `DirectorySearch`), the POSIX branches of `file_system.cpp`. Independent loops over the same text are shown
  to agree: the splitter, the collapsing append, the stack of `Canonicalize` and a directory walk. The search
  runs over any finite directory graph, cyclic links included.
- **Translation sessions** (`TaskSplitting`, `Decisions`, `Responses`, `Salvage`, `Merging`, `Splicing`,
  `Catalogs`, `CatalogSplice`, `SemanticReview`, `SessionRecords`, `ReviewResults`, `Applying`,
  `ApplyResults`, `ApplyCommand`, `Histories`, `HistoryResults`, with `RichText` and `XmlEscape`). The tools
  are a state machine whose environment edits the catalog and hands in any response files at all. In every
  history the journals load, an apply changes a message only from its recorded state to a reviewed value and
  at most once, and with semantic review only to a text that a reviewer has passed.
- **Ring buffer** (`FifoQueue`): every operation refines a sequence, bulk and element-wise versions alike.
- **Span reader and writer** (`BinarySpan`): typed message lists round trip, in both directions.
- **Power-of-two arithmetic** (`AlignBits`): smearing and masks on words of any width against arithmetic.

## How the model reads the source

- Bytes are numbers below 256, C and Python integers are unbounded where the source cannot overflow and
  wrapped explicitly where it can (32-bit counts, addresses, two's complement, alignment sums).
- `Option` and `Result` stand for exceptions and error returns. A command that raises writes nothing.
- Hashes are injective: a message identity is its own identifier, a record digest its own fields.
- A JSON line is what decoding and parsing make of it: undecodable, malformed, blank, no object, or an object.
- Text checks (placeholders, accelerators), wildcard matching, the serialized size of a record, and what
  replacing the translation inside a message's XML gives are parameters, so the results hold for any of them.
- A catalog is its messages and the text between them; its file is their concatenation.

## What the code does that its documentation does not say

- `Canonicalize` pops a leading `..` with a second one and drops the root when nothing is left under it.
  `PathWalk.CanonicalKeepsMeaning` says exactly when the result still names the same place;
  `PathWalk.CanonicalLosesClimb` and `PathWalk.CanonicalLosesRoot` are inputs where it does not.
- `JoinNativePath(SplitNativePath(p))` is `ToNativePath(p)` except for paths of separators only, which give the
  empty string and `/` (`PathAppend.JoinOfSplit`).
- `FindFiles` reports failure when the number of results is a multiple of 2^32, zero included.
- `RichTextParser` takes a self-closing tag that is no known rich-text tag for the end of an innermost open tag of
  the same name, though such a tag is literal text. `<b><b title=">"/>` passes without a problem
  (`RichText.MissesUnclosed`) and, closed properly, is reported (`RichText.ReportsClosed`). Where that does not
  happen, and only there, its verdict is that of ordinary nesting (`RichText.NestingExactly`).
- The 32-bit index sum of the queue's `Peek` wraps around for a capacity above 2^31, and then the wrong slot is read
  (`FifoQueue.PeekSlotExactly`, `FifoQueue.PeekWraps`).
- Accepting the current text, when that is a single plural form equal to the source of a message without
  plurals, becomes an acceptance of the source, so that a form is replaced by a plain text
  (`Decisions.NormalizedLosesForm`). Only a catalog with plural forms in a message without plurals has such a record
  (`Decisions.WellFormedKeepsValue`).
- `NextPow2` of a value above the top power of two wraps around to 0, and 0 counts as a power of two for
  `IsPow2`.

## Model

| member | source | states |
|---|---|---|
| FifoQueue.Queue.constructor | src/common/fifo_queue.h:208-211 | a new queue is valid and holds nothing; valid: the tail is the slot behind the last element, and an empty queue has head and tail 0 |
| FifoQueue.SlotIsRemainder | src/common/fifo_queue.h:83 | the slot of element i is (head + i) mod capacity |
| FifoQueue.UnwrapAppend | src/common/fifo_queue.h:82 | copying a run into free slots up to the end appends it to the contents |
| FifoQueue.Queue.GetSpace | src/common/fifo_queue.h:28 | the free slots are the capacity less the contents |
| FifoQueue.Queue.GetContiguousSize | src/common/fifo_queue.h:38 | the segment at the head holds exactly a prefix of the contents, shorter than the contents only if it ends at the buffer's end |
| FifoQueue.Queue.GetContiguousSpace | src/common/fifo_queue.h:29-37 | the segment at the tail holds no element, and ends at the buffer's end or at the head |
| FifoQueue.Queue.Clear | src/common/fifo_queue.h:42-47 | leaves a valid empty queue |
| FifoQueue.Queue.PushAndGetReference | src/common/fifo_queue.h:199-206 | gives the slot right behind the contents and counts it |
| FifoQueue.Queue.Push | src/common/fifo_queue.h:57-71 | appends the value |
| FifoQueue.Queue.Peek | src/common/fifo_queue.h:107-108 | Peek(i) is element i unless the 32-bit sum of head and offset wraps around; always the slot that the wrapped sum gives |
| FifoQueue.PeekSlotExactly | src/common/fifo_queue.h:108 | that slot is the one of element i if and only if the sum does not wrap around, which it never does for a capacity of at most 2^31 |
| FifoQueue.PeekWraps | src/common/fifo_queue.h:108 | a head, offset and capacity for which another slot is read |
| FifoQueue.Queue.Remove | src/common/fifo_queue.h:110-121 | drops the first count elements; head and tail go to 0 when nothing is left |
| FifoQueue.Queue.RemoveOne | src/common/fifo_queue.h:123-131 | drops the first element |
| FifoQueue.Queue.Pop | src/common/fifo_queue.h:133-144 | returns and drops the first element |
| FifoQueue.Queue.PushRange | src/common/fifo_queue.h:74-92 | the two-segment copy appends the data, as pushing one by one does |
| FifoQueue.Queue.PushRangeEach | src/common/fifo_queue.h:94-105 | pushing one by one reaches the same contents, head, tail and size as the bulk copy |
| FifoQueue.Queue.PopRange | src/common/fifo_queue.h:146-161 | the wrapping bulk copy returns and drops the first count elements |
| FifoQueue.Queue.PopRangeEach | src/common/fifo_queue.h:163-176 | one by one: the same output, contents, head, tail and size |
| FifoQueue.Queue.PushFromQueue | src/common/fifo_queue.h:178-186 | terminates, keeps this ++ other, moves exactly min(other size, free space) elements |
| FifoQueue.Queue.AdvanceTail | src/common/fifo_queue.h:188-194 | appends what is in the buffer behind the tail |
| BinarySpan.ReadFrontOfBytes | src/common/binary_reader_writer.h:117-127 | reading the bytes of a value with its schema gives the value and consumes exactly its bytes, whatever follows |
| BinarySpan.ReadAllOfBytes | src/common/binary_reader_writer.h:96-127 | the same for any list of integers, strings, booleans and optionals |
| BinarySpan.ReadAllIsWritable | src/common/binary_reader_writer.h:96-127 | whatever can be read from arbitrary bytes is a list the writer can write, and what was consumed is its encoded length |
| BinarySpan.ReadEncodeRead | src/common/binary_reader_writer.h:96-127 | re-encoding what was read from arbitrary bytes and reading it again gives the same values |
| BinarySpan.WriteAllStores | src/common/binary_reader_writer.h:193-209 | a list is written exactly if its encoding fits, into exactly its bytes |
| BinarySpan.OptionalInSteps | src/common/binary_reader_writer.h:193-197 | an optional is its flag and then its content; if the content does not fit the flag stays behind |
| BinarySpan.WriteThenRead | src/common/binary_reader_writer.h:199-209 | writing a list that fits and reading it with its schema returns it, ends at the same position, and leaves the rest of the buffer alone |
| BinarySpan.Writer.Write | src/common/binary_reader_writer.h:199-209 | stores the bytes at the cursor and advances it, or changes nothing |
| BinarySpan.Writer.WriteUnsigned | src/common/binary_reader_writer.h:167-176 | stores the little-endian bytes of an unsigned value |
| BinarySpan.Writer.WriteSigned | src/common/binary_reader_writer.h:169-175 | stores the two's complement bytes of a signed value |
| BinarySpan.Writer.WriteBool | src/common/binary_reader_writer.h:168 | stores one byte, 0 or 1 |
| BinarySpan.Writer.WriteCString | src/common/binary_reader_writer.cpp:231-242 | stores the text and a NUL if both fit, or changes nothing |
| BinarySpan.Writer.WriteSizePrefixedString | src/common/binary_reader_writer.cpp:244-259 | stores a 32-bit length and the text if both fit and the length does, or changes nothing |
| BinarySpan.Writer.WriteOptional | src/common/binary_reader_writer.h:193-197 | stores the flag and the content |
| BinarySpan.Reader.Peek | src/common/binary_reader_writer.h:129-138 | the next bytes, if there are so many, without moving |
| BinarySpan.Reader.Read | src/common/binary_reader_writer.h:117-127 | the next bytes, advancing by exactly what was read |
| BinarySpan.Reader.ReadUnsigned | src/common/binary_reader_writer.h:38-47 | an unsigned value from its little-endian bytes |
| BinarySpan.Reader.ReadSigned | src/common/binary_reader_writer.h:40-46 | a signed value from its two's complement bytes |
| BinarySpan.Reader.ReadBool | src/common/binary_reader_writer.h:39 | any byte but 0 is true |
| BinarySpan.Reader.PeekCString | src/common/binary_reader_writer.cpp:30-48 | fails exactly if no NUL is left; otherwise the text before the first one |
| BinarySpan.Reader.ReadCString | src/common/binary_reader_writer.cpp:77-106 | the text, the cursor behind its NUL; the cursor stays on failure |
| BinarySpan.Reader.PeekSizePrefixedString | src/common/binary_reader_writer.cpp:50-58 | the text, if length and text are there |
| BinarySpan.Reader.ReadSizePrefixedString | src/common/binary_reader_writer.cpp:108-137 | the text, the cursor behind it; the cursor stays on failure |
| BinarySpan.Reader.ReadOptional | src/common/binary_reader_writer.h:96-115 | nothing for flag 0, else the content; a missing content leaves the flag consumed |
| AlignBits.Smear | src/common/align.h:62-69 | or-ing with the doubling shifts makes each bit say whether it or a higher one is set |
| AlignBits.SmearedIs | src/common/align.h:84-91 | for n > 0 the smeared value m is at least n, below 2n and one less than a power of two |
| AlignBits.PreviousPow2 | src/common/align.h:57-72 | the greatest power of two not above the value; 0 for 0 |
| AlignBits.NextPow2 | src/common/align.h:74-93 | the least power of two not below the value, exactly if one fits and the value is not 0; otherwise 0 |
| AlignBits.MaskedIs | src/common/align.h:40-48 | clearing the low bits rounds down to a multiple, keeping them gives the remainder |
| AlignBits.MasksAlign | src/common/align.h:15-48 | for a power-of-two alignment the mask forms of AlignUp, AlignDown and IsAligned equal the dividing ones, wrapping included |
| AlignBits.AlignUpIsLeast | src/common/align.h:20-23 | AlignUp is the least multiple not below the value if and only if the sum does not wrap |
| AlignBits.IsPow2Exactly | src/common/align.h:50-53 | the test holds exactly for the powers of two and zero |
| PathComponents.SplitNativePath | src/common/file_system.cpp:843-875 | the index loop gives the names between separators, with an empty first component for a rooted path |
| PathComponents.JoinNames | src/common/file_system.cpp:877-880 | joining names and reading the names of the result gives them back |
| PathComponents.SplitOfJoin | src/common/file_system.cpp:843-880 | Split(Join(c)) == c for every list of names with an optional empty component before at least one of them |
| PathComponents.SplitTells | src/common/file_system.cpp:861-864 | the components determine whether the path was rooted, and its names |
| PathAppend.PathAppendString | src/common/file_system.cpp:319-360 | appends the source with runs of separators collapsed, one at the seam included |
| PathAppend.ToNativePath | src/common/file_system.cpp:555-568 | the collapsed path without trailing separators, one separator alone being kept |
| PathAppend.CollapseIsJoin | src/common/file_system.cpp:338-359 | the flag-driven character loop equals splitting into names and joining them, behind a separator |
| PathAppend.CollapseIsJoinSplit | src/common/file_system.cpp:319-360 | the same at the start of a path |
| PathAppend.JoinOfSplit | src/common/file_system.cpp:555-568 | Join(Split(p)) == ToNativePath(p) if and only if p is empty or has a name |
| PathAppend.Combine | src/common/file_system.cpp:921-936 | both parts collapsed and stripped, with one separator between |
| PathAppend.Combine3 | src/common/file_system.cpp:938-958 | combining three parts is combining twice |
| PathAppend.CombinedIsJoin | src/common/file_system.cpp:921-936 | the combination is the joined base and the joined names of the rest |
| PathAppend.CombinedComponents | src/common/file_system.cpp:921-936 | its names are those of both parts in order; rooted exactly if there is a name and the base is rooted or empty |
| PathWalk.Canonicalize | src/common/file_system.cpp:575-604 | the loop over the component stack gives the canonical path of the model |
| PathWalk.CanonicalFollowsWalk | src/common/file_system.cpp:580-601 | after each component the stack is a function of the directory walk so far |
| PathWalk.CanonicalStack | src/common/file_system.cpp:575-604 | for every path but a lone dot the result joins the final stack of the walk |
| PathWalk.CanonicalComponents | src/common/file_system.cpp:575-604 | for a path that never climbs above its start and ends with a name, the components are exactly the names of the walk, rooted as before |
| PathWalk.CanonicalKeepsMeaning | src/common/file_system.cpp:588-595 | the result names the same place if and only if a rooted path never climbs and ends with a name, or a relative one climbs at most once |
| PathWalk.CanonicalOfJoined | src/common/file_system.cpp:575-604 | the same for a path given as its components |
| PathWalk.CanonicalLosesClimb | src/common/file_system.cpp:588-595 | ../../x gives x |
| PathWalk.CanonicalLosesRoot | src/common/file_system.cpp:588-595 | /a/.. gives the empty string |
| PathWalk.CanonicalIdempotent | src/common/file_system.cpp:575-604 | canonicalizing twice is canonicalizing once, for every string |
| PathRelative.MakeRelative | src/common/file_system.cpp:611-656 | for two rooted paths, a step up for each component beyond the common ones, then the rest; the joined path otherwise |
| PathRelative.CommonLengthUnique | src/common/file_system.cpp:621-629 | the loop counts the longest common prefix |
| PathRelative.WalkBack | src/common/file_system.cpp:634-641 | walking down the base, up and down again ends at the path |
| PathRelative.RelativeNames | src/common/file_system.cpp:611-656 | following the relative path from the base walks to the names of the path |
| PathRelative.RelativeRoundTrip | src/common/file_system.cpp:611-656 | Canonicalize(Combine(b, MakeRelative(p, b))) is p in native form, for all rooted p and b without dots, repeated separators and the root base included; the root itself comes back empty |
| UrlCoding.URLEncode | src/common/file_system.cpp:1141-1166 | the loop gives the percent-coding of the model |
| UrlCoding.URLDecode | src/common/file_system.cpp:1168-1204 | the loop gives the decoding of the model, stopping at a broken escape |
| UrlCoding.EncodedIsText | src/common/file_system.cpp:1146-1163 | the output is one valid token per byte, meaning that byte |
| UrlCoding.EncodedAlphabet | src/common/file_system.cpp:1149-1161 | only unreserved characters of section 2.3 of RFC 3986, percent signs and uppercase hexadecimal digits |
| UrlCoding.DecodedEncoded | src/common/file_system.cpp:1141-1204 | decoding undoes encoding for every byte string |
| UrlCoding.DecodedIsPrefix | src/common/file_system.cpp:1168-1204 | on any input decoding gives the meaning of a prefix of plain characters and complete valid escapes |
| UrlCoding.PrefixIsLongest | src/common/file_system.cpp:1176-1193 | no longer prefix is made of such tokens |
| DirectorySearch.Search.FindFiles | src/common/file_system.cpp:2746-2769 | terminates on every finite directory graph; every directory reachable over entries not skipped is scanned once, every matching entry of each is reported exactly once with its name, nothing else is; the result says whether the 32-bit count is nonzero |
| DirectorySearch.Search.Recurse | src/common/file_system.cpp:2615-2744 | finishes one directory and everything newly reached from it, and counts exactly the results appended, mod 2^32 |
| DirectorySearch.Search.ScanEntry | src/common/file_system.cpp:2647-2740 | one round of the loop finishes one entry |
| DirectorySearch.Search.Descend | src/common/file_system.cpp:2673-2696 | puts the target on the shared visited list and searches it; the measure is the real directories not yet visited |
| DirectorySearch.Search.Report | src/common/file_system.cpp:2723-2739 | appends the description of the entry |
| DirectorySearch.VisitedIsReachable | src/common/file_system.cpp:2677-2682 | when all visited directories are done, visited means reachable |
| DirectorySearch.OnlyStartReachable | src/common/file_system.cpp:2675 | without the recursive flag only the start is searched |
| DirectorySearch.Complete | src/common/file_system.cpp:2746-2769 | a finished search has scanned exactly the reachable directories and reported exactly their matching entries |
| DirectorySearch.UnderOriginIsJoin | src/common/file_system.cpp:2658-2664 | the parent, path and name strings spell the route to the entry |
| ElfBuilder.BuildElf | scripts/psx_exe_to_elf.py:57-106 | extending and patching the image gives the specified image, or fails for a name that is not ASCII, an alignment of 0 or a field out of range |
| ElfBuilder.NameTableOf | scripts/psx_exe_to_elf.py:61-68 | the name table and the offset of each name in it |
| ElfBuilder.AppendNameTable | scripts/psx_exe_to_elf.py:61-68 | the name table becomes one more section of the list, the others staying what they are |
| ElfBuilder.PlaceSection | scripts/psx_exe_to_elf.py:70-75 | the section's offset is the padded length, its stored bytes are appended there |
| ElfBuilder.AppendSectionTable | scripts/psx_exe_to_elf.py:77-85 | appends a null row and one row for each section, or fails if a field is out of range |
| ElfBuilder.PatchSegments | scripts/psx_exe_to_elf.py:94-105 | overwrites exactly the reserved rows, one for each loaded section |
| ElfBuilder.Assemble | scripts/psx_exe_to_elf.py:70-106 | layout, tables and back-patched header together give the image exactly if every field fits |
| ElfReader.ImageParts | scripts/psx_exe_to_elf.py:57-106 | header, program headers, section data and section table follow each other without overlap and make up the image |
| ElfReader.DataStored | scripts/psx_exe_to_elf.py:70-75 | each section's bytes are at its offset, a multiple of its alignment, between the program headers and the section table |
| ElfReader.DataDisjoint | scripts/psx_exe_to_elf.py:70-75 | the stored bytes of different sections do not overlap |
| ElfReader.PaddingAligns | scripts/psx_exe_to_elf.py:71 | the padding makes the length a multiple, with fewer bytes than the alignment |
| ElfReader.HeaderRead | scripts/psx_exe_to_elf.py:87-93 | a reader gets entry point, table offsets, sizes, counts and the name table index back |
| ElfReader.SectionFieldsRead | scripts/psx_exe_to_elf.py:80-85 | and every field of every section header |
| ElfReader.SegmentFieldsRead | scripts/psx_exe_to_elf.py:94-105 | and every field of every program header |
| ElfParseBack.NameFound | scripts/psx_exe_to_elf.py:63-65 | reading up to the NUL gives a NUL-free name back |
| ElfParseBack.SectionRead | scripts/psx_exe_to_elf.py:57-106 | following the tables gives one section back whole |
| ElfParseBack.ParseBack | scripts/psx_exe_to_elf.py:57-106 | for every list of sections that is serialized, a reader recovers every name, type, flag, address, size, link, info, alignment and content in order, the name table included |
| ElfParseBack.LoadBack | scripts/psx_exe_to_elf.py:94-105 | loading the segments gives the memory of the loaded sections |
| PsxConvert.Convert | scripts/psx_exe_to_elf.py:109-168 | rejects in the same cases, in the same order; otherwise serializes the specified sections |
| PsxConvert.SplitZeroFill | scripts/psx_exe_to_elf.py:136-145 | the zero-fill range without the payload, as no, one or two sections |
| PsxConvert.BuildSymbols | scripts/psx_exe_to_elf.py:153-165 | the symbol and string tables |
| PsxEquivalence.SplitIsSame | scripts/psx_exe_to_elf.py:134-145 | payload and split ranges give the memory of zero-filling first and loading the payload over it, for every overlap |
| PsxEquivalence.SameProgram | scripts/psx_exe_to_elf.py:109-168 | loading the output gives exactly the memory map and entry point of the PS-X loader, for every input accepted |
| PsxEquivalence.SegmentsDisjoint | scripts/psx_exe_to_elf.py:94-105 | the address ranges that the program headers of the output give are pairwise disjoint |
| PsxEquivalence.LoadedSections | scripts/psx_exe_to_elf.py:59 | the loaded sections are the payload and the zero-fill sections, first in the list |
| PsxEquivalence.PackableIff | scripts/psx_exe_to_elf.py:80-93 | for small section fields every field fits exactly if the section table starts below 4 GiB |
| PsxEquivalence.AcceptedIff | scripts/psx_exe_to_elf.py:109-168 | conversion succeeds exactly if the input is not rejected and the section table starts below 4 GiB |
| PsxEquivalence.SymbolsBack | scripts/psx_exe_to_elf.py:153-167 | a reader of the symbol table gets name, value, type and section of every symbol back |
| TaskSplitting.SplitTasks | scripts/translation/translate_ts.py:168-193 | fails exactly if some record alone is too large, naming the first; otherwise the tasks are not empty, concatenate to the records, keep both limits, split no context group that would fit a task of its own, and no two neighbours fit together |
| TaskSplitting.GroupEnd | scripts/translation/translate_ts.py:174-175 | the end of a maximal run of one context |
| TaskSplitting.PairsUseUp | scripts/translation/translate_ts.py:177-190 | each pair of neighbours uses up more than one limit |
| TaskSplitting.TaskCount | scripts/translation/translate_ts.py:168-193 | at most 2 (n div (M+1) + B div (C+1)) + 1 tasks |
| Decisions.ValidateIsIdempotent | scripts/translation/translate_ts.py:330-435 | a validated decision, written out and validated again, is unchanged |
| Decisions.NormalIsGood | scripts/translation/translate_ts.py:395-435 | what a validated decision stands for passes every check |
| Decisions.NormalizedKeepsValue | scripts/translation/translate_ts.py:315-327 | normalization keeps the text a decision stands for, with exactly one exception |
| Decisions.NormalizedLosesForm | scripts/translation/translate_ts.py:356-366 | the exception: accepting the current text of such a record is valid, and stands for one text where a plural form was accepted |
| Decisions.WellFormedKeepsValue | scripts/translation/translate_ts.py:315-327 | where only messages with plurals have plural forms, normalization always keeps the text |
| Decisions.FieldsRead | scripts/translation/translate_ts.py:330-360 | the object a decision is written as selects exactly its own field |
| Decisions.SettledIsRead | scripts/translation/translate_ts.py:360-395 | that field reads back as the same choice |
| Responses.LoadExactly | scripts/translation/translate_ts.py:452-467 | lines load if and only if each makes a valid decision for a message owned and no two for the same; the map is exactly those decisions |
| Responses.LoadResponseExactly | scripts/translation/translate_ts.py:438-467 | a response loads, as one to task t with decisions m, if and only if every line is blank or an object, the first object is the header of t, and the others make exactly the decisions m, each valid, owned and not repeated |
| Responses.LoadResponseFile | scripts/translation/translate_ts.py:438-467 | the loop over the lines of a response gives the loading so characterised |
| Responses.LoadIsValid | scripts/translation/translate_ts.py:438-467 | what loads is in normal form |
| Responses.LineRead | scripts/translation/translate_ts.py:491-494 | a decision written as a line reads back |
| Responses.Salvage | scripts/translation/translate_ts.py:649-724 | the rebuilt file is the header and the salvaged decisions in task order |
| Responses.SalvageIsNamed | scripts/translation/translate_ts.py:699-712 | salvaged decisions are kept under their own message |
| Salvage.SalvageKeepsFirst | scripts/translation/translate_ts.py:664-712 | from an arbitrarily damaged file, exactly the first valid decision of each owned message is kept |
| Salvage.SalvagedLoads | scripts/translation/translate_ts.py:649-724 | the salvaged file loads, with exactly those decisions |
| Salvage.SalvageOfValid | scripts/translation/translate_ts.py:649-724 | salvaging a valid response keeps its decisions |
| Salvage.SalvageIdempotent | scripts/translation/translate_ts.py:649-724 | salvaging twice is salvaging once |
| Salvage.OrderedLoadsAll | scripts/translation/translate_ts.py:482-494 | decisions written in record order load as the same map |
| Salvage.JournalRoundTrip | scripts/translation/translate_ts.py:482-494 | writing a journal and loading it gives the same map |
| Merging.MergeResponse | scripts/translation/translate_ts.py:749-761 | in whatever order the decisions come, one response is added whole or the merge fails |
| Merging.MergeResponses | scripts/translation/translate_ts.py:737-761 | the loop over responses gives the specified merge |
| Merging.MergeIsUnion | scripts/translation/translate_ts.py:737-766 | without replacement, merging succeeds if and only if everything on offer agrees, and gives everything on offer |
| Merging.MergeKeepsEntries | scripts/translation/translate_ts.py:752-757 | without replacement no journal entry is altered or lost |
| Merging.MergeAnyOrder | scripts/translation/translate_ts.py:749-761 | without replacement neither success nor result depends on the order of the loaded responses |
| Merging.MergeSame | scripts/translation/translate_ts.py:749-761 | nor on how often one is given |
| Histories.MergeFilesAnyOrder | scripts/translation/translate_ts.py:737-766 | with the loading of the files included: whatever their order, the merge succeeds or fails alike and writes the same journal |
| Merging.ReplaceTakesLast | scripts/translation/translate_ts.py:752-761 | with replacement the last response that decides on a message wins |
| Merging.MergeIsValid | scripts/translation/translate_ts.py:737-766 | merged journals stay valid and hold no question |
| Splicing.Splice | scripts/translation/translate_ts.py:1006-1008 | disjoint edits in any order, applied back to front |
| Splicing.SpliceIsOnePass | scripts/translation/translate_ts.py:1006-1008 | back to front equals one pass that copies gaps and replaces spans |
| Splicing.OrderUnique | scripts/translation/translate_ts.py:1007 | the order the edits were collected in does not matter |
| Splicing.UntouchedStays | scripts/translation/translate_ts.py:1006-1008 | every stretch of text that no edit touches survives at its shifted offset |
| Splicing.EditsArrive | scripts/translation/translate_ts.py:1006-1008 | every replacement is there at its shifted offset |
| CatalogSplice.SpliceReplaces | scripts/translation/translate_ts.py:984-1008 | splicing the spans of messages gives the text of the catalog with just those messages replaced |
| CatalogSplice.PartsAt | scripts/translation/ts_utils.py:501-537 | the span of each message is exactly its text, behind the text before it |
| CatalogSplice.SpansAreDisjoint | scripts/translation/ts_utils.py:501-537 | the spans of different messages are in the text and disjoint |
| Applying.PlanIs | scripts/translation/translate_ts.py:987-1004 | nothing is in the way exactly if each selected message is there and either as reviewed or as recorded; those as recorded are replaced, and no others |
| Applying.PlanRewrites | scripts/translation/translate_ts.py:1003-1004 | each replacement is the rewriting of its message for its reviewed value |
| Applying.RevalidationHolds | scripts/translation/translate_ts.py:971-972 | the second validation of loaded decisions never fails |
| ApplyResults.StageSucceeds | scripts/translation/translate_ts.py:958-1021 | staging succeeds if and only if the journal loads, something is selected, the catalog is the recorded one and every selected message is clear; otherwise nothing is written |
| ApplyResults.ApplyTouches | scripts/translation/translate_ts.py:987-1008 | each message is untouched, or goes from exactly the recorded state to finished with a reviewed value that passes every check; all other text stays |
| ApplyResults.SecondApply | scripts/translation/translate_ts.py:998-1000 | a second apply with the same journal replaces nothing and needs no approval |
| ApplyCommand.Collect | scripts/translation/translate_ts.py:987-1004 | the loop collects exactly the spans of the messages to replace |
| ApplyCommand.ApplyFile | scripts/translation/translate_ts.py:958-1065 | the spliced file is the text of the specified catalog; on any error, or without --write, the file is as it was |
| ReviewResults.ReviewJournalRoundTrip | scripts/translation/review_ts.py:116-127 | writing a review journal and loading it gives the same results |
| ReviewResults.RetainedIsValid | scripts/translation/review_ts.py:158-166 | results kept from an earlier session are valid for the records of the new one |
| ReviewResults.StartedLoads | scripts/translation/review_ts.py:130-191 | a newly started journal always loads, with exactly the results kept |
| ReviewResults.MergedLoads | scripts/translation/review_ts.py:285-299 | a merged journal loads, and each result was in the journal or in a response |
| ReviewResults.MergeLosesNothing | scripts/translation/review_ts.py:290-294 | merging loses neither a journal entry nor a carried result, and alters none unless replacement is asked for |
| ReviewResults.UnchangedKeepsAll | scripts/translation/review_ts.py:158-166 | a session started from another on the same records, attributes and guidance keeps every result |
| ReviewResults.ResponseIsValid | scripts/translation/review_ts.py:194-205 | a loaded response is valid for the records of the session |
| Histories.MergeKeepsGood | scripts/translation/translate_ts.py:737-766 | merging any files keeps the journal loadable and free of questions |
| Histories.StartIsGood | scripts/translation/review_ts.py:130-191 | each result a new session keeps was given to the same text |
| Histories.MergeReviewIsGood | scripts/translation/review_ts.py:285-299 | merging keeps every result traceable to a response |
| HistoryResults.NextKeeps | scripts/translation/translate_ts.py:958-1065 | every action of environment or tools keeps all of this |
| HistoryResults.EveryHistory | scripts/translation/translate_ts.py:501-632 | so it holds in every history from a fresh session, whatever the actions |
| HistoryResults.ResultsAreGiven | scripts/translation/review_ts.py:158-166 | each result in any review journal came from a response to a session on its chain whose record has identical id, type, translation, plurals and comment |
| HistoryResults.ApplyWritesPassed | scripts/translation/review_ts.py:208-218 | an apply that needs semantic review writes only text that a reviewer has passed, in that language |
| HistoryResults.PassesApprove | scripts/translation/translate_ts.py:1022-1056 | once every record of the prepared review has a pass, the apply it was prepared for goes ahead |
| HistoryResults.RunTranslates | scripts/translation/translate_ts.py:958-1065 | while nobody else edits the catalog, any run of commands leaves a message alone or takes it from its recorded state to a reviewed value |
| HistoryResults.ChangesOnce | scripts/translation/translate_ts.py:998-1002 | and a message that one stretch of commands changed no later one changes |
| HistoryResults.AppliesOnce | scripts/translation/translate_ts.py:998-1000 | applying again right away changes nothing |
| XmlEscape.EscapeCons | scripts/translation/ts_utils.py:540-541 | three passes over the text are one pass over its characters |
| XmlEscape.UnescapeEscape | scripts/translation/ts_utils.py:540-541 | reading escaped text as character data gives it back |
| XmlEscape.EscapedIsData | scripts/translation/ts_utils.py:540-541 | escaped text holds no angle bracket |
| RichText.RichTextParser.constructor | scripts/translation/ts_utils.py:302-310 | feeding all events and closing gives the problems and links of the specified parser |
| RichText.RichTextParser.HandleStart | scripts/translation/ts_utils.py:312-319 | an opening tag counts its links and is put on the stack unless void |
| RichText.RichTextParser.HandleStartEnd | scripts/translation/ts_utils.py:321-324 | a self-closing tag is opened and closed |
| RichText.RichTextParser.HandleEnd | scripts/translation/ts_utils.py:326-332 | a closing tag cuts the stack at its last occurrence, and is a problem unless innermost |
| RichText.LastIndex | scripts/translation/ts_utils.py:331-332 | the search from the end finds the last occurrence of the tag |
| RichText.BelowAt | scripts/translation/ts_utils.py:331-332 | the stack is cut at the last occurrence and nowhere else |
| RichText.NestedRuns | scripts/translation/ts_utils.py:312-332 | the events of a document raise no problem and leave the stack as it was |
| RichText.ProblemsExactly | scripts/translation/ts_utils.py:299-332 | for the parser, and for one that takes unknown self-closing tags for text: no problem is reported if and only if the events are those of a document, in which an element is closed by what that parser takes for its end |
| RichText.NestingExactly | scripts/translation/ts_utils.py:299-332 | if no unknown self-closing tag stands directly in an element of its name, no problem is reported if and only if the tags nest in the ordinary sense; and no text that passes, and none whose tags nest, is judged right otherwise |
| RichText.KnownTagsNest | scripts/translation/ts_utils.py:299-332 | in particular for text whose self-closing tags are all known |
| RichText.MissesUnclosed | scripts/translation/ts_utils.py:321-324 | an element that nothing closes passes, if such a tag stands in it |
| RichText.ReportsClosed | scripts/translation/ts_utils.py:321-332 | the same element closed properly is reported |

## Left out

- Windows branches, UNC paths, locking, opening, temporary files, renames and the other operating-system work of `file_system.cpp`.
- `DirectorySearch.Search.FindFiles`: `RealPath` never fails, nothing changes on disk during a search, the sort flag is not modelled; `WildcardMatch` is a parameter.
- `FifoQueue.Queue.constructor`: construction and destruction of elements and heap allocation are not modelled.
- `BinarySpan.Reader.Read`: the sum of cursor and size does not wrap `size_t`; floats are raw bytes; the overloads that return a default on failure and the file-based readers and writers are not modelled.
- `ElfBuilder.BuildElf`: the section objects in the list are distinct, as `convert` makes them; a list that holds one object twice would have its offset overwritten.
- `AlignBits.NextPow2`: unsigned words only, and alignments that fit them; integer promotion of narrow types, `AlignedMalloc` and its wrappers are not modelled.
- `ApplyCommand.ApplyFile`: the file does not change between reading and replacing it; the comparison of hashes that would notice is not modelled. What the XML parser and the regular expressions find is the `Catalog` value.
- `CatalogSplice.PartsAt`: spans are read off the `Catalog` value; that the regular expressions of `scan_raw_messages` find them is not modelled.
- `CatalogSplice.SpansAreDisjoint`: the same.
- `HistoryResults.NextKeeps`: tasks of a review session are any split of its records into named tasks, which `TaskSplitting.SplitTasks` provides; session files are immutable, as their checksums enforce, and review journals are written by the tools only.
- `Responses.LoadResponseFile`: warnings, messages on errors and the byte form of JSON are not modelled.
- The session's `status` and `check` commands, suggestions, `start` of a translation session (its outcome is the `Project` value), salvage of review responses, and the preview file that `prepare-review` writes.
- `RichText.ProblemsExactly`: tokenization and the regular expression for known tags are given with the events; `unbalanced_rich_tags` and the comparison of tags and placeholders with the source are not modelled.
- String utilities, UTF-8, caches, vectors, easing, bit fields, BCD, crash handling, threading, and everything else of the emulator.
