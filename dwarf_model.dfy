/** The parts of a firmware image that the ELF/DWARF library hands to the
    address decoder, as plain values: sections, compile units with their
    debug-information entries, and line-number programs. */
module DwarfModel {
  import opened JsBase

  /** A debug-information entry, with the three attributes the decoder reads
      (`DW_AT_low_pc`, `DW_AT_high_pc`, `DW_AT_name`; absent when the entry has
      no such attribute) and the offset of the compile unit that owns it. */
  datatype Die = Die(
    tag: string,
    lowPc: Option<int>,
    highPc: Option<int>,
    name: Option<string>,
    hasChildren: bool,
    children: seq<Die>,
    cuOffset: nat)

  /** A compile unit: its offset and the entries the library lists in `CU.dies`. */
  datatype CompileUnit = CompileUnit(offset: nat, dies: seq<Die>)

  datatype FileEntry = FileEntry(name: string, dirIndex: int)

  datatype LineHeader = LineHeader(version: int, fileEntry: seq<FileEntry>, includeDirectory: seq<string>)

  /** One row of the line-number state machine (section 6.2.2 of DWARF Version 5). */
  datatype LineState = LineState(
    address: int,
    file: int,
    line: nat,
    column: nat,
    discriminator: nat,
    endSequence: bool)

  /** An entry of the decoded line program; entries that only change the
      header-level state carry no row. */
  datatype LineEntry = LineEntry(state: Option<LineState>)

  datatype LineProgram = LineProgram(header: LineHeader, entries: seq<LineEntry>)

  /** The compile units in file order, and each one's line program by compile-unit offset. */
  datatype DwarfInfo = DwarfInfo(cus: seq<CompileUnit>, linePrograms: map<nat, LineProgram>)

  datatype Section = Section(execinstr: bool, addr: nat, size: nat)

  datatype ElfFile = ElfFile(sections: seq<Section>, dwarf: DwarfInfo)

  /** A half-open address range `[start, end)`. */
  datatype Interval = Interval(start: int, end: int)

  predicate InInterval(iv: Interval, a: int) {
    iv.start <= a < iv.end
  }

  const SubprogramTag: string := "DW_TAG_subprogram"
}
