/** Resolving an address to a source location with a compile unit's
    line-number program (the row table of section 6.2 of DWARF Version 5). */
module LineLookup {
  import opened JsBase
  import opened DwarfModel

  /** The row carried into entry `k` of the walk: the latest row before `k`,
      unless that row ends a sequence. Entries without a row are skipped. */
  function PrevBefore(entries: seq<LineEntry>, k: nat): Option<LineState>
    requires k <= |entries|
  {
    if k == 0 then None
    else match entries[k - 1].state
      case None => PrevBefore(entries, k - 1)
      case Some(st) => if st.endSequence then None else Some(st)
  }

  /** Entry `k` closes the range `[prev.address, cur.address)` that holds `a`. */
  predicate Hit(entries: seq<LineEntry>, k: nat, a: int)
    requires k < |entries|
  {
    entries[k].state.Some? && PrevBefore(entries, k).Some?
    && PrevBefore(entries, k).value.address <= a < entries[k].state.value.address
  }

  /** The first entry at or after `from` that closes a range holding `a`. */
  function FirstHit(entries: seq<LineEntry>, a: int, from: nat): (r: Option<nat>)
    requires from <= |entries|
    ensures r.Some? ==> from <= r.value < |entries| && Hit(entries, r.value, a)
    ensures r.Some? ==> forall k :: from <= k < r.value ==> !Hit(entries, k, a)
    ensures r.None? ==> forall k :: from <= k < |entries| ==> !Hit(entries, k, a)
    decreases |entries| - from
  {
    if from == |entries| then None
    else if Hit(entries, from, a) then Some(from)
    else FirstHit(entries, a, from + 1)
  }

  /** Before version 5 file and directory indices are 1-based. */
  function IndexBase(h: LineHeader): int {
    if h.version < 5 then 1 else 0
  }

  /** The directory a file entry names; an index outside the table reads
      `undefined`, which prints as "undefined". */
  function DirectoryOf(h: LineHeader, f: FileEntry): string {
    var di := f.dirIndex - IndexBase(h);
    if 0 <= di < |h.includeDirectory| then h.includeDirectory[di] else "undefined"
  }

  /** The location of a row. A file index outside the table reads `undefined`
      and the property access on it throws. */
  function RowLocation(h: LineHeader, row: LineState): Outcome<string> {
    var fi := row.file - IndexBase(h);
    if !(0 <= fi < |h.fileEntry|) then Thrown
    else
      var f := h.fileEntry[fi];
      Normal(LocationText(DirectoryOf(h, f), f.name, row))
  }

  /** `directory + "/" + filename.name + ":" + line + ":" + column`, with
      ` (discriminator N)` when the discriminator is positive. */
  function LocationText(directory: string, name: string, row: LineState): string {
    var location := directory + "/" + name + ":" + ToDecimal(row.line) + ":" + ToDecimal(row.column);
    if row.discriminator > 0 then location + " (discriminator " + ToDecimal(row.discriminator) + ")"
    else location
  }

  lemma PrefixKept(s: string, p: string, t: string)
    requires StartsWith(s, p)
    ensures StartsWith(s + t, p)
  {
    assert (s + t)[..|p|] == s[..|p|];
  }

  /** The location text has the directory and file name first, and ends in a
      parenthesis exactly when the row has a positive discriminator. */
  lemma LocationTextShape(directory: string, name: string, row: LineState)
    ensures StartsWith(LocationText(directory, name, row), directory + "/" + name + ":")
    ensures var r := LocationText(directory, name, row);
      row.discriminator > 0 <==> r[|r| - 1] == ')'
  {
    var prefix := directory + "/" + name + ":";
    var col := ToDecimal(row.column);
    var location := prefix + ToDecimal(row.line) + ":" + col;
    PrefixKept(prefix, prefix, []);
    assert prefix + [] == prefix;
    PrefixKept(prefix, prefix, ToDecimal(row.line));
    PrefixKept(prefix + ToDecimal(row.line), prefix, ":");
    PrefixKept(prefix + ToDecimal(row.line) + ":", prefix, col);
    assert location[|location| - 1] == col[|col| - 1];
    assert 0 <= DigitValue(col[|col| - 1]);
    if row.discriminator > 0 {
      PrefixKept(location, prefix, " (discriminator ");
      PrefixKept(location + " (discriminator ", prefix, ToDecimal(row.discriminator));
      PrefixKept(location + " (discriminator " + ToDecimal(row.discriminator), prefix, ")");
    }
  }

  /** What `checkLineprogram` returns for a compile unit's line program (none
      when the unit has no line program). */
  function Lookup(lineprog: Option<LineProgram>, a: int): Outcome<string> {
    match lineprog
    case None => Normal("")
    case Some(lp) =>
      match FirstHit(lp.entries, a, 0)
      case None => Normal("")
      case Some(k) => RowLocation(lp.header, PrevBefore(lp.entries, k).value)
  }

  /** A row's location throws exactly when its file index is outside the file
      table; otherwise it names the directory and file the indices select,
      then the line and column in decimal (which `ParseToBase` reads back),
      then the discriminator when it is positive. */
  lemma LocationShape(h: LineHeader, row: LineState)
    ensures RowLocation(h, row).Thrown? <==> !(0 <= row.file - IndexBase(h) < |h.fileEntry|)
    ensures RowLocation(h, row).Normal? ==>
      var f := h.fileEntry[row.file - IndexBase(h)];
      var r := RowLocation(h, row).value;
      StartsWith(r, DirectoryOf(h, f) + "/" + f.name + ":")
      && (row.discriminator > 0 <==> r[|r| - 1] == ')')
    ensures RowLocation(h, row).Normal? ==>
      var f := h.fileEntry[row.file - IndexBase(h)];
      RowLocation(h, row).value
        == DirectoryOf(h, f) + "/" + f.name + ":" + ToDecimal(row.line) + ":" + ToDecimal(row.column)
           + (if row.discriminator > 0 then " (discriminator " + ToDecimal(row.discriminator) + ")" else "")
  {
    if 0 <= row.file - IndexBase(h) < |h.fileEntry| {
      var f := h.fileEntry[row.file - IndexBase(h)];
      LocationTextShape(DirectoryOf(h, f), f.name, row);
    }
  }

  /** The row carried into entry `k` is the latest row before `k`, and that row
      does not end a sequence; no carried row means the latest row ended a
      sequence or there was none. */
  lemma {:induction false} PrevBeforeIsLatestRow(entries: seq<LineEntry>, k: nat)
    requires k <= |entries|
    ensures PrevBefore(entries, k).Some? ==>
      exists j :: 0 <= j < k && entries[j].state == PrevBefore(entries, k)
        && !entries[j].state.value.endSequence
        && forall m :: j < m < k ==> entries[m].state.None?
    ensures PrevBefore(entries, k).None? ==>
      forall j :: 0 <= j < k && entries[j].state.Some? && !entries[j].state.value.endSequence ==>
        exists m :: j < m < k && entries[m].state.Some? && entries[m].state.value.endSequence
  {
    if k > 0 {
      PrevBeforeIsLatestRow(entries, k - 1);
    }
  }

  /** The lookup yields the empty text exactly when no range holds the address,
      and otherwise the location of the row that opens the first such range. */
  lemma LookupFindsFirstRange(lp: LineProgram, a: int)
    ensures Lookup(Some(lp), a) == Normal("") <==>
      forall k :: 0 <= k < |lp.entries| ==> !Hit(lp.entries, k, a)
    ensures forall k :: (0 <= k < |lp.entries| && Hit(lp.entries, k, a)
                         && forall j :: 0 <= j < k ==> !Hit(lp.entries, j, a)) ==>
      Lookup(Some(lp), a) == RowLocation(lp.header, PrevBefore(lp.entries, k).value)
  {
    var r := FirstHit(lp.entries, a, 0);
    if r.None? {
      assert Lookup(Some(lp), a) == Normal("");
    } else {
      var row := PrevBefore(lp.entries, r.value).value;
      assert Lookup(Some(lp), a) == RowLocation(lp.header, row);
      LocationShape(lp.header, row);
      assert Lookup(Some(lp), a) != Normal("");
      assert Hit(lp.entries, r.value, a);
      forall k | 0 <= k < |lp.entries| && Hit(lp.entries, k, a) && forall j :: 0 <= j < k ==> !Hit(lp.entries, j, a)
        ensures k == r.value
      {
        assert Hit(lp.entries, r.value, a);
      }
    }
  }

  // ---------------------------------------------------------------------------

  /** The row table of the example: rows at 100 and 120, then the end of the
      sequence at 130, all in file 1 of a version-4 program. */
  function ExampleProgram(): LineProgram {
    LineProgram(
      LineHeader(4, [FileEntry("f.c", 1)], ["src"]),
      [ LineEntry(Some(LineState(100, 1, 5, 0, 0, false))),
        LineEntry(None),
        LineEntry(Some(LineState(120, 1, 6, 0, 0, false))),
        LineEntry(Some(LineState(130, 1, 6, 0, 0, true))) ])
  }

  /** 110 falls in the first row's range and 125 in the second's; 135 lies past
      the end of the sequence and resolves to nothing. */
  lemma ExampleLookups()
    ensures Lookup(Some(ExampleProgram()), 110) == Normal("src/f.c:5:0")
    ensures Lookup(Some(ExampleProgram()), 125) == Normal("src/f.c:6:0")
    ensures Lookup(Some(ExampleProgram()), 135) == Normal("")
  {
    var e := ExampleProgram().entries;
    assert PrevBefore(e, 1) == Some(LineState(100, 1, 5, 0, 0, false));
    assert PrevBefore(e, 2) == PrevBefore(e, 1);
    assert PrevBefore(e, 3) == Some(LineState(120, 1, 6, 0, 0, false));
    assert PrevBefore(e, 4) == None;
    assert !Hit(e, 0, 110) && !Hit(e, 1, 110) && Hit(e, 2, 110);
    assert !Hit(e, 0, 125) && !Hit(e, 1, 125) && !Hit(e, 2, 125) && Hit(e, 3, 125);
    assert FirstHit(e, 110, 0) == FirstHit(e, 110, 2) == Some(2);
    assert FirstHit(e, 125, 0) == FirstHit(e, 125, 3) == Some(3);
    assert FirstHit(e, 135, 4) == None;
    assert !Hit(e, 3, 135);
    assert ToDecimal(5) == "5" && ToDecimal(6) == "6" && ToDecimal(0) == "0";
    assert "src" + "/" + "f.c" + ":" + "5" + ":" + "0" == "src/f.c:5:0";
    assert "src" + "/" + "f.c" + ":" + "6" + ":" + "0" == "src/f.c:6:0";
  }
}
